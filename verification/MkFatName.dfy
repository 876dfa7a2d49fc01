/** The builder's short names, and when they are the driver's. */
module MkFatName {
  import opened Bytes
  import opened FatName

  predicate Digit(c: byte) { 0x30 <= c <= 0x39 }
  predicate Letter(c: byte) { 0x41 <= c <= 0x5A }

  /** A character that short_name keeps: a letter, a digit and, in the first part, '_' or '-'. */
  predicate Keeps(c: byte, inName: bool) {
    var u := ToUpper(c);
    Digit(u) || Letter(u) || (inName && (u == 0x5F || u == 0x2D))
  }

  predicate Plain(s: seq<byte>, inName: bool) {
    forall i :: 0 <= i < |s| ==> Keeps(s[i], inName)
  }

  function Kept(s: seq<byte>, inName: bool): (r: seq<byte>)
    ensures |r| <= |s| && forall i :: 0 <= i < |r| ==> Keeps(r[i], inName) && ToUpper(r[i]) == r[i]
  {
    if s == [] then [] else (if Keeps(s[0], inName) then [ToUpper(s[0])] else []) + Kept(s[1..], inName)
  }

  /** rsplit at the last dot: where it is, or |s|. */
  function LastDot(s: seq<byte>): (d: nat)
    ensures d <= |s| && (d < |s| ==> s[d] == DOT) && forall i :: d < i < |s| ==> s[i] != DOT
    ensures d == |s| ==> DOT !in s
  {
    if s == [] then 0
    else
      var front := s[..|s| - 1];
      if s[|s| - 1] == DOT then |s| - 1
      else
        var d := LastDot(front);
        assert forall i :: 0 <= i < |front| ==> front[i] == s[i];
        if d == |front| then |s| else d
  }

  function Suffix(s: seq<byte>): (t: seq<byte>) {
    var d := LastDot(s);
    if d < |s| then s[d + 1..] else []
  }

  /** short_name of a base name in ASCII: nothing but characters it keeps, and padding behind them. */
  function ShortName(base: seq<byte>): (r: seq<byte>)
    ensures |r| == 11 && forall i :: 0 <= i < 11 ==> r[i] == SPACE || Keeps(r[i], i < 8)
    ensures forall i :: 0 <= i < 10 && i != 7 && r[i] == SPACE ==> r[i + 1] == SPACE
  {
    Field(Kept(base[..LastDot(base)], true), 8) + Field(Kept(Suffix(base), false), 3)
  }

  // ---- Both names of a file ----

  /** How many characters at the front of s are kept. */
  function Lead(s: seq<byte>, inName: bool): (q: nat)
    ensures q <= |s| && (forall i :: 0 <= i < q ==> Keeps(s[i], inName)) && (q < |s| ==> !Keeps(s[q], inName))
  {
    if s == [] || !Keeps(s[0], inName) then 0 else Lead(s[1..], inName) + 1
  }

  /** Up to n characters, s holds nothing but blanks behind its first `from`. */
  predicate BlankFrom(s: seq<byte>, from: nat, n: nat) {
    forall i :: from <= i < n && i < |s| ==> s[i] == SPACE
  }

  /** A field of the kept characters k and one of the text e are the same: e is kept up to its blanks. */
  predicate SameField(k: seq<byte>, e: seq<byte>, n: nat, inName: bool) {
    var q := Lead(e, inName);
    && (forall i :: 0 <= i < q && i < n ==> i < |k| && k[i] == ToUpper(e[i]))
    && (q >= n || (|k| == q && BlankFrom(e, q, n)))
  }

  /** The first parts agree: the driver's ends at the first dot, the builder's at the last and without what is not
      kept. */
  predicate FirstPartsAgree(s: seq<byte>) {
    var f, d := DotAt(s), LastDot(s);
    var q := Lead(s[..f], true);
    q >= 8 || (BlankFrom(s[..f], q, 8) && forall i :: q <= i < d ==> !Keeps(s[i], true))
  }

  /** The extensions agree: the driver's starts behind the first dot, the builder's behind the last. */
  predicate ExtensionsAgree(s: seq<byte>) {
    SameField(Kept(Suffix(s), false), Extension(s), 3, false)
  }

  lemma BlankUpper(c: byte, inName: bool)
    ensures ToUpper(c) == SPACE <==> c == SPACE
    ensures !Keeps(SPACE, inName) && (Keeps(ToUpper(c), inName) <==> Keeps(c, inName))
  {}

  lemma FieldFromSame(k: seq<byte>, e: seq<byte>, n: nat, inName: bool)
    requires forall i :: 0 <= i < |k| ==> ToUpper(k[i]) == k[i]
    requires SameField(k, e, n, inName)
    ensures Field(k, n) == Field(e, n)
  {
    hide Keeps;
    var q := Lead(e, inName);
    forall i | 0 <= i < n ensures Field(k, n)[i] == Field(e, n)[i] {
      if i < q { assert k[i] == ToUpper(e[i]); }
    }
  }

  lemma SameFromField(k: seq<byte>, e: seq<byte>, n: nat, inName: bool)
    requires Plain(k, inName) && Field(k, n) == Field(e, n)
    requires forall i :: 0 <= i < |k| ==> ToUpper(k[i]) == k[i]
    ensures SameField(k, e, n, inName)
  {
    hide Keeps, ToUpper;
    var q := Lead(e, inName);
    var a, b := Field(k, n), Field(e, n);
    forall i | 0 <= i < q && i < n ensures i < |k| && k[i] == ToUpper(e[i]) {
      assert a[i] == b[i];
      BlankUpper(e[i], inName);
    }
    if q < n {
      assert q > 0 ==> q - 1 < |k| by { if q > 0 { BlankUpper(e[q - 1], inName); } }
      assert a[q] == b[q];
      assert |k| <= q by {
        if q < |k| {
          BlankUpper(k[q], inName);
          if q < |e| { BlankUpper(e[q], inName); }
        }
      }
      forall i | q <= i < n && i < |e| ensures e[i] == SPACE {
        assert a[i] == b[i];
        BlankUpper(e[i], inName);
      }
    }
  }

  /** A field of kept characters and a field of any text are the same exactly if the text is kept up to its blanks. */
  lemma FieldsAgree(k: seq<byte>, e: seq<byte>, n: nat, inName: bool)
    requires Plain(k, inName) && forall i :: 0 <= i < |k| ==> ToUpper(k[i]) == k[i]
    ensures Field(k, n) == Field(e, n) <==> SameField(k, e, n, inName)
  {
    hide *;
    if Field(k, n) == Field(e, n) {
      SameFromField(k, e, n, inName);
    } else if SameField(k, e, n, inName) {
      FieldFromSame(k, e, n, inName);
    }
  }

  lemma {:induction false} KeptApart(s: seq<byte>, t: seq<byte>, inName: bool)
    ensures Kept(s + t, inName) == Kept(s, inName) + Kept(t, inName)
  {
    if s == [] {
      assert s + t == t;
    } else {
      assert (s + t)[1..] == s[1..] + t;
      KeptApart(s[1..], t, inName);
    }
  }

  lemma {:induction false} KeptAll(s: seq<byte>, inName: bool)
    requires Plain(s, inName)
    ensures |Kept(s, inName)| == |s| && forall i :: 0 <= i < |s| ==> Kept(s, inName)[i] == ToUpper(s[i])
  {
    if s != [] {
      KeptAll(s[1..], inName);
      assert forall i :: 0 < i < |s| ==> s[i] == s[1..][i - 1];
    }
  }

  lemma {:induction false} KeptNone(s: seq<byte>, inName: bool)
    ensures Kept(s, inName) == [] <==> forall i :: 0 <= i < |s| ==> !Keeps(s[i], inName)
  {
    if s != [] {
      KeptNone(s[1..], inName);
      assert forall i :: 0 < i < |s| ==> s[i] == s[1..][i - 1];
    }
  }

  lemma DotsInOrder(s: seq<byte>)
    ensures DotAt(s) <= LastDot(s) && (DotAt(s) == |s| <==> LastDot(s) == |s|)
  {}

  /** What is kept of a text whose first q characters are: those, and whatever is kept behind them. */
  lemma KeptBehind(t: seq<byte>, q: nat, inName: bool)
    requires q <= |t| && forall i :: 0 <= i < q ==> Keeps(t[i], inName)
    ensures var k := Kept(t, inName);
            && |k| >= q && (forall i :: 0 <= i < q ==> k[i] == ToUpper(t[i]))
            && (|k| == q <==> forall i :: q <= i < |t| ==> !Keeps(t[i], inName))
  {
    hide Keeps, Kept, ToUpper;
    assert t == t[..q] + t[q..];
    KeptApart(t[..q], t[q..], inName);
    KeptAll(t[..q], inName);
    KeptNone(t[q..], inName);
    assert forall i :: q <= i < |t| ==> t[i] == t[q..][i - q];
  }

  lemma FirstParts(s: seq<byte>)
    ensures Field(Kept(s[..LastDot(s)], true), 8) == Field(s[..DotAt(s)], 8) <==> FirstPartsAgree(s)
  {
    hide Keeps, Kept, Field, BlankFrom, ToUpper, Lead;
    var f, d := DotAt(s), LastDot(s);
    DotsInOrder(s);
    var t, e := s[..d], s[..f];
    var q := Lead(e, true);
    assert forall i :: 0 <= i < f ==> t[i] == e[i];
    KeptBehind(t, q, true);
    FieldsAgree(Kept(t, true), e, 8, true);
  }

  /** Builder and driver make the same 11 bytes of a base name exactly if its first parts and its extensions agree. */
  lemma NamesAgreeExactly(s: seq<byte>)
    ensures ShortName(s) == Formatted(s) <==> FirstPartsAgree(s) && ExtensionsAgree(s)
  {
    hide Keeps, Kept, Lead, Field, BlankFrom, FirstPartsAgree, ShortName, Formatted, Suffix, Extension;
    FirstParts(s);
    FieldsAgree(Kept(Suffix(s), false), Extension(s), 3, false);
    SplitFields(s);
  }

  lemma SplitFields(s: seq<byte>)
    ensures ShortName(s) == Formatted(s) <==>
              Field(Kept(s[..LastDot(s)], true), 8) == Field(s[..DotAt(s)], 8)
                  && Field(Kept(Suffix(s), false), 3) == Field(Extension(s), 3)
  {
    hide Keeps, Kept, Lead, Field;
    var a, b := ShortName(s), Formatted(s);
    assert a[..8] == Field(Kept(s[..LastDot(s)], true), 8) && a[8..] == Field(Kept(Suffix(s), false), 3);
    assert b[..8] == Field(s[..DotAt(s)], 8) && b[8..] == Field(Extension(s), 3);
    if a[..8] == b[..8] && a[8..] == b[8..] {
      assert a == a[..8] + a[8..] && b == b[..8] + b[8..];
    }
  }

  // ---- Particular names ----

  lemma {:induction false} LeadAll(s: seq<byte>, inName: bool)
    requires Plain(s, inName)
    ensures Lead(s, inName) == |s| && DOT !in s
  {
    if s != [] { LeadAll(s[1..], inName); }
  }

  /** A valid 8.3 name in the builder's sense, with or without a dot. */
  ghost predicate Valid83(s: seq<byte>) {
    var a := s[..DotAt(s)];
    1 <= |a| <= 8 && |Extension(s)| <= 3 && Plain(a, true) && Plain(Extension(s), false)
  }

  lemma OneDot(s: seq<byte>)
    requires DOT !in Extension(s)
    ensures LastDot(s) == DotAt(s) && Suffix(s) == Extension(s)
  {
    var f := DotAt(s);
    assert f < |s| ==> forall i :: f < i < |s| ==> s[i] == Extension(s)[i - f - 1];
  }

  /** Builder and driver make the same 11 bytes of every valid 8.3 name. */
  lemma NamesAgree(s: seq<byte>)
    requires Valid83(s)
    ensures ShortName(s) == Formatted(s)
  {
    hide Keeps, Kept, Formatted, ShortName;
    LeadAll(s[..DotAt(s)], true);
    LeadAll(Extension(s), false);
    OneDot(s);
    KeptAll(Extension(s), false);
    NamesAgreeExactly(s);
  }

  /** A name of three plain parts: the builder's extension is the last, the driver's the second with all behind it. They
      agree exactly if nothing but equal characters is left of either. */
  lemma TwoDotsExactly(a: seq<byte>, b: seq<byte>, c: seq<byte>)
    requires Plain(a, true) && Plain(b, false) && Plain(c, false)
    ensures var s := a + [DOT] + b + [DOT] + c;
            ShortName(s) == Formatted(s) <==>
              |a| >= 8 && |b| >= 3 && |c| >= 3 && forall i :: 0 <= i < 3 ==> ToUpper(b[i]) == ToUpper(c[i])
  {
    hide Plain, Keeps, Kept, Lead, FirstPartsAgree, SameField, ShortName, Formatted, DotAt, LastDot, Extension,
         Suffix, ToUpper;
    var s, e := a + [DOT] + b + [DOT] + c, b + [DOT] + c;
    LeadAll(a, true);
    LeadAll(b, false);
    LeadAll(c, false);
    assert s == a + [DOT] + e;
    FirstDotIs(a, e);
    LastDotIs(a + [DOT] + b, c);
    KeptAll(c, false);
    NamesAgreeExactly(s);
    TwoFirstParts(a, b, c);
    TwoExtensions(b, c);
  }

  lemma TwoFirstParts(a: seq<byte>, b: seq<byte>, c: seq<byte>)
    requires Plain(a, true) && Plain(b, false)
    ensures var s := a + [DOT] + b + [DOT] + c;
            DotAt(s) == |a| && LastDot(s) == |a| + 1 + |b| && s[..DotAt(s)] == a ==>
                (FirstPartsAgree(s) <==> |a| >= 8 || b == [])
  {
    hide DotAt, LastDot, Lead;
    var s := a + [DOT] + b + [DOT] + c;
    LeadAll(a, true);
    if b != [] {
      assert s[|a| + 1] == b[0] && Keeps(b[0], true);
    } else {
      assert s[|a|] == DOT;
    }
  }

  lemma TwoExtensions(b: seq<byte>, c: seq<byte>)
    requires Plain(b, false) && Plain(c, false)
    ensures SameField(Kept(c, false), b + [DOT] + c, 3, false) <==>
              |b| >= 3 && |c| >= 3 && forall i :: 0 <= i < 3 ==> ToUpper(b[i]) == ToUpper(c[i])
  {
    hide Kept, Lead, Plain, Keeps;
    var e, k := b + [DOT] + c, Kept(c, false);
    LeadUpToDot(b, c);
    KeptAll(c, false);
    assert forall i :: 0 <= i < |b| ==> e[i] == b[i];
    assert e[|b|] == DOT;
    if |b| >= 3 {
      assert e[0] == b[0] && e[1] == b[1] && e[2] == b[2];
    }
  }

  lemma LeadUpToDot(b: seq<byte>, c: seq<byte>)
    requires Plain(b, false)
    ensures Lead(b + [DOT] + c, false) == |b|
  {
    var s := b + [DOT] + c;
    assert forall i :: 0 <= i < |b| ==> s[i] == b[i];
    assert s[|b|] == DOT;
  }

  lemma FirstDotIs(a: seq<byte>, e: seq<byte>)
    requires DOT !in a
    ensures var s := a + [DOT] + e; DotAt(s) == |a| && s[..|a|] == a && Extension(s) == e
  {
    var s := a + [DOT] + e;
    assert forall i :: 0 <= i < |a| ==> s[i] == a[i];
    assert s[|a|] == DOT;
  }

  lemma LastDotIs(front: seq<byte>, c: seq<byte>)
    requires DOT !in c
    ensures var s := front + [DOT] + c; LastDot(s) == |front| && Suffix(s) == c
  {
    var s := front + [DOT] + c;
    assert s[|front|] == DOT;
    assert forall i :: |front| < i < |s| ==> s[i] == c[i - |front| - 1];
  }
}
