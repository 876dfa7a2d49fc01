/** 8.3 names. */
module FatName {
  import opened Bytes

  const SPACE: byte := 0x20
  const DOT: byte := 0x2E

  function ToUpper(c: byte): (u: byte)
    ensures c != 0 ==> u != 0
  {
    if 0x61 <= c <= 0x7A then c - 0x20 else c
  }

  /** d is the length of the part before the first dot. */
  ghost predicate IsDot(name: seq<byte>, d: nat) {
    d <= |name| && (forall m :: 0 <= m < d ==> name[m] != DOT) && (d < |name| ==> name[d] == DOT)
  }

  function DotAt(name: seq<byte>): (d: nat)
    ensures IsDot(name, d)
  {
    if name == [] || name[0] == DOT then 0 else DotAt(name[1..]) + 1
  }

  /** n characters: s upper-cased, cut or space-padded. */
  function Field(s: seq<byte>, n: nat): (f: seq<byte>)
    ensures |f| == n
  {
    seq(n, i requires 0 <= i => if i < |s| then ToUpper(s[i]) else SPACE)
  }

  function Extension(name: seq<byte>): seq<byte> {
    var d := DotAt(name);
    if d < |name| then name[d + 1..] else []
  }

  /** "PONG.ELF" is "PONG    ELF". A C string: no zero byte inside. */
  function Formatted(name: seq<byte>): (f: seq<byte>)
    ensures |f| == 11
    ensures 0 !in name ==> 0 !in f
  {
    var f := Field(name[..DotAt(name)], 8) + Field(Extension(name), 3);
    f
  }

  /** The name character by character, for any d that is where the first dot is. */
  lemma FormattedAt(name: seq<byte>, d: nat, f: seq<byte>)
    requires IsDot(name, d) && |f| == 11
    requires forall m :: 0 <= m < 8 ==> f[m] == if m < d then ToUpper(name[m]) else SPACE
    requires forall m :: 8 <= m < 11 ==> f[m] == if d + 1 + m - 8 < |name| then ToUpper(name[d + 1 + m - 8]) else SPACE
    ensures f == Formatted(name)
  {
    assert d == DotAt(name);
    forall m | 8 <= m < 11 ensures f[m] == Field(Extension(name), 3)[m - 8] {
      if d + 1 + m - 8 < |name| { assert Extension(name)[m - 8] == name[d + 1 + m - 8]; }
    }
  }

  /** src/fat32.c: format_83. */
  method Format83(name: seq<byte>, out: array<byte>)
    requires out.Length == 11
    modifies out
    ensures out[..] == Formatted(name)
  {
    var j := 0;
    while j < 11
      invariant j <= 11 && forall m :: 0 <= m < j ==> out[m] == SPACE
    {
      out[j] := SPACE;
      j := j + 1;
    }
    var i, pos := 0, 0;
    while i < |name| && name[i] != DOT && pos < 8
      invariant i == pos <= |name| && pos <= 8 && forall m :: 0 <= m < i ==> name[m] != DOT
      invariant forall m :: 0 <= m < 11 ==> out[m] == if m < pos then ToUpper(name[m]) else SPACE
    {
      out[pos] := ToUpper(name[i]);
      pos, i := pos + 1, i + 1;
    }
    ghost var b := pos;
    while i < |name| && name[i] != DOT
      invariant b <= i <= |name| && (b < 8 ==> i == b) && forall m :: 0 <= m < i ==> name[m] != DOT
    {
      i := i + 1;
    }
    ghost var d := i;
    if i < |name| {
      i := i + 1;
      pos := 8;
      while i < |name| && pos < 11
        invariant d + 1 <= i <= |name| && 8 <= pos <= 11 && i - (d + 1) == pos - 8
        invariant forall m :: 0 <= m < 8 ==> out[m] == if m < b then ToUpper(name[m]) else SPACE
        invariant forall m :: 8 <= m < 11 ==> out[m] == if m < pos then ToUpper(name[d + 1 + m - 8]) else SPACE
      {
        out[pos] := ToUpper(name[i]);
        pos, i := pos + 1, i + 1;
      }
    }
    FormattedAt(name, d, out[..]);
  }
}
