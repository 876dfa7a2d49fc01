/** Bytes, disk sectors and the little-endian fields that the on-disk structures are made of. */
module Bytes {

  type byte = x: int | 0 <= x < 0x100

  const SECTOR_SIZE: nat := 512
  const PAGE: nat := 4096
  const WORD: nat := 0x1_0000_0000     // uint32_t arithmetic wraps here

  type Sector = s: seq<byte> | |s| == SECTOR_SIZE witness seq(SECTOR_SIZE, i => 0)

  /** a * b. Written as a sum, it keeps the solver's nonlinear arithmetic out of larger proofs. */
  function Times(a: nat, b: nat): (p: nat) {
    if a == 0 then 0 else Times(a - 1, b) + b
  }

  lemma {:induction false} TimesIsProduct(a: nat, b: nat)
    ensures Times(a, b) == a * b
  {
    if a > 0 {
      TimesIsProduct(a - 1, b);
      assert a * b == (a - 1) * b + b;
    }
  }

  lemma {:induction false} TimesGap(x: nat, y: nat, n: nat)
    requires x < y
    ensures Times(x, n) + n <= Times(y, n)
    decreases y
  {
    if x < y - 1 {
      TimesGap(x, y - 1, n);
    }
  }

  function U16(s: seq<byte>, off: nat): (v: nat)
    requires off + 2 <= |s|
    ensures v < 0x1_0000
  {
    s[off] as int + 0x100 * s[off + 1] as int
  }

  function U32(s: seq<byte>, off: nat): (v: nat)
    requires off + 4 <= |s|
    ensures v < 0x1_0000_0000
  {
    s[off] as int + 0x100 * s[off + 1] as int + 0x1_0000 * s[off + 2] as int + 0x100_0000 * s[off + 3] as int
  }

  function Le16(v: nat): (bs: seq<byte>)
    requires v < 0x1_0000
    ensures |bs| == 2 && U16(bs, 0) == v
  {
    [v % 0x100, v / 0x100]
  }

  lemma FourBytes(v: nat)
    requires v < 0x1_0000_0000
    ensures v ==
            v % 0x100 + 0x100 * (v / 0x100 % 0x100) + 0x1_0000 * (v / 0x1_0000 % 0x100) + 0x100_0000 * (v / 0x100_0000)
    ensures v / 0x100_0000 < 0x100
  {
    assert v / 0x1_0000 == v / 0x100 / 0x100;
    assert v / 0x100_0000 == v / 0x1_0000 / 0x100;
  }

  function Le32(v: nat): (bs: seq<byte>)
    requires v < 0x1_0000_0000
    ensures |bs| == 4 && U32(bs, 0) == v
  {
    FourBytes(v);
    [v % 0x100, v / 0x100 % 0x100, v / 0x1_0000 % 0x100, v / 0x100_0000]
  }

  /** What memcpy(s + off, bs, |bs|) leaves in s. */
  function Splice(s: seq<byte>, off: nat, bs: seq<byte>): (r: seq<byte>)
    requires off + |bs| <= |s|
    ensures |r| == |s|
    ensures forall i :: 0 <= i < |s| ==> r[i] == if off <= i < off + |bs| then bs[i - off] else s[i]
  {
    s[..off] + bs + s[off + |bs|..]
  }

  /** A 32-bit field reads back as written, and a field elsewhere is not disturbed. */
  lemma SpliceU32(s: seq<byte>, off: nat, v: nat, at: nat)
    requires off + 4 <= |s| && at + 4 <= |s| && v < 0x1_0000_0000
    requires at == off || at + 4 <= off || off + 4 <= at
    ensures U32(Splice(s, off, Le32(v)), at) == if at == off then v else U32(s, at)
  {
    var r := Splice(s, off, Le32(v));
    if at == off {
      assert r[off] == Le32(v)[0] && r[off + 1] == Le32(v)[1] && r[off + 2] == Le32(v)[2] && r[off + 3] == Le32(v)[3];
    }
  }

  /** The bytes of a run of sectors, one after the other. */
  function Join(ss: seq<Sector>): (bs: seq<byte>)
    ensures |bs| == SECTOR_SIZE * |ss|
  {
    if ss == [] then [] else Join(ss[..|ss| - 1]) + ss[|ss| - 1]
  }

  lemma {:induction false} JoinPrefix(ss: seq<Sector>, n: nat)
    requires n <= |ss|
    ensures Join(ss[..n]) == Join(ss)[..SECTOR_SIZE * n]
  {
    if n == |ss| {
      assert ss[..n] == ss;
    } else {
      var front := ss[..|ss| - 1];
      JoinPrefix(front, n);
      assert front[..n] == ss[..n];
    }
  }

  lemma JoinSector(ss: seq<Sector>, i: nat)
    requires i < |ss|
    ensures Join(ss)[SECTOR_SIZE * i..SECTOR_SIZE * i + SECTOR_SIZE] == ss[i]
  {
    JoinPrefix(ss, i + 1);
    var upTo := ss[..i + 1];
    assert upTo[..i] == ss[..i];
    assert Join(upTo) == Join(ss[..i]) + ss[i];
    assert Join(ss)[SECTOR_SIZE * i..SECTOR_SIZE * i + SECTOR_SIZE] == Join(upTo)[SECTOR_SIZE * i..];
  }
}
