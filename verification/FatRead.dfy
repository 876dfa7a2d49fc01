/** Reading a file: which bytes of its chain fat32_read_impl returns. */
module FatRead {
  import opened Bytes
  import opened FatLayout

  /** All the bytes that a chain of clusters holds. */
  ghost function ChainBytes(g: Geo, v: Vol, cs: seq<nat>): (bs: seq<byte>)
    requires Fits(g, v) && AllInRange(g, cs)
    ensures |bs| == SECTOR_SIZE * |Sectors(g, v, cs)|
  {
    Join(Sectors(g, v, cs))
  }

  function Min(a: nat, b: nat): nat { if a < b then a else b }

  /** bs from a to b, as far as it reaches. */
  function Slice(bs: seq<byte>, a: nat, b: nat): (r: seq<byte>)
    requires a <= b
  {
    bs[Min(a, |bs|)..Min(b, |bs|)]
  }

  /** The byte count after the clamp to the file length, whose test wraps like the source's. */
  function Clamped(length: nat, offset: nat, size: nat): (n: nat)
    requires offset < length
  {
    if (offset + size) % WORD > length then length - offset else size
  }

  /** What a read ought to return: the requested slice, cut to the file length. */
  ghost function Wanted(bs: seq<byte>, length: nat, offset: nat, size: nat): (r: seq<byte>)
    requires length <= |bs|
  {
    Slice(bs[..length], offset, offset + size)
  }

  /** What a read does return. */
  ghost function Returned(bs: seq<byte>, length: nat, offset: nat, size: nat): (r: seq<byte>) {
    if offset >= length then [] else Slice(bs, offset, offset + Clamped(length, offset, size))
  }

  /** The read is exact if and only if offset + size stays below 2^32, or nothing lies behind the
      file's end to be read by mistake, or offset is at the end already. */
  lemma ReadExact(bs: seq<byte>, length: nat, offset: nat, size: nat)
    requires length <= |bs| && length < WORD && offset < WORD && size < WORD
    ensures Returned(bs, length, offset, size) == Wanted(bs, length, offset, size)
       <==> offset >= length || offset + size < WORD || length == |bs|
  {
    if offset < length {
      var r, w := Returned(bs, length, offset, size), Wanted(bs, length, offset, size);
      if offset + size < WORD {
        assert r == w;
      } else {
        assert |w| == length - offset && |r| == Min(offset + size, |bs|) - offset;
        if length == |bs| { assert r == w; }
      }
    }
  }

  /** A read that runs past the file: offset + size passes 2^32. */
  lemma ReadWraps(bs: seq<byte>)
    requires |bs| == 1024
    ensures Returned(bs, 10, 8, WORD - 4) != Wanted(bs, 10, 8, WORD - 4)
  {
    ReadExact(bs, 10, 8, WORD - 4);
  }

  /** A piece of one sector is the same piece of the joined bytes. */
  lemma JoinPiece(ss: seq<Sector>, q: nat, from: nat, n: nat)
    requires q < |ss| && from + n <= SECTOR_SIZE
    ensures SECTOR_SIZE * q + from + n <= |Join(ss)|
    ensures ss[q][from..from + n] == Join(ss)[SECTOR_SIZE * q + from..SECTOR_SIZE * q + from + n]
  {
    JoinSector(ss, q);
    var at := SECTOR_SIZE * q;
    var a, b := ss[q][from..from + n], Join(ss)[at + from..at + from + n];
    forall i | 0 <= i < n ensures a[i] == b[i] {
      assert Join(ss)[at..at + SECTOR_SIZE][from + i] == Join(ss)[at + from + i];
    }
  }

  /** Whole clusters before an offset, and the bytes of the next one before it. */
  function WholeClusters(g: Geo, offset: nat): (c: nat)
    requires g.spc >= 1
  {
    offset / (g.spc * SECTOR_SIZE)
  }

  function ClusterRest(g: Geo, offset: nat): (r: nat)
    requires g.spc >= 1
  {
    offset % (g.spc * SECTOR_SIZE)
  }

  lemma OffsetPlace(g: Geo, offset: nat)
    requires g.spc >= 1
    ensures offset == SECTOR_SIZE * Times(WholeClusters(g, offset), g.spc) + ClusterRest(g, offset)
    ensures ClusterRest(g, offset) / SECTOR_SIZE < g.spc
  {
    var b := g.spc * SECTOR_SIZE;
    var c := offset / b;
    TimesIsProduct(c, g.spc);
    assert c * b == SECTOR_SIZE * (c * g.spc);
  }

  /** A whole-file read from the start returns the file, or its first part. */
  lemma ReadFromStart(bs: seq<byte>, length: nat, size: nat)
    requires length <= |bs| && size <= length < WORD
    ensures Returned(bs, length, 0, size) == bs[..length][..size]
  {}

  lemma {:induction false} TimesMonotone(x: nat, y: nat, n: nat)
    requires x <= y
    ensures Times(x, n) <= Times(y, n)
  {
    if x < y { TimesGap(x, y, n); }
  }
}
