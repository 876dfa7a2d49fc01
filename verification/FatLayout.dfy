/** The FAT32 volume as a remount sees it: file allocation table 0 and the data region. */
module FatLayout {
  import opened Wrappers
  import opened Bytes

  const EOC: nat := 0x0FFF_FFF8         // end-of-chain markers are this and above
  const LAST: nat := 0x0FFF_FFFF        // the end marker the driver writes
  const ENTRY: nat := 0x1000_0000       // an entry's low 28 bits are its value

  /** The numbers fat32_init takes from the boot sector. */
  datatype Geo = Geo(fatStart: nat, fatSize: nat, numFats: nat, spc: nat, root: nat, total: nat, sectors: nat) {
    function DataStart(): nat { fatStart + Times(numFats, fatSize) }

    /** Every cluster has a table entry and a place in the data region; numbers fit their fields. */
    predicate Ok() {
      && 1 <= fatStart && 1 <= numFats && 1 <= spc
      && 2 <= root < total + 2 <= EOC
      && total + 2 <= fatSize * 128
      && DataStart() + Times(total, spc) <= sectors < 0xFFFF_FFFF
    }

    predicate InRange(c: nat) { 2 <= c < total + 2 }
  }

  datatype Vol = Vol(fat: seq<Sector>, data: seq<Sector>)

  ghost predicate Fits(g: Geo, v: Vol) {
    g.Ok() && |v.fat| == g.fatSize && Times(g.total, g.spc) <= |v.data|
  }

  // ---- The table ----

  function Raw(v: Vol, c: nat): (x: nat)
    requires c < |v.fat| * 128
    ensures x < 0x1_0000_0000
  {
    U32(v.fat[c / 128], c % 128 * 4)
  }

  function Next(v: Vol, c: nat): (x: nat)
    requires c < |v.fat| * 128
    ensures x < ENTRY
  {
    Raw(v, c) % ENTRY
  }

  /** cs is the whole chain of clusters that starts at c: all in range, and properly ended. */
  ghost predicate IsChain(g: Geo, v: Vol, c: nat, cs: seq<nat>)
    requires Fits(g, v)
    decreases |cs|
  {
    if cs == [] then !(2 <= c < EOC)
    else cs[0] == c && g.InRange(c) && Next(v, c) != 0 && IsChain(g, v, Next(v, c), cs[1..])
  }

  ghost predicate HasChain(g: Geo, v: Vol, c: nat)
    requires Fits(g, v)
  {
    exists cs :: IsChain(g, v, c, cs)
  }

  ghost function ChainOf(g: Geo, v: Vol, c: nat): (cs: seq<nat>)
    requires Fits(g, v) && HasChain(g, v, c)
    ensures IsChain(g, v, c, cs) && AllInRange(g, cs)
  {
    var cs :| IsChain(g, v, c, cs);
    ChainInRange(g, v, c, cs);
    cs
  }

  ghost function Allocated(g: Geo, v: Vol): set<nat>
    requires Fits(g, v)
  {
    set c: nat | 2 <= c < g.total + 2 && Next(v, c) != 0
  }

  ghost function Free(g: Geo, v: Vol): set<nat>
    requires Fits(g, v)
  {
    set c: nat | 2 <= c < g.total + 2 && Next(v, c) == 0
  }

  // ---- The data region ----

  ghost predicate AllInRange(g: Geo, cs: seq<nat>) {
    forall i :: 0 <= i < |cs| ==> g.InRange(cs[i])
  }

  /** Data-region index of a cluster's first sector. */
  function Base(g: Geo, c: nat): (i: nat)
    requires 2 <= c
  {
    Times(c - 2, g.spc)
  }

  lemma BaseFits(g: Geo, v: Vol, c: nat)
    requires Fits(g, v) && g.InRange(c)
    ensures Base(g, c) + g.spc <= |v.data|
  {
    TimesGap(c - 2, g.total, g.spc);
  }

  ghost function Cluster(g: Geo, v: Vol, c: nat): (ss: seq<Sector>)
    requires Fits(g, v) && g.InRange(c)
    ensures |ss| == g.spc
  {
    BaseFits(g, v, c);
    v.data[Base(g, c)..Base(g, c) + g.spc]
  }

  /** The sectors of a list of clusters, in reading order. */
  ghost function Sectors(g: Geo, v: Vol, cs: seq<nat>): (ss: seq<Sector>)
    requires Fits(g, v) && AllInRange(g, cs)
  {
    if cs == [] then [] else Sectors(g, v, cs[..|cs| - 1]) + Cluster(g, v, cs[|cs| - 1])
  }

  lemma {:induction false} SectorsLength(g: Geo, v: Vol, cs: seq<nat>)
    requires Fits(g, v) && AllInRange(g, cs)
    ensures |Sectors(g, v, cs)| == Times(|cs|, g.spc)
    decreases |cs|
  {
    if cs != [] {
      SectorsLength(g, v, cs[..|cs| - 1]);
    }
  }

  lemma {:induction false} SectorsPrefix(g: Geo, v: Vol, cs: seq<nat>, i: nat)
    requires Fits(g, v) && AllInRange(g, cs) && i < |cs|
    ensures |Sectors(g, v, cs[..i])| + g.spc <= |Sectors(g, v, cs)|
    ensures Sectors(g, v, cs)[..|Sectors(g, v, cs[..i])|] == Sectors(g, v, cs[..i])
    ensures Sectors(g, v, cs)[|Sectors(g, v, cs[..i])|..][..g.spc] == Cluster(g, v, cs[i])
    decreases |cs|
  {
    var front := cs[..|cs| - 1];
    if i < |front| {
      SectorsPrefix(g, v, front, i);
      assert front[..i] == cs[..i];
    }
  }

  // ---- The directory ----

  type Dirent = e: seq<byte> | |e| == 32 witness seq(32, i => 0)

  const ATTR_ARCHIVE: byte := 0x20

  function First(e: Dirent): nat { U16(e, 20) * 0x1_0000 + U16(e, 26) }

  function Size(e: Dirent): nat { U32(e, 28) }

  /** Neither a terminator, nor deleted, nor a long-name part, nor the volume label. */
  predicate Live(e: Dirent) {
    e[0] != 0x00 && e[0] != 0xE5 && e[11] % 0x10 != 0x0F && e[11] / 8 % 2 == 0
  }

  /** The entry with its cluster and size fields rewritten, as the commit does it. */
  function WithData(e: Dirent, first: nat, size: nat): (r: Dirent)
    requires first < ENTRY && size < 0x1_0000_0000
    ensures First(r) == first && Size(r) == size
    ensures r[..11] == e[..11] && r[11] == e[11]
  {
    var low := Splice(e, 26, Le16(first % 0x1_0000));
    var high := Splice(low, 20, Le16(first / 0x1_0000));
    var r := Splice(high, 28, Le32(size));
    assert r[20] == Le16(first / 0x1_0000)[0] && r[21] == Le16(first / 0x1_0000)[1];
    assert r[26] == Le16(first % 0x1_0000)[0] && r[27] == Le16(first % 0x1_0000)[1];
    assert forall i :: 0 <= i < 4 ==> r[28 + i] == Le32(size)[i];
    r
  }

  /** The directory entries of a run of sectors, sixteen to the sector. */
  function Entries(ss: seq<Sector>): (ds: seq<Dirent>)
    ensures |ds| == 16 * |ss|
  {
    if ss == [] then [] else Entries(ss[..|ss| - 1]) + SectorEntries(ss[|ss| - 1])
  }

  function SectorEntries(s: Sector): (ds: seq<Dirent>)
    ensures |ds| == 16
    ensures forall e :: 0 <= e < 16 ==> ds[e] == s[e * 32..e * 32 + 32]
  {
    seq(16, e requires 0 <= e < 16 => s[e * 32..e * 32 + 32])
  }

  lemma {:induction false} EntriesSector(ss: seq<Sector>, q: nat)
    requires q < |ss|
    ensures Entries(ss)[16 * q..16 * q + 16] == SectorEntries(ss[q])
    decreases |ss|
  {
    if q < |ss| - 1 {
      EntriesSector(ss[..|ss| - 1], q);
    }
  }

  /** The first entry from slot k on with this name; a terminator ends the search. */
  function Find(ds: seq<Dirent>, name: seq<byte>, k: nat): (r: Option<nat>)
    requires k <= |ds|
    ensures r.Some? ==> k <= r.value < |ds| && Live(ds[r.value]) && ds[r.value][..11] == name
    decreases |ds| - k
  {
    if k == |ds| then None
    else if ds[k][0] == 0x00 then None
    else if Live(ds[k]) && ds[k][..11] == name then Some(k)
    else Find(ds, name, k + 1)
  }

  /** It finds slot r exactly if that is the first live entry with the name, before any terminator. */
  lemma {:induction false} FindIs(ds: seq<Dirent>, name: seq<byte>, k: nat, r: nat)
    requires k <= r < |ds|
    ensures Find(ds, name, k) == Some(r) <==>
              && Live(ds[r]) && ds[r][..11] == name
              && forall j :: k <= j < r ==> ds[j][0] != 0x00 && !(Live(ds[j]) && ds[j][..11] == name)
    decreases r - k
  {
    hide Live;
    if k < r {
      FindIs(ds, name, k + 1, r);
    } else {
      assert Live(ds[r]) ==> ds[r][0] != 0x00 by { LiveFirst(ds[r]); }
    }
  }

  lemma LiveFirst(e: Dirent)
    ensures Live(e) ==> e[0] != 0x00
  {}

  predicate Vacant(e: Dirent) { e[0] == 0x00 || e[0] == 0xE5 }

  /** The first slot from k on that a new entry may take. */
  function FindFree(ds: seq<Dirent>, k: nat): (r: Option<nat>)
    requires k <= |ds|
    ensures r.Some? ==> k <= r.value < |ds| && Vacant(ds[r.value])
    ensures forall j :: k <= j < (if r.Some? then r.value else |ds|) ==> !Vacant(ds[j])
    decreases |ds| - k
  {
    if k == |ds| then None
    else if Vacant(ds[k]) then Some(k)
    else FindFree(ds, k + 1)
  }

  /** Nothing is allocated behind the terminator ("FAT Directory Structure", DIR_Name[0] == 0). */
  ghost predicate TailZero(ds: seq<Dirent>) {
    forall i, j :: 0 <= i < j < |ds| && ds[i][0] == 0x00 ==> ds[j][0] == 0x00
  }

  // ---- The volume invariant and the files ----

  ghost predicate Disjoint(a: seq<nat>, b: seq<nat>) {
    forall x :: x in a ==> x !in b
  }

  /** The entry's chain is well formed, long enough for its size, and apart from the directory. */
  ghost predicate FileOk(g: Geo, v: Vol, rc: seq<nat>, e: Dirent)
    requires Fits(g, v)
  {
    && HasChain(g, v, First(e))
    && Size(e) <= SECTOR_SIZE * |Sectors(g, v, ChainOf(g, v, First(e)))|
    && Disjoint(ChainOf(g, v, First(e)), rc)
  }

  ghost predicate Apart(g: Geo, v: Vol, e: Dirent, f: Dirent)
    requires Fits(g, v) && HasChain(g, v, First(e)) && HasChain(g, v, First(f))
  {
    Disjoint(ChainOf(g, v, First(e)), ChainOf(g, v, First(f)))
  }

  ghost predicate DirOk(g: Geo, v: Vol, rc: seq<nat>, ds: seq<Dirent>)
    requires Fits(g, v)
  {
    && TailZero(ds)
    && (forall k :: 0 <= k < |ds| && Live(ds[k]) ==> FileOk(g, v, rc, ds[k]))
    && (forall j, k :: 0 <= j < |ds| && 0 <= k < |ds| && j != k && Live(ds[j]) && Live(ds[k]) ==>
         Apart(g, v, ds[j], ds[k]))
  }

  ghost predicate RootOk(g: Geo, v: Vol) {
    Fits(g, v) && HasChain(g, v, g.root)
  }

  ghost function RootChain(g: Geo, v: Vol): (rc: seq<nat>)
    requires RootOk(g, v)
    ensures IsChain(g, v, g.root, rc) && AllInRange(g, rc)
  {
    ChainOf(g, v, g.root)
  }

  ghost function Root(g: Geo, v: Vol): (ds: seq<Dirent>)
    requires RootOk(g, v)
  {
    Entries(Sectors(g, v, RootChain(g, v)))
  }

  ghost predicate Inv(g: Geo, v: Vol) {
    RootOk(g, v) && DirOk(g, v, RootChain(g, v), Root(g, v))
  }

  ghost function Content(g: Geo, v: Vol, e: Dirent): (bs: seq<byte>)
    requires Fits(g, v) && HasChain(g, v, First(e))
    requires Size(e) <= SECTOR_SIZE * |Sectors(g, v, ChainOf(g, v, First(e)))|
    ensures |bs| == Size(e)
  {
    Join(Sectors(g, v, ChainOf(g, v, First(e))))[..Size(e)]
  }

  /** What the file system holds under an 11-byte name. */
  ghost function Lookup(g: Geo, v: Vol, name: seq<byte>): Option<seq<byte>>
    requires Inv(g, v)
  {
    match Find(Root(g, v), name, 0)
    case None => None
    case Some(k) => Some(Content(g, v, Root(g, v)[k]))
  }

  ghost predicate SameFiles(g: Geo, v: Vol, w: Vol)
    requires Inv(g, v) && Inv(g, w)
  {
    forall name :: Lookup(g, w, name) == Lookup(g, v, name)
  }

  /** The old files, except that name now holds exactly data. */
  ghost predicate Replaced(g: Geo, v: Vol, w: Vol, name: seq<byte>, data: seq<byte>)
    requires Inv(g, v) && Inv(g, w)
  {
    forall n :: Lookup(g, w, n) == if n == name then Some(data) else Lookup(g, v, n)
  }

  /** A cluster that the directory or one of its files occupies. */
  ghost predicate Reach(g: Geo, v: Vol, x: nat)
    requires Inv(g, v)
  {
    x in RootChain(g, v) ||
    exists k :: 0 <= k < |Root(g, v)| && Live(Root(g, v)[k]) && x in ChainOf(g, v, First(Root(g, v)[k]))
  }

  // ---- Chains ----

  lemma {:induction false} ChainInRange(g: Geo, v: Vol, c: nat, cs: seq<nat>)
    requires Fits(g, v) && IsChain(g, v, c, cs)
    ensures AllInRange(g, cs)
    decreases |cs|
  {
    if cs != [] {
      ChainInRange(g, v, Next(v, c), cs[1..]);
      assert forall i :: 0 < i < |cs| ==> cs[i] == cs[1..][i - 1];
    }
  }

  lemma {:induction false} ChainUnique(g: Geo, v: Vol, c: nat, a: seq<nat>, b: seq<nat>)
    requires Fits(g, v) && IsChain(g, v, c, a) && IsChain(g, v, c, b)
    ensures a == b
    decreases |a|
  {
    if a != [] && b != [] {
      ChainUnique(g, v, Next(v, c), a[1..], b[1..]);
      assert a == [a[0]] + a[1..] && b == [b[0]] + b[1..];
    }
  }

  lemma {:induction false} ChainSuffix(g: Geo, v: Vol, c: nat, cs: seq<nat>, i: nat)
    requires Fits(g, v) && IsChain(g, v, c, cs) && i < |cs|
    ensures IsChain(g, v, cs[i], cs[i..])
    decreases i
  {
    if i > 0 {
      ChainSuffix(g, v, Next(v, c), cs[1..], i - 1);
      assert cs[1..][i - 1..] == cs[i..];
    }
  }

  /** A chain that ends never visits a cluster twice. */
  lemma ChainAcyclic(g: Geo, v: Vol, c: nat, cs: seq<nat>, i: nat, j: nat)
    requires Fits(g, v) && IsChain(g, v, c, cs) && i < j < |cs|
    ensures cs[i] != cs[j]
  {
    ChainSuffix(g, v, c, cs, i);
    ChainSuffix(g, v, c, cs, j);
    if cs[i] == cs[j] {
      ChainUnique(g, v, cs[i], cs[i..], cs[j..]);
    }
  }

  /** No cluster of a chain is free. */
  lemma {:induction false} ChainAllocated(g: Geo, v: Vol, c: nat, cs: seq<nat>, i: nat)
    requires Fits(g, v) && IsChain(g, v, c, cs) && i < |cs|
    ensures g.InRange(cs[i]) && Next(v, cs[i]) != 0
  {
    ChainSuffix(g, v, c, cs, i);
  }
}
