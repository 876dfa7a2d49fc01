/** The FAT32 driver over a disk of sectors: one cached FAT sector, one bounce buffer,
    and a record of every sector write, so that a power cut can be placed between any two. */
module FatDriver {
  import opened Wrappers
  import opened Bytes
  import opened FatLayout
  import opened FatFrame
  import opened FatCommit
  import opened FatSave
  import opened FatBuild
  import opened FatCrash
  import opened FatName
  import opened FatRead

  const NO_LBA: nat := 0xFFFF_FFFF

  type Disk = seq<Sector>

  ghost function ViewOf(g: Geo, d: Disk): (v: Vol)
    requires g.Ok() && |d| == g.sectors
    ensures Fits(g, v)
  {
    TableFits(g);
    Vol(d[g.fatStart..g.fatStart + g.fatSize], d[g.DataStart()..])
  }

  lemma TableFits(g: Geo)
    requires g.Ok()
    ensures g.fatStart + g.fatSize <= g.DataStart() <= g.sectors
    ensures g.DataStart() + Times(g.total, g.spc) <= g.sectors
  {
    TimesGap(0, g.numFats, g.fatSize);
  }

  /** Copy f of the table. */
  ghost function Copy(g: Geo, d: Disk, f: nat): (t: seq<Sector>)
    requires g.Ok() && |d| == g.sectors && f < g.numFats
    ensures |t| == g.fatSize
  {
    TimesGap(f, g.numFats, g.fatSize);
    d[g.fatStart + Times(f, g.fatSize)..g.fatStart + Times(f, g.fatSize) + g.fatSize]
  }

  /** All copies of the table agree. */
  ghost predicate Mirrored(g: Geo, d: Disk)
    requires g.Ok() && |d| == g.sectors
  {
    forall f :: 0 <= f < g.numFats ==> Copy(g, d, f) == ViewOf(g, d).fat
  }

  lemma SliceUpdate<T>(d: seq<T>, lo: nat, hi: nat, i: nat, x: T)
    requires lo <= hi <= |d| && i < |d|
    ensures d[i := x][lo..hi] == if lo <= i < hi then d[lo..hi][i - lo := x] else d[lo..hi]
  {}

  /** Writing sector q of copy f changes that copy alone. */
  lemma CopyWrite(g: Geo, d: Disk, f: nat, q: nat, s: Sector, h: nat)
    requires g.Ok() && |d| == g.sectors && f < g.numFats && q < g.fatSize && h < g.numFats
    ensures g.fatStart + Times(f, g.fatSize) + q < g.DataStart() <= g.sectors
    ensures Copy(g, d[g.fatStart + Times(f, g.fatSize) + q := s], h) ==
              if h == f then Copy(g, d, h)[q := s] else Copy(g, d, h)
  {
    TimesGap(f, g.numFats, g.fatSize);
    TimesGap(h, g.numFats, g.fatSize);
    TableFits(g);
    if h < f { TimesGap(h, f, g.fatSize); }
    if f < h { TimesGap(f, h, g.fatSize); }
    var lo := g.fatStart + Times(h, g.fatSize);
    SliceUpdate(d, lo, lo + g.fatSize, g.fatStart + Times(f, g.fatSize) + q, s);
  }

  /** The remount's view changes only with copy 0. */
  lemma TableWriteView(g: Geo, d: Disk, i: nat, s: Sector)
    requires g.Ok() && |d| == g.sectors && g.fatStart <= i < g.DataStart()
    ensures i < g.sectors
    ensures ViewOf(g, d[i := s]) == if i < g.fatStart + g.fatSize
            then ViewOf(g, d).(fat := ViewOf(g, d).fat[i - g.fatStart := s]) else ViewOf(g, d)
  {
    TableFits(g);
    SliceUpdate(d, g.fatStart, g.fatStart + g.fatSize, i, s);
    SliceUpdate(d, g.DataStart(), |d|, i, s);
  }

  lemma CopyPlace(g: Geo, f: nat, q: nat) returns (i: nat)
    requires g.Ok() && f < g.numFats && q < g.fatSize
    ensures i == g.fatStart + Times(f, g.fatSize) + q && g.fatStart <= i < g.DataStart() <= g.sectors
    ensures if f == 0 then i == g.fatStart + q else g.fatStart + g.fatSize <= i
  {
    TimesGap(f, g.numFats, g.fatSize);
    TableFits(g);
    if f > 0 { TimesGap(0, f, g.fatSize); }
    i := g.fatStart + Times(f, g.fatSize) + q;
  }

  /** d1 is d with sector q of the first f copies of the table written. */
  ghost predicate CopiesWritten(g: Geo, d: Disk, d1: Disk, f: nat, q: nat, s: Sector)
    requires g.Ok() && |d| == g.sectors && |d1| == g.sectors && q < g.fatSize
  {
    forall h :: 0 <= h < g.numFats ==> Copy(g, d1, h) == if h < f then Copy(g, d, h)[q := s] else Copy(g, d, h)
  }

  lemma CopyWritten(g: Geo, d: Disk, d1: Disk, f: nat, q: nat, s: Sector)
    requires g.Ok() && |d| == g.sectors && |d1| == g.sectors && q < g.fatSize && f < g.numFats
             && CopiesWritten(g, d, d1, f, q, s)
    ensures g.fatStart + Times(f, g.fatSize) + q < g.sectors
    ensures CopiesWritten(g, d, d1[g.fatStart + Times(f, g.fatSize) + q := s], f + 1, q, s)
  {
    hide Copy;
    var i := CopyPlace(g, f, q);
    forall h | 0 <= h < g.numFats
      ensures Copy(g, d1[i := s], h) == if h < f + 1 then Copy(g, d, h)[q := s] else Copy(g, d, h) {
      CopyWrite(g, d1, f, q, s, h);
    }
  }

  lemma NoneWritten(g: Geo, d: Disk, q: nat, s: Sector)
    requires g.Ok() && |d| == g.sectors && q < g.fatSize
    ensures CopiesWritten(g, d, d, 0, q, s)
  {}

  lemma AllWritten(g: Geo, d: Disk, d1: Disk, q: nat, s: Sector)
    requires g.Ok() && |d| == g.sectors && |d1| == g.sectors && q < g.fatSize
    requires CopiesWritten(g, d, d1, g.numFats, q, s) && ViewOf(g, d1) == ViewOf(g, d).(fat := ViewOf(g, d).fat[q := s])
    ensures Mirrored(g, d) ==> Mirrored(g, d1)
    ensures g.fatStart + g.fatSize <= |d1| && d1[g.fatStart + q] == s
  {
    TableFits(g);
    assert ViewOf(g, d1).fat[q] == d1[g.fatStart + q];
  }

  lemma PutIsSplice(v: Vol, c: nat, x: nat, s: Sector)
    requires c < |v.fat| * 128
             && s == Splice(v.fat[c / 128], c % 128 * 4, Le32(Merge(U32(v.fat[c / 128], c % 128 * 4), x)))
    ensures v.(fat := v.fat[c / 128 := s]) == FatPut(v, c, x)
  {}

  lemma DataWrite(g: Geo, d: Disk, i: nat, s: Sector)
    requires g.Ok() && |d| == g.sectors && i < |ViewOf(g, d).data|
    ensures var e := d[g.DataStart() + i := s];
            && |e| == g.sectors && ViewOf(g, e) == DataPut(ViewOf(g, d), i, s)
            && forall h :: 0 <= h < g.numFats ==> Copy(g, e, h) == Copy(g, d, h)
  {
    TableFits(g);
    var e := d[g.DataStart() + i := s];
    forall h | 0 <= h < g.numFats ensures Copy(g, e, h) == Copy(g, d, h) {
      TimesGap(h, g.numFats, g.fatSize);
    }
  }

  /** The first directory slot of the i-th cluster of the root directory. */
  ghost function FirstSlot(g: Geo, v: Vol, i: nat): (k: nat)
    requires RootOk(g, v) && i <= |RootChain(g, v)|
  {
    16 * |Sectors(g, v, RootChain(g, v)[..i])|
  }

  /** The slot a save of name f writes: the file's own, else the first free one. */
  ghost function SlotFor(ds: seq<Dirent>, f: seq<byte>): Option<nat> {
    if Find(ds, f, 0).Some? then Find(ds, f, 0) else FindFree(ds, 0)
  }

  /** The entry a save of name f starts from: the file's own, else a blank one. */
  ghost function EntryFor(ds: seq<Dirent>, f: seq<byte>): (e: Dirent)
    requires |f| == 11
  {
    if Find(ds, f, 0).Some? then ds[Find(ds, f, 0).value] else NewEntryOf(f)
  }

  function NewEntryOf(f: seq<byte>): (e: Dirent)
    requires |f| == 11
    ensures e[..11] == f && e[11] == ATTR_ARCHIVE
  {
    f + [ATTR_ARCHIVE] + seq(20, i => 0)
  }

  lemma EntryMayTake(ds: seq<Dirent>, f: seq<byte>, first: nat, size: nat)
    requires |f| == 11 && 0 !in f && SlotFor(ds, f).Some? && first < ENTRY && size < 0x1_0000_0000
    ensures var e := WithData(EntryFor(ds, f), first, size);
            MayTake(ds, SlotFor(ds, f).value, e) && e[..11] == f && e[0] == f[0] && e[11] % 0x10 != 0x0F
                && e[11] / 8 % 2 == 0
  {
    var e := WithData(EntryFor(ds, f), first, size);
    assert e[0] == e[..11][0] && f[0] in f;
  }

  /** A save request; with cut, power fails after that many of its sector writes. */
  datatype Request = Request(name: seq<byte>, data: seq<byte>, cut: Option<nat>)

  /** What a name holds after the requests marked done, when it held x before. */
  ghost function After(reqs: seq<Request>, done: seq<bool>, n: seq<byte>, x: Option<seq<byte>>): Option<seq<byte>>
    requires |reqs| == |done|
  {
    if reqs == [] then x
    else
      var i := |reqs| - 1;
      if done[i] && n == Formatted(reqs[i].name) then Some(reqs[i].data) else After(reqs[..i], done[..i], n, x)
  }

  lemma CutIsEither(g: Geo, v: Vol, w: Vol, f: seq<byte>, data: seq<byte>, n: seq<nat>, o: seq<nat>, undoing: bool)
    requires Inv(g, v) && CutOk(g, v, w, f, data, n, o, undoing)
    ensures Inv(g, w)
    ensures if CutBefore(g, v, w, n, undoing) then SameFiles(g, v, w) else Replaced(g, v, w, f, data)
  {}

  lemma NothingChanged(g: Geo, v: Vol)
    requires Inv(g, v)
    ensures SameFiles(g, v, v)
  {}

  /** The entry a save writes describes the chain it built. */
  lemma NewEntry(g: Geo, v: Vol, w: Vol, k: nat, f: seq<byte>, first: nat, n: seq<nat>, data: seq<byte>)
    requires Inv(g, v) && Built(g, v, w, n, data) && |n| == ClustersFor(g, |data|)
             && first == (if n == [] then 0 else n[0])
    requires |f| == 11 && 0 !in f && SlotFor(Root(g, v), f) == Some(k) && |data| < 0x1_0000_0000
    ensures k < |Root(g, v)| && first < ENTRY
    ensures Ready(g, v, w, k, WithData(EntryFor(Root(g, v), f), first, |data|), n, data)
    ensures WithData(EntryFor(Root(g, v), f), first, |data|)[..11] == f
    ensures WithData(EntryFor(Root(g, v), f), first, |data|)[0] == f[0]
    ensures Live(Root(g, v)[k]) <==> Find(Root(g, v), f, 0).Some?
  {
    hide DirOk, Building, Linked, Root, MayTake, WithData;
    BuiltNonzero(g, v, w, n, data);
    BuiltLength(g, v, w, n, data);
    ClustersEnough(g, |data|);
    EntryMayTake(Root(g, v), f, first, |data|);
  }

  lemma ReadyPlace(g: Geo, v: Vol, w: Vol, k: nat, e: Dirent, n: seq<nat>, data: seq<byte>, i: nat, sec: nat)
    requires Ready(g, v, w, k, e, n, data) && SlotPlace(g, v, k, i, sec)
    ensures RootOk(g, w) && RootChain(g, w) == RootChain(g, v) && Root(g, w) == Root(g, v) && k < |Root(g, v)|
    ensures SlotPlace(g, w, k, i, sec)
  {
    BuildingFiles(g, v, w, n, n);
    var rc := RootChain(g, v);
    forall x | x in rc[..i] ensures Cluster(g, w, x) == Cluster(g, v, x) {
      assert x in rc && Reach(g, v, x);
      ReachAllocated(g, v, x);
    }
    SectorsFrame(g, v, w, rc[..i]);
  }

  lemma ViewData(g: Geo, d: Disk)
    requires g.Ok() && |d| == g.sectors
    ensures g.DataStart() + |ViewOf(g, d).data| == |d|
  {
    TableFits(g);
  }

  /** What a remount sees right after an allocation, and after the link that follows it. */
  lemma TakeSeen(g: Geo, v: Vol, w: Vol, n: seq<nat>, c: nat)
    requires Building(g, v, w, n, n) && NoDup(n) && Linked(g, w, n) && g.InRange(c) && Next(w, c) == 0
    ensures Fits(g, v) && BuildingPrefix(g, v, FatPut(w, c, LAST), n + [c])
    ensures n == [] ==> Taken(g, v, w, FatPut(w, c, LAST), n, c)
    ensures n != [] ==>
              && n[|n| - 1] != 0 && n[|n| - 1] < g.fatSize * 128
              && Taken(g, v, w, FatPut(FatPut(w, c, LAST), n[|n| - 1], c), n, c)
              && BuildingPrefix(g, v, FatPut(FatPut(w, c, LAST), n[|n| - 1], c), n + [c])
  {
    if n == [] {
      TakeFirst(g, v, w, c);
      BuildingWhole(g, v, FatPut(w, c, LAST), [] + [c]);
    } else {
      TakeNext(g, v, w, n, c);
      BuildingWhole(g, v, FatPut(FatPut(w, c, LAST), n[|n| - 1], c), n + [c]);
    }
  }

  /** The walk over the directory's clusters stands at its i-th, or behind its last. */
  ghost predicate AtCluster(g: Geo, v: Vol, c: nat, i: nat) {
    RootOk(g, v) && i <= |RootChain(g, v)| && IsChain(g, v, c, RootChain(g, v)[i..])
  }

  lemma WalkStart(g: Geo, v: Vol)
    requires RootOk(g, v)
    ensures AtCluster(g, v, g.root, 0) && FirstSlot(g, v, 0) == 0
  {
    assert RootChain(g, v)[0..] == RootChain(g, v) && RootChain(g, v)[..0] == [];
  }

  lemma WalkStep(g: Geo, v: Vol, c: nat, i: nat)
    requires AtCluster(g, v, c, i) && 2 <= c < EOC
    ensures i < |RootChain(g, v)| && c == RootChain(g, v)[i] && c < g.fatSize * 128 && g.fatSize == |v.fat|
    ensures AtCluster(g, v, Next(v, c), i + 1)
  {
    ChainStep(g, v, c, RootChain(g, v), i);
  }

  lemma WalkEnd(g: Geo, v: Vol, c: nat, i: nat)
    requires AtCluster(g, v, c, i) && !(2 <= c < EOC)
    ensures i == |RootChain(g, v)| && FirstSlot(g, v, i) == |Root(g, v)|
  {
    assert RootChain(g, v)[i..] == [];
    assert RootChain(g, v)[..i] == RootChain(g, v);
  }

  /** The slots that the i-th cluster of the root directory holds. */
  lemma FirstSlotStep(g: Geo, v: Vol, i: nat)
    requires RootOk(g, v) && i < |RootChain(g, v)|
    ensures FirstSlot(g, v, i + 1) == FirstSlot(g, v, i) + 16 * g.spc <= |Root(g, v)|
    ensures Root(g, v)[FirstSlot(g, v, i)..FirstSlot(g, v, i + 1)] == Entries(Cluster(g, v, RootChain(g, v)[i]))
  {
    var rc := RootChain(g, v);
    SectorsPrefix(g, v, rc, i);
    assert rc[..i + 1][..i] == rc[..i];
    hide Entries, Cluster, Sectors, IsChain;
    var ss, n := Sectors(g, v, rc), |Sectors(g, v, rc[..i])|;
    EntriesSlice(ss, n, g.spc);
    SubSlice(ss, n, |ss|, 0, g.spc);
    assert ss[n..n + g.spc] == Cluster(g, v, rc[i]);
  }

  lemma ClusterOnDisk(g: Geo, d: Disk, c: nat)
    requires g.Ok() && |d| == g.sectors && g.InRange(c)
    ensures g.DataStart() + Base(g, c) + g.spc <= |d|
    ensures Cluster(g, ViewOf(g, d), c) == d[g.DataStart() + Base(g, c)..g.DataStart() + Base(g, c) + g.spc]
  {
    TableFits(g);
    BaseFits(g, ViewOf(g, d), c);
    assert ViewOf(g, d).data == d[g.DataStart()..|d|];
    SubSlice(d, g.DataStart(), |d|, Base(g, c), Base(g, c) + g.spc);
  }

  /** The i-th place of a chain, while the walk is within it. */
  lemma ChainAt(g: Geo, v: Vol, c: nat, cs: seq<nat>, i: nat)
    requires Fits(g, v) && i < |cs| && AllInRange(g, cs) && IsChain(g, v, c, cs[i..])
    ensures 2 <= c < EOC && c < g.fatSize * 128 && g.fatSize == |v.fat| && IsChain(g, v, Next(v, c), cs[i + 1..])
  {
    assert cs[i..][1..] == cs[i + 1..];
  }

  lemma ChainEnd(g: Geo, v: Vol, c: nat, cs: seq<nat>, j: nat)
    requires Fits(g, v) && j <= |cs| && AllInRange(g, cs) && IsChain(g, v, c, cs[j..]) && !(2 <= c < EOC)
    ensures j == |cs| && cs[..j] == cs && |ChainBytes(g, v, cs)| == SECTOR_SIZE * |Sectors(g, v, cs[..j])|
  {
    assert cs[j..] == [];
  }

  /** An offset within the chain's bytes: the cluster it falls in, and the bytes before it there. */
  lemma SkipPlace(g: Geo, v: Vol, cs: seq<nat>, offset: nat)
    requires Fits(g, v) && AllInRange(g, cs) && offset < |ChainBytes(g, v, cs)|
    ensures WholeClusters(g, offset) < |cs| && ClusterRest(g, offset) / SECTOR_SIZE < g.spc
    ensures SECTOR_SIZE * |Sectors(g, v, cs[..WholeClusters(g, offset)])| + ClusterRest(g, offset) == offset
  {
    hide WholeClusters, ClusterRest;
    OffsetPlace(g, offset);
    var skip := WholeClusters(g, offset);
    SectorsLength(g, v, cs);
    if |cs| <= skip { TimesMonotone(|cs|, skip, g.spc); }
    SectorsLength(g, v, cs[..skip]);
  }

  lemma LoadChain(g: Geo, v: Vol, k: nat)
    requires Inv(g, v) && k < |Root(g, v)| && Live(Root(g, v)[k])
    ensures HasChain(g, v, First(Root(g, v)[k]))
    ensures var bs := ChainBytes(g, v, ChainOf(g, v, First(Root(g, v)[k])));
            Size(Root(g, v)[k]) <= |bs| && Content(g, v, Root(g, v)[k]) == bs[..Size(Root(g, v)[k])]
  {
    assert FileOk(g, v, RootChain(g, v), Root(g, v)[k]);
  }

  lemma SectorOnDisk(g: Geo, d: Disk, cs: seq<nat>, j: nat, s: nat)
    requires g.Ok() && |d| == g.sectors && AllInRange(g, cs) && j < |cs| && s < g.spc
    ensures g.DataStart() + Base(g, cs[j]) + s < |d|
    ensures |Sectors(g, ViewOf(g, d), cs[..j])| + s < |Sectors(g, ViewOf(g, d), cs)|
    ensures d[g.DataStart() + Base(g, cs[j]) + s] ==
            Sectors(g, ViewOf(g, d), cs)[|Sectors(g, ViewOf(g, d), cs[..j])| + s]
  {
    var v := ViewOf(g, d);
    ClusterOnDisk(g, d, cs[j]);
    SectorsPrefix(g, v, cs, j);
    assert Cluster(g, v, cs[j])[s] == Sectors(g, v, cs)[|Sectors(g, v, cs[..j])|..][..g.spc][s];
  }

  lemma PrefixStep(g: Geo, v: Vol, cs: seq<nat>, j: nat)
    requires Fits(g, v) && AllInRange(g, cs) && j < |cs|
    ensures |Sectors(g, v, cs[..j + 1])| == |Sectors(g, v, cs[..j])| + g.spc
  {
    assert cs[..j + 1][..j] == cs[..j];
  }

  lemma {:induction false} EntriesSlice(ss: seq<Sector>, n: nat, m: nat)
    requires n + m <= |ss|
    ensures Entries(ss)[16 * n..16 * (n + m)] == Entries(ss[n..n + m])
    decreases m
  {
    if m > 0 {
      EntriesSlice(ss, n, m - 1);
      EntriesSector(ss, n + m - 1);
      var t := ss[n..n + m];
      assert t[..m - 1] == ss[n..n + m - 1] && t[m - 1] == ss[n + m - 1];
    }
  }

  lemma SubSlice<T>(s: seq<T>, a: nat, b: nat, c: nat, d: nat)
    requires a <= b <= |s| && c <= d <= b - a
    ensures s[a..b][c..d] == s[a + c..a + d]
  {
    var x, y := s[a..b][c..d], s[a + c..a + d];
    assert |x| == |y| && forall i :: 0 <= i < |x| ==> x[i] == s[a..b][c + i] == y[i];
  }

  lemma RunSector(d: Disk, lba0: nat, n: nat, ds: seq<Dirent>, k: nat, s: nat, at: nat)
    requires lba0 + n <= |d| && k + 16 * n <= |ds| && s < n && at == k + 16 * s
    requires ds[k..k + 16 * n] == Entries(d[lba0..lba0 + n])
    ensures at + 16 <= |ds| && ds[at..at + 16] == SectorEntries(d[lba0 + s])
  {
    EntriesSector(d[lba0..lba0 + n], s);
    SubSlice(ds, k, k + 16 * n, 16 * s, 16 * s + 16);
  }

  lemma SlotPosition(g: Geo, v: Vol, k: nat, i: nat, s: nat, e: nat)
    requires RootOk(g, v) && i < |RootChain(g, v)| && s < g.spc && e < 16 && k == FirstSlot(g, v, i)
    ensures SlotPlace(g, v, k + 16 * s + e, i, s) && (k + 16 * s + e) % 16 == e
  {}

  lemma EntryPlace(cluster: nat)
    ensures cluster * 4 / SECTOR_SIZE == cluster / 128 && cluster * 4 % SECTOR_SIZE == cluster % 128 * 4
  {}

  /** One turn of a loop that walks a chain. */
  lemma ChainStep(g: Geo, v: Vol, c: nat, cs: seq<nat>, i: nat)
    requires Fits(g, v) && i <= |cs| && AllInRange(g, cs) && IsChain(g, v, c, cs[i..]) && 2 <= c < EOC
    ensures i < |cs| && cs[i] == c && cs[..i + 1][..i] == cs[..i] && c < g.fatSize * 128 && g.fatSize == |v.fat|
    ensures IsChain(g, v, Next(v, c), cs[i + 1..])
    ensures |Sectors(g, v, cs[..i + 1])| == |Sectors(g, v, cs[..i])| + g.spc
  {
    assert cs[i..][1..] == cs[i + 1..];
    assert cs[..i + 1][..i] == cs[..i];
  }

  lemma ReleaseStep(g: Geo, v: Vol, first: nat, cs: seq<nat>, j: nat)
    requires Fits(g, v) && IsChain(g, v, first, cs) && AllInRange(g, cs) && j < |cs|
    ensures Next(Release(v, cs[..j]), cs[j]) == Next(v, cs[j])
    ensures Release(v, cs[..j + 1]) == FatPut(Release(v, cs[..j]), cs[j], 0)
  {
    if cs[j] in cs[..j] {
      var a :| 0 <= a < j && cs[..j][a] == cs[j];
      ChainAcyclic(g, v, first, cs, a, j);
    }
    ReleaseRaw(v, cs[..j], cs[j]);
    assert cs[..j + 1][..j] == cs[..j];
  }

  /** What root_dir_locate looks for from slot k on, in either mode. */
  ghost function Search(ds: seq<Dirent>, free: bool, name: seq<byte>, k: nat): Option<nat>
    requires k <= |ds|
  {
    if free then FindFree(ds, k) else Find(ds, name, k)
  }

  class Driver {
    const g: Geo
    var disk: Disk
    var fatCache: Sector
    var fatCacheLba: nat
    var sectorBuf: Sector
    var trace: seq<Disk>            // the medium after each sector write, oldest first

    /** A fresh mount of a medium with this geometry: nothing is cached. */
    constructor (g: Geo, d: Disk)
      requires g.Ok() && |d| == g.sectors
      ensures Valid() && this.g == g && disk == d && trace == [] && fatCacheLba == NO_LBA
    {
      this.g := g;
      disk := d;
      fatCacheLba := NO_LBA;
      fatCache := seq(SECTOR_SIZE, b => 0);
      sectorBuf := seq(SECTOR_SIZE, b => 0);
      trace := [];
    }

    ghost predicate Valid()
      reads this
    {
      && g.Ok() && |disk| == g.sectors
      && (fatCacheLba != NO_LBA ==>
            g.fatStart <= fatCacheLba < g.fatStart + g.fatSize <= |disk| && fatCache == disk[fatCacheLba])
    }

    ghost function View(): Vol
      reads this`disk
      requires g.Ok() && |disk| == g.sectors
    {
      ViewOf(g, disk)
    }

    /** Every medium recorded from write number k on is seen as v by a remount. */
    ghost predicate SeenAs(k: nat, v: Vol)
      reads this
      requires g.Ok()
    {
      forall i :: k <= i < |trace| ==> |trace[i]| == g.sectors && ViewOf(g, trace[i]) == v
    }

    /** Bring the table sector at lba into the cache, unless it is there already. */
    method CacheTable(lba: nat)
      requires Valid() && g.fatStart <= lba < g.fatStart + g.fatSize
      modifies this`fatCache, this`fatCacheLba
      ensures Valid() && fatCacheLba == lba && fatCache == View().fat[lba - g.fatStart]
    {
      TableFits(g);
      if lba != fatCacheLba {
        fatCache := disk[lba];
        fatCacheLba := lba;
      }
    }

    /** src/fat32.c: fat_next_cluster. */
    method FatNextCluster(cluster: nat) returns (x: nat)
      requires Valid() && cluster < g.fatSize * 128
      modifies this`fatCache, this`fatCacheLba
      ensures Valid() && x == Next(View(), cluster)
    {
      EntryPlace(cluster);
      var fatOffset := cluster * 4;
      CacheTable(g.fatStart + fatOffset / SECTOR_SIZE);
      x := U32(fatCache, fatOffset % SECTOR_SIZE) % ENTRY;
    }

    /** One turn of fat_set's loop over the copies of the table. */
    method WriteCopy(f: nat, secIdx: nat, ghost d0: Disk)
      requires g.Ok() && |disk| == g.sectors && f < g.numFats && secIdx < g.fatSize
      requires |d0| == g.sectors && CopiesWritten(g, d0, disk, f, secIdx, fatCache)
      modifies this`disk, this`trace
      ensures |disk| == g.sectors && trace == old(trace) + [disk]
      ensures ViewOf(g, disk) == if f == 0
              then ViewOf(g, old(disk)).(fat := ViewOf(g, old(disk)).fat[secIdx := fatCache]) else ViewOf(g, old(disk))
      ensures CopiesWritten(g, d0, disk, f + 1, secIdx, fatCache)
    {
      hide Copy, ViewOf, CopiesWritten;
      ghost var i := CopyPlace(g, f, secIdx);
      TableWriteView(g, disk, i, fatCache);
      CopyWritten(g, d0, disk, f, secIdx, fatCache);
      disk := disk[g.fatStart + Times(f, g.fatSize) + secIdx := fatCache];
      trace := trace + [disk];
    }

    /** src/fat32.c: fat_set. The first copy is written first, so every medium on the way is seen as the new table. */
    method FatSet(cluster: nat, value: nat)
      requires Valid() && cluster < g.fatSize * 128
      modifies this`disk, this`trace, this`fatCache, this`fatCacheLba
      ensures Valid() && View() == FatPut(old(View()), cluster, value)
      ensures old(trace) <= trace && SeenAs(|old(trace)|, View())
      ensures old(Mirrored(g, disk)) ==> Mirrored(g, disk)
    {
      hide Copy, ViewOf, Mirrored, FatPut;
      EntryPlace(cluster);
      var fatOffset := cluster * 4;
      var secIdx := fatOffset / SECTOR_SIZE;
      var entryOff := fatOffset % SECTOR_SIZE;
      ghost var v, d := View(), disk;
      CacheTable(g.fatStart + secIdx);
      var cur := Merge(U32(fatCache, entryOff), value);
      fatCache := Splice(fatCache, entryOff, Le32(cur));
      ghost var w := v.(fat := v.fat[secIdx := fatCache]);
      PutIsSplice(v, cluster, value, fatCache);
      NoneWritten(g, d, secIdx, fatCache);
      var f := 0;
      while f < g.numFats
        invariant f <= g.numFats && |disk| == g.sectors
        invariant fatCacheLba == g.fatStart + secIdx && fatCache == w.fat[secIdx]
        invariant old(trace) <= trace && SeenAs(|old(trace)|, w)
        invariant ViewOf(g, disk) == if f == 0 then v else w
        invariant CopiesWritten(g, d, disk, f, secIdx, fatCache)
      {
        WriteCopy(f, secIdx, d);
        f := f + 1;
      }
      AllWritten(g, d, disk, secIdx, fatCache);
    }

    /** src/fat32.c: fat_alloc_cluster. Takes the lowest free cluster, or reports that none is free. */
    method FatAllocCluster() returns (r: nat)
      requires Valid()
      modifies this`disk, this`trace, this`fatCache, this`fatCacheLba
      ensures Valid() && old(trace) <= trace
      ensures r == 0 ==> Free(g, old(View())) == {} && disk == old(disk) && trace == old(trace)
      ensures r != 0 ==> g.InRange(r) && Next(old(View()), r) == 0 && View() == FatPut(old(View()), r, LAST)
      ensures r != 0 ==> forall c :: 2 <= c < r ==> c !in Free(g, old(View()))
      ensures r != 0 ==> SeenAs(|old(trace)|, View())
      ensures old(Mirrored(g, disk)) ==> Mirrored(g, disk)
    {
      var c := 2;
      while c < g.total + 2
        invariant 2 <= c <= g.total + 2 && Valid()
        invariant disk == old(disk) && trace == old(trace)
        invariant forall d :: 2 <= d < c ==> d !in Free(g, old(View()))
      {
        var x := FatNextCluster(c);
        if x == 0 {
          FatSet(c, LAST);
          return c;
        }
        c := c + 1;
      }
      r := 0;
    }

    /** Every medium recorded from write number k on is v with some first part of cs released. */
    ghost predicate SeenReleasing(k: nat, v: Vol, cs: seq<nat>)
      reads this
      requires Fits(g, v) && AllInRange(g, cs)
    {
      forall i :: k <= i < |trace| ==> |trace[i]| == g.sectors && PartlyReleased(g, v, cs, ViewOf(g, trace[i]))
    }

    /** One turn of fat_free_chain's loop, at the j-th cluster of the chain. */
    method FreeOne(cluster: nat, ghost k: nat, ghost v: Vol, ghost first: nat, ghost cs: seq<nat>, ghost j: nat)
        returns (next: nat)
      requires Valid() && Fits(g, v) && AllInRange(g, cs) && IsChain(g, v, first, cs) && j < |cs| && cs[j] == cluster
      requires View() == Release(v, cs[..j]) && k <= |trace| && SeenReleasing(k, v, cs)
      modifies this`disk, this`trace, this`fatCache, this`fatCacheLba
      ensures Valid() && next == Next(v, cluster) && View() == Release(v, cs[..j + 1])
      ensures old(trace) <= trace && SeenReleasing(k, v, cs)
      ensures old(Mirrored(g, disk)) ==> Mirrored(g, disk)
    {
      ReleaseStep(g, v, first, cs, j);
      next := FatNextCluster(cluster);
      FatSet(cluster, 0);
      assert PartlyReleased(g, v, cs, Release(v, cs[..j + 1]));
    }

    /** src/fat32.c: fat_free_chain. */
    method FatFreeChain(first: nat, ghost cs: seq<nat>)
      requires Valid() && IsChain(g, View(), first, cs) && AllInRange(g, cs)
      modifies this`disk, this`trace, this`fatCache, this`fatCacheLba
      ensures Valid() && View() == Release(old(View()), cs)
      ensures old(trace) <= trace && SeenReleasing(|old(trace)|, old(View()), cs)
      ensures old(Mirrored(g, disk)) ==> Mirrored(g, disk)
    {
      var cluster: nat := first;
      ghost var j, v, k := 0, View(), |trace|;
      assert cs[..0] == [] && cs[0..] == cs;
      while 2 <= cluster < EOC
        invariant Valid() && j <= |cs| && IsChain(g, v, cluster, cs[j..])
        invariant View() == Release(v, cs[..j])
        invariant old(trace) <= trace && SeenReleasing(k, v, cs)
        invariant old(Mirrored(g, disk)) ==> Mirrored(g, disk)
        decreases |cs| - j
      {
        ChainStep(g, v, cluster, cs, j);
        cluster := FreeOne(cluster, k, v, first, cs, j);
        j := j + 1;
      }
      assert cs[..j] == cs;
    }

    /** The entry loop of root_dir_locate over the sector in the buffer. */
    method LocateInSector(free: bool, formatted: seq<byte>, ghost ds: seq<Dirent>, ghost k: nat)
      returns (stop: bool, found: bool, index: nat, de: Dirent)
      requires k + 16 <= |ds| && ds[k..k + 16] == SectorEntries(sectorBuf)
      ensures found ==> stop && index < 16 && de == ds[k + index] && Search(ds, free, formatted, k) == Some(k + index)
      ensures stop && !found ==> Search(ds, free, formatted, k) == None
      ensures !stop ==> Search(ds, free, formatted, k) == Search(ds, free, formatted, k + 16)
    {
      index := 0;
      de := sectorBuf[..32];
      while index < 16
        invariant index <= 16 && Search(ds, free, formatted, k) == Search(ds, free, formatted, k + index)
      {
        de := sectorBuf[index * 32..index * 32 + 32];
        assert de == ds[k..k + 16][index] == ds[k + index];
        if free {
          if Vacant(de) {
            return true, true, index, de;
          }
        } else {
          if de[0] == 0x00 {
            return true, false, index, de;
          }
          if Live(de) && formatted == de[..11] {
            return true, true, index, de;
          }
        }
        index := index + 1;
      }
      return false, false, index, de;
    }

    /** The sector loop of root_dir_locate over the cluster at lba0, which holds slots k and following. */
    method LocateInCluster(free: bool, formatted: seq<byte>, lba0: nat, ghost ds: seq<Dirent>, ghost k: nat)
      returns (stop: bool, found: bool, s: nat, index: nat, de: Dirent)
      requires lba0 + g.spc <= |disk| && k + 16 * g.spc <= |ds|
      requires ds[k..k + 16 * g.spc] == Entries(disk[lba0..lba0 + g.spc])
      modifies this`sectorBuf
      ensures found ==> stop && s < g.spc && index < 16 && de == ds[k + 16 * s + index]
      ensures found ==> Search(ds, free, formatted, k) == Some(k + 16 * s + index)
      ensures stop && !found ==> Search(ds, free, formatted, k) == None
      ensures !stop ==> Search(ds, free, formatted, k) == Search(ds, free, formatted, k + 16 * g.spc)
    {
      ghost var at := k;
      s, index, de := 0, 0, seq(32, b => 0);
      while s < g.spc
        invariant s <= g.spc && at == k + 16 * s && Search(ds, free, formatted, k) == Search(ds, free, formatted, at)
      {
        RunSector(disk, lba0, g.spc, ds, k, s, at);
        sectorBuf := disk[lba0 + s];
        stop, found, index, de := LocateInSector(free, formatted, ds, at);
        if stop {
          return;
        }
        s, at := s + 1, at + 16;
      }
      stop, found := false, false;
    }

    /** The body of root_dir_locate's cluster loop, at the i-th cluster of the directory. */
    method VisitCluster(free: bool, formatted: seq<byte>, cluster: nat, ghost i: nat)
      returns (stop: bool, found: bool, lba: nat, index: nat, de: Dirent, ghost k: nat, ghost sec: nat)
      requires Valid() && RootOk(g, View()) && i < |RootChain(g, View())| && cluster == RootChain(g, View())[i]
      modifies this`sectorBuf
      ensures Valid()
      ensures FirstSlot(g, View(), i) <= FirstSlot(g, View(), i + 1) <= |Root(g, View())|
      ensures found ==> stop && k < |Root(g, View())| && de == Root(g, View())[k] && index == k % 16
      ensures found ==> SlotPlace(g, View(), k, i, sec) && lba == g.DataStart() + Base(g, cluster) + sec
      ensures found ==> Search(Root(g, View()), free, formatted, FirstSlot(g, View(), i)) == Some(k)
      ensures stop && !found ==> Search(Root(g, View()), free, formatted, FirstSlot(g, View(), i)) == None
      ensures !stop ==>
                Search(Root(g, View()), free, formatted, FirstSlot(g, View(), i)) ==
                    Search(Root(g, View()), free, formatted, FirstSlot(g, View(), i + 1))
    {
      hide Root, RootChain, RootOk, FirstSlot, SlotPlace, Entries, Cluster, ViewOf;
      ghost var v := View();
      FirstSlotStep(g, v, i);
      ClusterOnDisk(g, disk, cluster);
      var lba0 := g.DataStart() + Base(g, cluster);
      ghost var first := FirstSlot(g, v, i);
      var s, e;
      stop, found, s, e, de := LocateInCluster(free, formatted, lba0, Root(g, v), first);
      lba, index, k, sec := lba0 + s, e, first + 16 * s + e, s;
      if found {
        SlotPosition(g, v, first, i, s, e);
      }
    }

    /** src/fat32.c: root_dir_locate. Mode 1 (free) looks for a free slot, mode 0 for a name. */
    method RootDirLocate(free: bool, name: seq<byte>)
      returns (found: bool, lba: nat, index: nat, de: Dirent, ghost k: nat, ghost i: nat, ghost sec: nat)
      requires Valid() && RootOk(g, View())
      modifies this`fatCache, this`fatCacheLba, this`sectorBuf
      ensures Valid()
      ensures found <==> Search(Root(g, View()), free, Formatted(name), 0).Some?
      ensures found ==> k < |Root(g, View())| && Search(Root(g, View()), free, Formatted(name), 0) == Some(k)
      ensures found ==> de == Root(g, View())[k] && index == k % 16 && SlotPlace(g, View(), k, i, sec)
      ensures found ==> lba == g.DataStart() + Base(g, RootChain(g, View())[i]) + sec
    {
      hide FirstSlot, AtCluster, Root, RootChain, RootOk, SlotPlace;
      var formatted := new byte[11];
      Format83(name, formatted);
      ghost var v := View();
      var cluster: nat := g.root;
      i := 0;
      WalkStart(g, v);
      while 2 <= cluster < EOC
        invariant Valid() && AtCluster(g, v, cluster, i) && i <= |RootChain(g, v)| && formatted[..] == Formatted(name)
        invariant FirstSlot(g, v, i) <= |Root(g, v)|
        invariant Search(Root(g, v), free, Formatted(name), FirstSlot(g, v, i)) ==
                  Search(Root(g, v), free, Formatted(name), 0)
        decreases |RootChain(g, v)| - i
      {
        WalkStep(g, v, cluster, i);
        var stop;
        stop, found, lba, index, de, k, sec := VisitCluster(free, formatted[..], cluster, i);
        if stop {
          return;
        }
        cluster := FatNextCluster(cluster);
        i := i + 1;
      }
      WalkEnd(g, v, cluster, i);
      found, lba, index, de, k, sec := false, 0, 0, seq(32, b => 0), 0, 0;
    }

    /** src/fat32.c: dirent_writeback. One sector write; this is the commit point. */
    method DirentWriteback(lba: nat, index: nat, de: Dirent, ghost k: nat, ghost i: nat, ghost sec: nat)
      requires Valid() && RootOk(g, View()) && k < |Root(g, View())| && SlotPlace(g, View(), k, i, sec)
      requires lba == g.DataStart() + Base(g, RootChain(g, View())[i]) + sec && index == k % 16
      modifies this`disk, this`trace, this`sectorBuf
      ensures Valid() && Committed(g, old(View()), View(), k, de) && View().fat == old(View()).fat
      ensures trace == old(trace) + [disk]
      ensures old(Mirrored(g, disk)) ==> Mirrored(g, disk)
    {
      hide Root, RootChain, Committed, RootOk, Base;
      ghost var v := View();
      SlotSector(g, v, k, i, sec);
      TableFits(g);
      ghost var at := Base(g, RootChain(g, v)[i]) + sec;
      sectorBuf := disk[lba];
      assert sectorBuf == v.data[at];
      sectorBuf := Splice(sectorBuf, index * 32, de);
      DataWrite(g, disk, at, sectorBuf);
      CommitDir(g, v, k, i, sec, de);
      disk := disk[lba := sectorBuf];
      trace := trace + [disk];
    }

    /** Every medium recorded from write number k on differs from v in the contents of cluster c alone. */
    ghost predicate SeenFilling(k: nat, v: Vol, c: nat)
      reads this
      requires g.Ok()
    {
      forall i :: k <= i < |trace| ==> |trace[i]| == g.sectors && OnlyCluster(g, v, ViewOf(g, trace[i]), c)
    }

    /** Every medium recorded from write number k on is v with a first part of n in use. */
    ghost predicate SeenBuilding(k: nat, v: Vol, n: seq<nat>)
      reads this
      requires g.Ok()
    {
      forall i :: k <= i < |trace| ==> |trace[i]| == g.sectors && BuildingPrefix(g, v, ViewOf(g, trace[i]), n)
    }

    /** ... with a first or a last part of n in use. */
    ghost predicate SeenUndoing(k: nat, v: Vol, n: seq<nat>)
      reads this
      requires g.Ok()
    {
      forall i :: k <= i < |trace| ==>
        |trace[i]| == g.sectors
            && (BuildingPrefix(g, v, ViewOf(g, trace[i]), n) || UndoingSuffix(g, v, ViewOf(g, trace[i]), n))
    }

    /** Fill the bounce buffer with the piece of data at off, zero-padded. */
    method FillBuffer(data: seq<byte>, off: nat)
      requires off % SECTOR_SIZE == 0
      modifies this`sectorBuf
      ensures sectorBuf == Block(data, off / SECTOR_SIZE)
    {
      sectorBuf := seq(SECTOR_SIZE, b => 0);
      if off < |data| {
        var n := if |data| - off > SECTOR_SIZE then SECTOR_SIZE else |data| - off;
        sectorBuf := Splice(sectorBuf, 0, data[off..off + n]);
      }
      assert sectorBuf == Block(data, off / SECTOR_SIZE);
    }

    /** One turn of the sector loop of fat32_save_impl: the piece of data at off goes to sector sec of cluster c. */
    method WriteBlock(c: nat, sec: nat, data: seq<byte>, off: nat)
      requires Valid() && g.InRange(c) && sec < g.spc && off % SECTOR_SIZE == 0
      modifies this`disk, this`trace, this`sectorBuf
      ensures Valid() && trace == old(trace) + [disk]
      ensures Base(g, c) + sec < |old(View()).data|
      ensures View() == DataPut(old(View()), Base(g, c) + sec, Block(data, off / SECTOR_SIZE))
      ensures old(Mirrored(g, disk)) ==> Mirrored(g, disk)
    {
      hide Block, ViewOf, Base, Cluster;
      FillBuffer(data, off);
      TableFits(g);
      BaseFits(g, View(), c);
      ViewData(g, disk);
      DataWrite(g, disk, Base(g, c) + sec, sectorBuf);
      var lba := g.DataStart() + Base(g, c) + sec;
      disk := disk[lba := sectorBuf];
      trace := trace + [disk];
    }

    /** The sector loop of fat32_save_impl: cluster c takes the data from base on. */
    method WriteCluster(c: nat, data: seq<byte>, base: nat)
      requires Valid() && g.InRange(c) && base % SECTOR_SIZE == 0
      modifies this`disk, this`trace, this`sectorBuf
      ensures Valid() && old(trace) <= trace && SeenFilling(|old(trace)|, old(View()), c)
      ensures OnlyCluster(g, old(View()), View(), c)
      ensures forall s :: 0 <= s < g.spc ==> Cluster(g, View(), c)[s] == Block(data, base / SECTOR_SIZE + s)
      ensures old(Mirrored(g, disk)) ==> Mirrored(g, disk)
    {
      hide Block, ViewOf, Base, Cluster, OnlyCluster, Mirrored;
      ghost var v, k := View(), |trace|;
      OnlySelf(g, v, c);
      var sec := 0;
      while sec < g.spc
        invariant sec <= g.spc && Valid() && old(trace) <= trace && SeenFilling(k, v, c)
        invariant OnlyCluster(g, v, View(), c)
        invariant forall s :: 0 <= s < sec ==> Cluster(g, View(), c)[s] == Block(data, base / SECTOR_SIZE + s)
        invariant old(Mirrored(g, disk)) ==> Mirrored(g, disk)
      {
        var off := base + sec * SECTOR_SIZE;
        assert off % SECTOR_SIZE == 0 && off / SECTOR_SIZE == base / SECTOR_SIZE + sec;
        PutSector(g, v, View(), c, sec, Block(data, off / SECTOR_SIZE));
        WriteBlock(c, sec, data, off);
        sec := sec + 1;
      }
    }

    /** Allocate a cluster and link it to the one before: the start of a turn of the cluster loop. */
    method TakeCluster(prev: nat, ghost k: nat, ghost v: Vol, ghost n: seq<nat>) returns (c: nat)
      requires Valid() && Building(g, v, View(), n, n) && NoDup(n) && Linked(g, View(), n)
      requires prev == (if n == [] then 0 else n[|n| - 1]) && k <= |trace| && SeenBuilding(k, v, n)
      modifies this`disk, this`trace, this`fatCache, this`fatCacheLba
      ensures Valid() && old(trace) <= trace
      ensures c == 0 ==> Free(g, View()) == {} && View() == old(View()) && SeenBuilding(k, v, n)
      ensures c != 0 ==> Taken(g, v, old(View()), View(), n, c) && SeenBuilding(k, v, n + [c])
      ensures old(Mirrored(g, disk)) ==> Mirrored(g, disk)
    {
      hide Building, Linked, Taken, FatPut, ViewOf, Mirrored, Free;
      ghost var w := View();
      c := FatAllocCluster();
      if c == 0 {
        return;
      }
      FreeInBoth(g, v, w, n, c);
      TakeSeen(g, v, w, n, c);
      if prev != 0 {
        FatSet(prev, c);
      }
      forall i | k <= i < |trace| ensures BuildingPrefix(g, v, ViewOf(g, trace[i]), n + [c]) {
        if i < |old(trace)| {
          PrefixGrows(g, v, ViewOf(g, trace[i]), n, c);
        }
      }
    }

    /** One turn of the cluster loop of fat32_save_impl: allocate, link, fill. c is 0 when the volume is full. */
    method BuildTurn(prev: nat, data: seq<byte>, base: nat, ghost k: nat, ghost v: Vol, ghost n: seq<nat>)
        returns (c: nat)
      requires Valid() && Built(g, v, View(), n, data) && prev == (if n == [] then 0 else n[|n| - 1])
      requires base == SECTOR_SIZE * |Sectors(g, View(), n)|
      requires k <= |trace| && SeenBuilding(k, v, n)
      modifies this`disk, this`trace, this`fatCache, this`fatCacheLba, this`sectorBuf
      ensures Valid() && old(trace) <= trace
      ensures c == 0 ==> Free(g, View()) == {} && View() == old(View()) && SeenBuilding(k, v, n)
      ensures c != 0 ==> Built(g, v, View(), n + [c], data) && SeenBuilding(k, v, n + [c])
      ensures old(Mirrored(g, disk)) ==> Mirrored(g, disk)
    {
      hide Building, Linked, OnlyCluster, Cluster, Block, Blocks, Free, FatPut, ViewOf, BuildingPrefix, Mirrored,
           Sectors;
      ghost var w := View();
      c := TakeCluster(prev, k, v, n);
      if c == 0 {
        return;
      }
      ghost var u, t := View(), |trace|;
      WriteCluster(c, data, base);
      TurnDone(g, v, w, u, View(), n, c, data);
      forall i | t <= i < |trace| ensures BuildingPrefix(g, v, ViewOf(g, trace[i]), n + [c]) {
        TakenPrefix(g, v, w, u, n, c, ViewOf(g, trace[i]));
      }
    }

    /** The cluster loop of fat32_save_impl. When the volume fills up, what was taken is given back. */
    method BuildChain(data: seq<byte>, clusters: nat) returns (ok: bool, first: nat, ghost n: seq<nat>)
      requires Valid() && Inv(g, View())
      modifies this`disk, this`trace, this`fatCache, this`fatCacheLba, this`sectorBuf
      ensures Valid() && old(trace) <= trace
      ensures if ok then SeenBuilding(|old(trace)|, old(View()), n) else SeenUndoing(|old(trace)|, old(View()), n)
      ensures ok <==> clusters <= |Free(g, old(View()))|
      ensures ok ==> Built(g, old(View()), View(), n, data) && |n| == clusters && first == (if n == [] then 0 else n[0])
      ensures !ok ==> View().fat == old(View()).fat && Inv(g, View()) && SameFiles(g, old(View()), View())
      ensures !ok ==> Root(g, View()) == Root(g, old(View())) && Lost(g, View()) == Lost(g, old(View()))
      ensures old(Mirrored(g, disk)) ==> Mirrored(g, disk)
    {
      hide Inv, Built, BuildingPrefix, UndoingSuffix, ViewOf, Free, Lost, SameFiles, Root;
      ghost var v, k := View(), |trace|;
      n, first := [], 0;
      var prev := 0;
      BuiltNothing(g, v, data);
      var i := 0;
      while i < clusters
        invariant i == |n| <= clusters && Valid() && Built(g, v, View(), n, data)
        invariant first == (if n == [] then 0 else n[0]) && prev == (if n == [] then 0 else n[|n| - 1])
        invariant old(trace) <= trace && SeenBuilding(k, v, n)
        invariant old(Mirrored(g, disk)) ==> Mirrored(g, disk)
      {
        var base := Times(i, g.spc) * SECTOR_SIZE;
        BuiltLength(g, v, View(), n, data);
        var c := BuildTurn(prev, data, base, k, v, n);
        if c == 0 {
          BuiltCount(g, v, View(), n, data);
          UndoChain(first, k, v, n, data);
          ok := false;
          return;
        }
        if prev == 0 {
          first := c;
        }
        prev := c;
        n := n + [c];
        i := i + 1;
        BuiltNonzero(g, v, View(), n, data);
      }
      BuiltCount(g, v, View(), n, data);
      ok := true;
    }

    /** "volume full": release the part of the new chain that was built. */
    method UndoChain(first: nat, ghost k: nat, ghost v: Vol, ghost n: seq<nat>, ghost data: seq<byte>)
      requires Valid() && Inv(g, v) && Built(g, v, View(), n, data) && first == (if n == [] then 0 else n[0])
      requires k <= |trace| && SeenBuilding(k, v, n)
      modifies this`disk, this`trace, this`fatCache, this`fatCacheLba
      ensures Valid() && old(trace) <= trace && SeenUndoing(k, v, n)
      ensures forall i :: |old(trace)| <= i < |trace| ==> UndoingSuffix(g, v, ViewOf(g, trace[i]), n)
      ensures View().fat == v.fat && Inv(g, View()) && SameFiles(g, v, View()) && Root(g, View()) == Root(g, v)
      ensures Lost(g, View()) == Lost(g, v)
      ensures old(Mirrored(g, disk)) ==> Mirrored(g, disk)
    {
      hide Inv, Building, BuildingPrefix, UndoingSuffix, ViewOf, Lost, SameFiles, Root, Linked, Mirrored, Blocks,
           Sectors;
      ghost var w := View();
      BuiltIsFresh(g, v, w, n, data);
      if first != 0 {
        FatFreeChain(first, n);
      }
      UndoneIsSame(g, v, w, n, View());
      forall i | |old(trace)| <= i < |trace| ensures UndoingSuffix(g, v, ViewOf(g, trace[i]), n) {
        var j :| 0 <= j <= |n| && ViewOf(g, trace[i]) == Release(w, n[..j]);
        UndoingRest(g, v, w, n, j);
      }
    }

    /** Every medium recorded from write number k on passes for a cut of this save. */
    ghost predicate SeenCut(k: nat, v: Vol, name: seq<byte>, data: seq<byte>, n: seq<nat>, o: seq<nat>, undoing: bool)
      reads this
      requires g.Ok() && Inv(g, v)
    {
      forall i :: k <= i < |trace| ==>
          |trace[i]| == g.sectors && CutOk(g, v, ViewOf(g, trace[i]), name, data, n, o, undoing)
    }

    /** The end of fat32_save_impl: commit the entry, then release the chain it no longer names. */
    method CommitEntry(lba: nat, index: nat, de: Dirent, oldFirst: nat, data: seq<byte>,
                       ghost p: nat, ghost v: Vol, ghost n: seq<nat>, ghost k: nat, ghost i: nat, ghost sec: nat)
      requires Valid() && Ready(g, v, View(), k, de, n, data) && SlotPlace(g, v, k, i, sec)
      requires lba == g.DataStart() + Base(g, RootChain(g, v)[i]) + sec && index == k % 16
      requires oldFirst == if Live(Root(g, v)[k]) then First(Root(g, v)[k]) else 0
      requires p <= |trace| && SeenCut(p, v, de[..11], data, n, OldChain(g, v, k), false)
      modifies this`disk, this`trace, this`fatCache, this`fatCacheLba, this`sectorBuf
      ensures Valid() && old(trace) <= trace && SeenCut(p, v, de[..11], data, n, OldChain(g, v, k), false)
      ensures Inv(g, View()) && Allocated(g, View()) == Allocated(g, v) + SetOf(n) - SetOf(OldChain(g, v, k))
      ensures if de[0] != 0xE5 then Replaced(g, v, View(), de[..11], data) && Lost(g, View()) == Lost(g, v)
              else SameFiles(g, v, View()) && Lost(g, View()) == Lost(g, v) + SetOf(n)
      ensures old(Mirrored(g, disk)) ==> Mirrored(g, disk)
    {
      hide DirOk, Built, MayTake, ViewOf, Lost, SameFiles, Replaced, Root, Committed, CutOk, Allocated, SlotPlace,
           Mirrored, OldChain, Base, RootChain;
      ghost var w := View();
      ghost var o := OldChain(g, v, k);
      ReadyPlace(g, v, w, k, de, n, data, i, sec);
      DirentWriteback(lba, index, de, k, i, sec);
      ghost var u, t := View(), |trace|;
      CommitCuts(g, v, w, u, k, de, n, data);
      CommitEnds(g, v, w, u, k, de, n, data);
      if oldFirst >= 2 {
        FatFreeChain(oldFirst, o);
        forall j | t <= j < |trace| ensures CutOk(g, v, ViewOf(g, trace[j]), de[..11], data, n, o, false) {
          assert PartlyReleased(g, u, o, ViewOf(g, trace[j]));
        }
      }
    }

    /** src/fat32.c: fat32_save_impl. Whatever prefix of its writes reaches the medium, a remount shows the old
        files or the new ones, and only a first part of the new chain or a last part of the old one is lost; in a save
        that fails, a first or a last part of the new one. It succeeds exactly when a directory slot and enough free
        clusters are there. */
    method Save(name: seq<byte>, data: seq<byte>) returns (r: int, ghost n: seq<nat>, ghost o: seq<nat>)
      requires Valid() && Inv(g, View()) && 0 !in name
      requires |data| + g.spc * SECTOR_SIZE <= 0x1_0000_0000
      modifies this
      ensures Valid() && Inv(g, View())
      ensures old(trace) <= trace && SeenCut(|old(trace)|, old(View()), Formatted(name), data, n, o, r != 0)
      ensures r == 0 || r == -1
      ensures r == 0 <==>
                && SlotFor(Root(g, old(View())), Formatted(name)).Some?
                && |data| <= SECTOR_SIZE * Times(|Free(g, old(View()))|, g.spc)
      ensures r == 0 ==> |data| <= SECTOR_SIZE * Times(|n|, g.spc) < |data| + SECTOR_SIZE * g.spc
      ensures r == 0 ==>
                |n| == ClustersFor(g, |data|) && Allocated(g, View()) == Allocated(g, old(View())) + SetOf(n) - SetOf(o)
      ensures r == 0 ==> o == OldChain(g, old(View()), SlotFor(Root(g, old(View())), Formatted(name)).value)
      ensures r == 0 ==> if Formatted(name)[0] != 0xE5
                         then Replaced(g, old(View()), View(), Formatted(name), data)
                             && Lost(g, View()) == Lost(g, old(View()))
                         else SameFiles(g, old(View()), View()) && Lost(g, View()) == Lost(g, old(View())) + SetOf(n)
      ensures r != 0 ==> View().fat == old(View()).fat && Root(g, View()) == Root(g, old(View()))
      ensures r != 0 ==> SameFiles(g, old(View()), View()) && Lost(g, View()) == Lost(g, old(View()))
      ensures old(Mirrored(g, disk)) ==> Mirrored(g, disk)
    {
      hide DirOk, ViewOf, Lost, SameFiles, Replaced, Root, CutOk, Allocated, SlotPlace, Mirrored, OldChain, Base,
           RootChain, Free, Built, BuildingPrefix, UndoingSuffix, Ready, WithData, SetOf, ClustersFor;
      ghost var v, p, f := View(), |trace|, Formatted(name);
      ghost var ds := Root(g, v);
      n, o := [], [];
      var oldFirst := 0;
      var found, lba, index, de;
      ghost var k, i, sec;
      found, lba, index, de, k, i, sec := RootDirLocate(false, name);
      if found {
        oldFirst := First(de);
      } else {
        found, lba, index, de, k, i, sec := RootDirLocate(true, name);
        if !found {
          NothingChanged(g, v);
          return -1, n, o;
        }
        var formatted := new byte[11];
        Format83(name, formatted);
        de := NewEntryOf(formatted[..]);
      }
      var ok, first;
      ClustersLeast(g, |data|, |Free(g, v)|);
      ClustersEnough(g, |data|);
      ok, first, n := BuildChain(data, ClustersFor(g, |data|));
      o := OldChain(g, v, k);
      forall j | p <= j < |trace| ensures CutOk(g, v, ViewOf(g, trace[j]), f, data, n, o, !ok) {
        PartsAreCuts(g, v, ViewOf(g, trace[j]), n, f, data, o, !ok);
      }
      if !ok {
        return -1, n, o;
      }
      NewEntry(g, v, View(), k, f, first, n, data);
      de := WithData(de, first, |data|);
      CommitEntry(lba, index, de, oldFirst, data, p, v, n, k, i, sec);
      r := 0;
    }

    /** The inner loop of fat32_read_impl over the j-th cluster of the chain cs. */
    method ReadCluster(cluster: nat, clusterOff: nat, size: nat, have: seq<byte>, ghost cs: seq<nat>, ghost j: nat,
                       ghost offset: nat)
      returns (buf: seq<byte>)
      requires Valid() && AllInRange(g, cs) && j < |cs| && cs[j] == cluster && |have| < size
      requires offset + |have| <= |ChainBytes(g, View(), cs)|
               && have == ChainBytes(g, View(), cs)[offset..offset + |have|]
      requires clusterOff / SECTOR_SIZE < g.spc
      requires SECTOR_SIZE * |Sectors(g, View(), cs[..j])| + clusterOff == offset + |have|
      requires have != [] ==> clusterOff == 0
      modifies this`sectorBuf
      ensures Valid() && |have| < |buf| <= size
      ensures offset + |buf| <= |ChainBytes(g, View(), cs)| && buf == ChainBytes(g, View(), cs)[offset..offset + |buf|]
      ensures |buf| < size ==> SECTOR_SIZE * |Sectors(g, View(), cs[..j + 1])| == offset + |buf|
    {
      hide Cluster, Base, ViewOf, Join, Sectors, ChainBytes;
      ghost var v, q := View(), |Sectors(g, View(), cs[..j])|;
      PrefixStep(g, v, cs, j);
      buf := have;
      var s := clusterOff / SECTOR_SIZE;
      while s < g.spc && |buf| < size
        invariant clusterOff / SECTOR_SIZE <= s <= g.spc && Valid() && |have| <= |buf| <= size
        invariant |buf| == |have| ==> s == clusterOff / SECTOR_SIZE
        invariant offset + |buf| <= |ChainBytes(g, v, cs)| && buf == ChainBytes(g, v, cs)[offset..offset + |buf|]
        invariant |buf| < size ==>
                    if |buf| == |have| then SECTOR_SIZE * q + clusterOff == offset + |buf|
                      else SECTOR_SIZE * (q + s) == offset + |buf|
      {
        var secOff := if buf == [] then clusterOff % SECTOR_SIZE else 0;
        var avail := SECTOR_SIZE - secOff;
        var want := size - |buf|;
        var n := if want < avail then want else avail;
        var piece := ReadPiece(cluster, s, secOff, n, cs, j);
        assert SECTOR_SIZE * (q + s) + secOff == offset + |buf|;
        buf := buf + piece;
        s := s + 1;
      }
    }

    /** Read sector s of the j-th cluster of cs, and copy n bytes of it. */
    method ReadPiece(cluster: nat, s: nat, secOff: nat, n: nat, ghost cs: seq<nat>, ghost j: nat)
        returns (piece: seq<byte>)
      requires Valid() && AllInRange(g, cs) && j < |cs| && cs[j] == cluster && s < g.spc && secOff + n <= SECTOR_SIZE
      modifies this`sectorBuf
      ensures Valid() && |piece| == n
      ensures var at := SECTOR_SIZE * (|Sectors(g, View(), cs[..j])| + s) + secOff;
              at + n <= |ChainBytes(g, View(), cs)| && piece == ChainBytes(g, View(), cs)[at..at + n]
    {
      hide Cluster, Base, ViewOf, Join, Sectors;
      ghost var v := View();
      SectorOnDisk(g, disk, cs, j, s);
      sectorBuf := disk[g.DataStart() + Base(g, cluster) + s];
      JoinPiece(Sectors(g, v, cs), |Sectors(g, v, cs[..j])| + s, secOff, n);
      piece := sectorBuf[secOff..secOff + n];
    }

    /** The loop of fat32_read_impl that skips the clusters before the offset. */
    method SkipClusters(first: nat, skip: nat, ghost cs: seq<nat>) returns (cluster: nat)
      requires Valid() && AllInRange(g, cs) && IsChain(g, View(), first, cs) && skip < |cs|
      modifies this`fatCache, this`fatCacheLba
      ensures Valid() && IsChain(g, View(), cluster, cs[skip..])
    {
      hide ViewOf;
      ghost var v := View();
      cluster := first;
      assert cs[0..] == cs;
      ChainAt(g, v, cluster, cs, 0);
      var i := 0;
      while i < skip && cluster < EOC
        invariant i <= skip && Valid() && IsChain(g, v, cluster, cs[i..]) && cluster < EOC
      {
        ChainAt(g, v, cluster, cs, i);
        cluster := FatNextCluster(cluster);
        i := i + 1;
        ChainAt(g, v, cluster, cs, i);
      }
    }

    /** The loop of fat32_read_impl that copies n bytes out, from the cluster at place j of the chain on. */
    method CopyOut(start: nat, rest: nat, n: nat, offset: nat, ghost cs: seq<nat>, ghost skip: nat)
        returns (buf: seq<byte>)
      requires Valid() && AllInRange(g, cs) && skip <= |cs| && IsChain(g, View(), start, cs[skip..])
      requires rest / SECTOR_SIZE < g.spc
               && SECTOR_SIZE * |Sectors(g, View(), cs[..skip])| + rest == offset <= |ChainBytes(g, View(), cs)|
      modifies this`fatCache, this`fatCacheLba, this`sectorBuf
      ensures Valid() && buf == Slice(ChainBytes(g, View(), cs), offset, offset + n)
    {
      hide Cluster, Base, ViewOf, Sectors, Join, ChainBytes, IsChain, Fits;
      ghost var v := View();
      ghost var bs := ChainBytes(g, v, cs);
      var cluster: nat, clusterOff: nat := start, rest;
      ghost var j := skip;
      buf := [];
      while |buf| < n && 2 <= cluster < EOC
        invariant Valid() && j <= |cs| && IsChain(g, v, cluster, cs[j..]) && |buf| <= n && offset + |buf| <= |bs|
        invariant clusterOff / SECTOR_SIZE < g.spc && (buf != [] ==> clusterOff == 0)
        invariant buf == bs[offset..offset + |buf|]
        invariant |buf| < n ==> SECTOR_SIZE * |Sectors(g, v, cs[..j])| + clusterOff == offset + |buf|
        decreases |cs| - j
      {
        ChainStep(g, v, cluster, cs, j);
        buf := ReadCluster(cluster, clusterOff, n, buf, cs, j, offset);
        clusterOff := 0;
        cluster := FatNextCluster(cluster);
        j := j + 1;
      }
      if |buf| < n {
        ChainEnd(g, v, cluster, cs, j);
      }
    }

    /** src/fat32.c: fat32_read_impl, for the node whose chain is cs. The clamp's sum wraps at 2^32, as in the
        source. */
    method ReadImpl(first: nat, length: nat, offset: nat, size: nat, ghost cs: seq<nat>) returns (buf: seq<byte>)
      requires Valid() && IsChain(g, View(), first, cs) && AllInRange(g, cs) && length <= |ChainBytes(g, View(), cs)|
      requires length < WORD && offset < WORD && size < WORD
      modifies this`fatCache, this`fatCacheLba, this`sectorBuf
      ensures Valid() && buf == Returned(ChainBytes(g, View(), cs), length, offset, size)
    {
      hide ViewOf, Sectors, ChainBytes, WholeClusters, ClusterRest, Slice;
      if offset >= length {
        return [];
      }
      var n := if (offset + size) % WORD > length then length - offset else size;
      SkipPlace(g, View(), cs, offset);
      var cluster := SkipClusters(first, WholeClusters(g, offset), cs);
      buf := CopyOut(cluster, ClusterRest(g, offset), n, offset, cs, WholeClusters(g, offset));
    }

    /** src/fat32.c: fat32_load_impl. None is the source's -1. */
    method Load(name: seq<byte>, maxlen: nat) returns (r: Option<seq<byte>>)
      requires Valid() && Inv(g, View()) && maxlen < WORD
      modifies this`fatCache, this`fatCacheLba, this`sectorBuf
      ensures Valid()
      ensures match Lookup(g, View(), Formatted(name))
              case None => r == None
              case Some(data) => r == Some(data[..Min(|data|, maxlen)])
    {
      hide Cluster, Base, ViewOf, Sectors, Join, RootChain, Root, SlotPlace, Returned, ChainBytes, DirOk, Content,
           ChainOf;
      ghost var v := View();
      var found, lba, index, de;
      ghost var k, i, sec;
      found, lba, index, de, k, i, sec := RootDirLocate(false, name);
      if !found {
        return None;
      }
      LoadChain(g, v, k);
      var size := if Size(de) > maxlen then maxlen else Size(de);
      var buf := ReadImpl(First(de), Size(de), 0, size, ChainOf(g, v, First(de)));
      ReadFromStart(ChainBytes(g, v, ChainOf(g, v, First(de))), Size(de), size);
      return Some(buf);
    }

    /** Power fails with only the medium d surviving, and the volume is mounted again. */
    method Remount(d: Disk)
      requires g.Ok() && |d| == g.sectors
      modifies this
      ensures Valid() && disk == d && trace == []
    {
      disk := d;
      fatCacheLba := NO_LBA;
      trace := [];
    }

    /** A run of saves, some of them cut short by a power failure after so many sector writes. Each request is
        applied whole or not at all, and one that returned 0 without a cut has been applied. */
    method Session(reqs: seq<Request>) returns (rs: seq<int>, ghost done: seq<bool>)
      requires Valid() && Inv(g, View())
      requires forall q :: q in reqs ==> 0 !in q.name && |q.data| + g.spc * SECTOR_SIZE <= 0x1_0000_0000
      modifies this
      ensures Valid() && Inv(g, View()) && |rs| == |done| == |reqs|
      ensures forall n :: Lookup(g, View(), n) == After(reqs, done, n, Lookup(g, old(View()), n))
      ensures forall j :: 0 <= j < |reqs| && reqs[j].cut == None && Formatted(reqs[j].name)[0] != 0xE5 ==>
                (done[j] <==> rs[j] == 0)
      ensures old(Mirrored(g, disk)) && (forall q :: q in reqs ==> q.cut == None) ==> Mirrored(g, disk)
    {
      hide Inv, ViewOf, Lookup, Lost, Allocated, SetOf, Root, SlotFor, ClustersFor, Free, OldChain, Formatted, Returned;
      rs, done := [], [];
      ghost var v0 := View();
      var i := 0;
      while i < |reqs|
        invariant i == |rs| == |done| <= |reqs| && Valid() && Inv(g, View())
        invariant forall n :: Lookup(g, View(), n) == After(reqs[..i], done, n, Lookup(g, v0, n))
        invariant forall j :: 0 <= j < i && reqs[j].cut == None && Formatted(reqs[j].name)[0] != 0xE5 ==>
                    (done[j] <==> rs[j] == 0)
        invariant old(Mirrored(g, disk)) && (forall q :: q in reqs ==> q.cut == None) ==> Mirrored(g, disk)
      {
        var r;
        ghost var ok, v := false, View();
        assert reqs[i] in reqs;
        r, ok := SaveOrCut(reqs[i]);
        assert reqs[..i + 1][..i] == reqs[..i];
        rs, done := rs + [r], done + [ok];
        i := i + 1;
      }
      assert reqs[..i] == reqs;
    }

    /** One request of a run. */
    method SaveOrCut(q: Request) returns (r: int, ghost ok: bool)
      requires Valid() && Inv(g, View()) && 0 !in q.name && |q.data| + g.spc * SECTOR_SIZE <= 0x1_0000_0000
      modifies this
      ensures Valid() && Inv(g, View())
      ensures forall n :: Lookup(g, View(), n) ==
                if ok && n == Formatted(q.name) then Some(q.data) else Lookup(g, old(View()), n)
      ensures q.cut == None && Formatted(q.name)[0] != 0xE5 ==> (ok <==> r == 0)
      ensures old(Mirrored(g, disk)) && q.cut == None ==> Mirrored(g, disk)
    {
      hide DirOk, ViewOf, Lookup, Lost, Allocated, SetOf, Root, SlotFor, ClustersFor, Free, OldChain, Formatted,
           CutBefore, CutAfter;
      ghost var v, f := View(), Formatted(q.name);
      var before, p := disk, |trace|;
      ghost var n, o;
      r, n, o := Save(q.name, q.data);
      ok := r == 0 && f[0] != 0xE5;
      if q.cut.Some? && q.cut.value < |trace| - p {
        var d := if q.cut.value == 0 then before else trace[p + q.cut.value - 1];
        if q.cut.value == 0 {
          ok := false;
        } else {
          assert CutOk(g, v, ViewOf(g, d), f, q.data, n, o, r != 0);
          ok := !CutBefore(g, v, ViewOf(g, d), n, r != 0);
          CutIsEither(g, v, ViewOf(g, d), f, q.data, n, o, r != 0);
        }
        Remount(d);
      }
    }
  }
}
