/** The image builder: geometry, names, the table and the data it lays out, and why the driver finds every file. */
module MkFat {
  import opened Wrappers
  import opened Bytes
  import opened FatLayout
  import opened FatFrame
  import opened FatSave
  import opened FatName

  const SPC: nat := 8
  const RESERVED: nat := 2048
  const NUM_FATS: nat := 2
  const CLUSTER_BYTES: nat := SPC * SECTOR_SIZE
  const MAX_FILES: nat := 127

  // ---- Geometry ----

  /** main's arithmetic on the number of sectors. */
  function FatSectors(sectors: nat): nat { (sectors / SPC * 4 + SECTOR_SIZE - 1) / SECTOR_SIZE + 1 }

  function DataStart(sectors: nat): nat { RESERVED + NUM_FATS * FatSectors(sectors) }

  function Clusters(sectors: nat): nat
    requires DataStart(sectors) <= sectors
  {
    (sectors - DataStart(sectors)) / SPC
  }

  function Geometry(sectors: nat): (g: Geo)
    requires DataStart(sectors) <= sectors
  {
    Geo(RESERVED, FatSectors(sectors), NUM_FATS, SPC, 2, Clusters(sectors), sectors)
  }

  /** A size the builder and the 32-bit fields can handle: at least one cluster, and no more than FAT32 can number. */
  predicate SizeOk(sectors: nat) {
    DataStart(sectors) + SPC <= sectors < 0xFFFF_FFFF && Clusters(sectors) + 2 <= EOC
        && FatSectors(sectors) * 128 < ENTRY
  }

  /** The table has an entry for every cluster, and the geometry is sound: one sector of the table is spare beside those
      that an entry for every SPC sectors of the disk needs, and less than a cluster of the disk is left over. */
  lemma GeometryOk(sectors: nat)
    requires SizeOk(sectors)
    ensures (FatSectors(sectors) - 2) * 128 < sectors / SPC <= (FatSectors(sectors) - 1) * 128
    ensures sectors - SPC < DataStart(sectors) + SPC * Clusters(sectors) <= sectors
    ensures Geometry(sectors).Ok() && Clusters(sectors) + 2 <= FatSectors(sectors) * 128
    ensures Geometry(sectors).DataStart() == DataStart(sectors)
  {
    TimesIsProduct(Clusters(sectors), SPC);
    TimesIsProduct(NUM_FATS, FatSectors(sectors));
  }

  // ---- Files ----

  /** A file for the root directory: its short name and its bytes. */
  datatype Source = Source(name: seq<byte>, data: seq<byte>)

  predicate SourceOk(f: Source) {
    |f.name| == 11 && f.name[0] != 0x00 && f.name[0] != 0xE5 && |f.data| < 0x1_0000_0000
  }

  function Need(f: Source): (n: nat)
    ensures n >= 1 && |f.data| <= CLUSTER_BYTES * n && (n == 1 || CLUSTER_BYTES * (n - 1) < |f.data|)
  {
    var n := (|f.data| + CLUSTER_BYTES - 1) / CLUSTER_BYTES;
    if n < 1 then 1 else n
  }

  /** The first cluster of file k: clusters are given out in order, from 3 on. */
  function Start(fs: seq<Source>, k: nat): (c: nat)
    requires k <= |fs|
    ensures c >= 3
  {
    if k == 0 then 3 else Start(fs, k - 1) + Need(fs[k - 1])
  }

  lemma {:induction false} StartOrder(fs: seq<Source>, j: nat, k: nat)
    requires j < k <= |fs|
    ensures Start(fs, j) + Need(fs[j]) <= Start(fs, k)
  {
    if j + 1 < k { StartOrder(fs, j, k - 1); }
  }

  predicate Given(fs: seq<Source>) {
    forall i :: 0 <= i < |fs| ==> SourceOk(fs[i]) && Start(fs, i) < ENTRY
  }

  /** The directory entry of a file that begins at cluster first. */
  function EntryOf(f: Source, first: nat): (e: Dirent)
    requires SourceOk(f) && first < ENTRY
    ensures e[..11] == f.name && e[11] == ATTR_ARCHIVE && First(e) == first && Size(e) == |f.data|
            && e[0] == f.name[0] && Live(e)
  {
    var blank: Dirent := f.name + [ATTR_ARCHIVE] + seq(20, i => 0);
    assert blank[..11] == f.name;
    var e := WithData(blank, first, |f.data|);
    assert e[0] == e[..11][0];
    e
  }

  /** "ARCADEOS   " with the volume-label attribute. */
  function Label(): (e: Dirent)
    ensures !Live(e) && e[0] == 0x41
  {
    [0x41, 0x52, 0x43, 0x41, 0x44, 0x45, 0x4F, 0x53, 0x20, 0x20, 0x20, 0x08, 0, 0, 0, 0, 0, 0, 0, 0, 0, 0, 0, 0, 0, 0,
        0, 0, 0, 0, 0, 0]
  }

  function ZeroEntry(): (e: Dirent)
    ensures forall i :: 0 <= i < 32 ==> e[i] == 0
  {
    seq(32, i => 0)
  }

  // ---- What the image holds ----

  /** A run of n clusters from first, linked in order and ended. */
  ghost predicate RunAt(v: Vol, first: nat, n: nat) {
    && first + n <= |v.fat| * 128
    && forall i :: first <= i < first + n ==> Next(v, i) == if i + 1 < first + n then i + 1 else LAST
  }

  /** The bytes of data from sector s of the data region on, padded with zeros. */
  ghost predicate BytesAt(v: Vol, s: nat, n: nat, data: seq<byte>) {
    s + n <= |v.data| && Blocks(v.data[s..s + n], data)
  }

  /** Sector of the data region where a cluster begins. */
  function At(c: nat): nat
    requires c >= 2
  {
    SPC * (c - 2)
  }

  ghost predicate FileLaid(v: Vol, fs: seq<Source>, k: nat)
    requires k < |fs|
  {
    var c, n := Start(fs, k), Need(fs[k]);
    RunAt(v, c, n) && BytesAt(v, At(c), SPC * n, fs[k].data)
  }

  /** The 128 entries of the root directory: label, files, zeros. */
  function RootEntry(fs: seq<Source>, j: nat): (e: Dirent)
    requires Given(fs)
  {
    if j == 0 then Label() else if j <= |fs| then EntryOf(fs[j - 1], Start(fs, j - 1)) else ZeroEntry()
  }

  ghost predicate RootLaid(v: Vol, fs: seq<Source>)
    requires Given(fs)
  {
    && |v.fat| > 0 && Next(v, 2) == LAST && SPC <= |v.data|
    && forall j :: 0 <= j < 128 ==> Entries(v.data[..SPC])[j] == RootEntry(fs, j)
  }

  /** The files fit: main's check after the last of them. */
  predicate FilesOk(g: Geo, fs: seq<Source>) {
    && |fs| <= MAX_FILES && (forall i :: 0 <= i < |fs| ==> SourceOk(fs[i]))
    && (forall i, j :: 0 <= i < j < |fs| ==> fs[i].name != fs[j].name)
    && (fs != [] ==> Start(fs, |fs|) < g.total + 2)
  }

  ghost predicate Laid(g: Geo, v: Vol, fs: seq<Source>) {
    && Fits(g, v) && g.spc == SPC && g.root == 2 && FilesOk(g, fs)
    && Given(fs)
    && RootLaid(v, fs) && forall k :: 0 <= k < |fs| ==> FileLaid(v, fs, k)
  }

  // ---- The driver finds it ----

  function Clusterlist(first: nat, n: nat): (cs: seq<nat>)
    ensures |cs| == n && forall i :: 0 <= i < n ==> cs[i] == first + i
  {
    seq(n, i requires 0 <= i < n => first + i)
  }

  /** A run is a chain. */
  lemma RunIsChain(g: Geo, v: Vol, first: nat, n: nat)
    requires Fits(g, v) && RunAt(v, first, n) && 2 <= first && first + n <= g.total + 2 && n > 0
    ensures IsChain(g, v, first, Clusterlist(first, n)) && AllInRange(g, Clusterlist(first, n))
    ensures HasChain(g, v, first) && ChainOf(g, v, first) == Clusterlist(first, n)
  {
    var cs := Clusterlist(first, n);
    LinkedIsChain(g, v, cs);
    ChainUnique(g, v, first, cs, ChainOf(g, v, first));
  }

  /** The sectors of a run lie side by side. */
  lemma {:induction false} RunSectors(g: Geo, v: Vol, first: nat, n: nat)
    requires Fits(g, v) && g.spc == SPC && 2 <= first && first + n <= g.total + 2
    ensures AllInRange(g, Clusterlist(first, n)) && At(first) + SPC * n <= |v.data|
    ensures Sectors(g, v, Clusterlist(first, n)) == v.data[At(first)..At(first) + SPC * n]
    decreases n
  {
    TimesIsProduct(g.total, SPC);
    hide Times;
    if n > 0 {
      RunSectors(g, v, first, n - 1);
      var cs := Clusterlist(first, n);
      assert cs[..n - 1] == Clusterlist(first, n - 1);
      TimesIsProduct(first + n - 1 - 2, SPC);
      assert Cluster(g, v, cs[n - 1]) == v.data[At(first + n - 1)..At(first + n - 1) + SPC];
      assert v.data[At(first)..At(first) + SPC * n] ==
             v.data[At(first)..At(first) + SPC * (n - 1)] + v.data[At(first + n - 1)..At(first + n - 1) + SPC];
    }
  }

  lemma FileRange(g: Geo, fs: seq<Source>, k: nat)
    requires FilesOk(g, fs) && k < |fs|
    ensures Start(fs, k) + Need(fs[k]) < g.total + 2
  {
    StartOrder(fs, k, |fs|);
  }

  /** File k's entry leads to a good chain, and the chain to the file's bytes. */
  lemma FileFound(g: Geo, v: Vol, fs: seq<Source>, k: nat)
    requires Laid(g, v, fs) && k < |fs|
    ensures var c, n := Start(fs, k), Need(fs[k]);
            && HasChain(g, v, c) && ChainOf(g, v, c) == Clusterlist(c, n)
            && |fs[k].data| <= SECTOR_SIZE * |Sectors(g, v, ChainOf(g, v, c))|
            && Join(Sectors(g, v, ChainOf(g, v, c)))[..|fs[k].data|] == fs[k].data
  {
    hide RootLaid, RunAt, IsChain, HasChain, Sectors, Start, Need, Clusterlist, Join, Blocks, Given, FilesOk;
    var c, n := Start(fs, k), Need(fs[k]);
    FileRange(g, fs, k);
    assert FileLaid(v, fs, k);
    RunIsChain(g, v, c, n);
    RunSectors(g, v, c, n);
    JoinBlocks(Sectors(g, v, Clusterlist(c, n)), fs[k].data);
  }

  lemma RootFound(g: Geo, v: Vol, fs: seq<Source>)
    requires Laid(g, v, fs)
    ensures RootOk(g, v) && RootChain(g, v) == [2] && |Root(g, v)| == 128
    ensures forall j :: 0 <= j < 128 ==> Root(g, v)[j] == RootEntry(fs, j)
  {
    hide FileLaid;
    assert RunAt(v, 2, 1);
    RunIsChain(g, v, 2, 1);
    RunSectors(g, v, 2, 1);
    assert Clusterlist(2, 1) == [2];
    assert v.data[0..SPC] == v.data[..SPC];
  }

  /** Which entries are live: exactly the files'. */
  lemma RootLive(fs: seq<Source>, j: nat)
    requires Given(fs) && j < 128
    ensures Live(RootEntry(fs, j)) <==> 1 <= j <= |fs|
    ensures RootEntry(fs, j)[0] == 0x00 <==> j > |fs|
  {
    hide EntryOf, Label, Start, Need;
    if j > |fs| { assert !Live(ZeroEntry()); }
  }

  /** What the search sees of file entry j. */
  lemma RootName(fs: seq<Source>, j: nat)
    requires Given(fs) && 1 <= j <= |fs|
    ensures RootEntry(fs, j)[..11] == fs[j - 1].name && First(RootEntry(fs, j)) == Start(fs, j - 1)
            && Size(RootEntry(fs, j)) == |fs[j - 1].data|
  {
    hide EntryOf, Label, Start, Need, Live;
  }

  lemma EntryLeads(g: Geo, v: Vol, fs: seq<Source>, k: nat)
    requires Laid(g, v, fs) && k < |fs|
    ensures var e := RootEntry(fs, k + 1);
            && First(e) == Start(fs, k) && Size(e) == |fs[k].data| && e[..11] == fs[k].name
            && HasChain(g, v, First(e)) && ChainOf(g, v, First(e)) == Clusterlist(Start(fs, k), Need(fs[k]))
            && FileOk(g, v, [2], e)
  {
    hide RootLaid, FileLaid, RootEntry, Need, Start, Live, IsChain, HasChain, Sectors, Clusterlist;
    FileFound(g, v, fs, k);
    RootName(fs, k + 1);
  }

  /** No two files share a cluster. */
  lemma FilesApart(g: Geo, v: Vol, fs: seq<Source>, j: nat, k: nat)
    requires Laid(g, v, fs) && j < |fs| && k < |fs| && j != k
    ensures HasChain(g, v, First(RootEntry(fs, j + 1))) && HasChain(g, v, First(RootEntry(fs, k + 1)))
    ensures Apart(g, v, RootEntry(fs, j + 1), RootEntry(fs, k + 1))
  {
    hide RootLaid, FileLaid, RootEntry, Need, Start, HasChain, Laid;
    EntryLeads(g, v, fs, j);
    EntryLeads(g, v, fs, k);
    if j < k { StartOrder(fs, j, k); } else { StartOrder(fs, k, j); }
  }

  /** The image satisfies the driver's invariant. */
  lemma LaidIsVolume(g: Geo, v: Vol, fs: seq<Source>)
    requires Laid(g, v, fs)
    ensures Inv(g, v)
  {
    hide RootLaid, FileLaid, RootEntry, Live, HasChain, Apart, Fits, Given, Start, Sectors, Disjoint;
    RootFound(g, v, fs);
    var ds := Root(g, v);
    forall j | 0 <= j < 128 ensures (Live(ds[j]) <==> 1 <= j <= |fs|) && (ds[j][0] == 0x00 <==> j > |fs|) {
      RootLive(fs, j);
    }
    forall k | 0 <= k < |ds| && Live(ds[k]) ensures FileOk(g, v, [2], ds[k]) {
      EntryLeads(g, v, fs, k - 1);
    }
    forall j, k | 0 <= j < |ds| && 0 <= k < |ds| && j != k && Live(ds[j]) && Live(ds[k])
      ensures Apart(g, v, ds[j], ds[k]) {
      FilesApart(g, v, fs, j - 1, k - 1);
    }
  }

  /** The search of the directory finds file k where it is, and no name that was not given. */
  lemma {:induction false} FindsFile(fs: seq<Source>, ds: seq<Dirent>, name: seq<byte>, j: nat)
    requires |fs| <= MAX_FILES && Given(fs) && |ds| == 128 && (forall i :: 0 <= i < 128 ==> ds[i] == RootEntry(fs, i))
             && j <= 128
    ensures var r := Find(ds, name, j);
            if r == None then forall i :: 0 <= i < |fs| && j <= i + 1 ==> fs[i].name != name
            else 1 <= r.value <= |fs| && fs[r.value - 1].name == name
    decreases 128 - j
  {
    hide Start, Need, RootEntry, Live, Given;
    if j < 128 {
      RootLive(fs, j);
      if 1 <= j <= |fs| { RootName(fs, j); }
      FindsFile(fs, ds, name, j + 1);
    }
  }

  /** The driver's view of the image: each file under its name, byte for byte, and nothing else. */
  lemma LaidIsLookedUp(g: Geo, v: Vol, fs: seq<Source>, name: seq<byte>)
    requires Laid(g, v, fs)
    ensures Inv(g, v)
    ensures forall k :: 0 <= k < |fs| && fs[k].name == name ==> Lookup(g, v, name) == Some(fs[k].data)
    ensures (forall k :: 0 <= k < |fs| ==> fs[k].name != name) ==> Lookup(g, v, name) == None
  {
    hide RootLaid, FileLaid, RootEntry, Live, FileOk, HasChain, Fits, Given, Start, Inv, Find, Need;
    LaidIsVolume(g, v, fs);
    RootFound(g, v, fs);
    FindsFile(fs, Root(g, v), name, 0);
    var r := Find(Root(g, v), name, 0);
    if r.Some? {
      EntryLeads(g, v, fs, r.value - 1);
      FileFound(g, v, fs, r.value - 1);
    }
  }
}
