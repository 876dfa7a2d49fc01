/** The builder's program: the table filled entry by entry, and the image written piece by piece. */
module MkFatMain {
  import opened Wrappers
  import opened Bytes
  import opened FatLayout
  import opened FatSave
  import opened FatName
  import FatRead
  import opened FatDriver
  import opened MkFat
  import opened MkFatName

  // ---- The table ----

  /** A run of the table, as a list of numbers. */
  ghost predicate TabRun(tab: seq<nat>, first: nat, n: nat) {
    first + n <= |tab| && forall i :: first <= i < first + n ==> tab[i] == if i + 1 < first + n then i + 1 else LAST
  }

  /** The entries that FAT32 sets aside, a run for each of the first k files, and nothing behind the last. */
  ghost predicate TabLaid(tab: seq<nat>, fs: seq<Source>, k: nat)
    requires k <= |fs|
  {
    && |tab| > 2 && tab[0] == EOC && tab[1] == LAST && tab[2] == LAST
    && (forall j :: 0 <= j < k ==> TabRun(tab, Start(fs, j), Need(fs[j])))
    && (forall i :: Start(fs, k) <= i < |tab| ==> tab[i] == 0)
    && forall i :: 0 <= i < |tab| ==> tab[i] < ENTRY
  }

  /** A new run behind the others. */
  lemma TabMore(tab: seq<nat>, more: seq<nat>, fs: seq<Source>, k: nat)
    requires k < |fs| && TabLaid(tab, fs, k) && |more| == |tab| && TabRun(more, Start(fs, k), Need(fs[k]))
    requires forall i :: 0 <= i < |tab| && !(Start(fs, k) <= i < Start(fs, k + 1)) ==> more[i] == tab[i]
    requires |tab| < ENTRY
    ensures TabLaid(more, fs, k + 1)
  {
    forall j | 0 <= j < k ensures TabRun(more, Start(fs, j), Need(fs[j])) {
      assert TabRun(tab, Start(fs, j), Need(fs[j]));
      StartOrder(fs, j, k);
    }
  }

  /** main's loop over the files, as far as the table goes; false for a volume that is too small. */
  method FillTable(fs: seq<Source>, total: nat, entries: nat) returns (fat: array<nat>, ok: bool)
    requires 2 < entries < ENTRY && total + 2 <= entries
    ensures fresh(fat) && fat.Length == entries
    ensures ok <==> fs == [] || Start(fs, |fs|) < total + 2
    ensures ok ==> TabLaid(fat[..], fs, |fs|)
  {
    hide TabLaid, TabRun, Start, Need;
    fat := new nat[entries](i => 0);
    fat[0], fat[1], fat[2] := EOC, LAST, LAST;
    TabFirst(fat[..], fs);
    ok := true;
    var next, k := 3, 0;
    while k < |fs|
      invariant k <= |fs| && next == Start(fs, k) && TabLaid(fat[..], fs, k)
      invariant k > 0 ==> next < total + 2
    {
      var n := Need(fs[k]);
      StartNext(fs, k);
      if next + n > entries {
        StartGrows(fs, k + 1, |fs|);
        return fat, false;
      }
      ghost var tab := fat[..];
      var i := 0;
      while i < n
        invariant i <= n
                  && forall c :: 0 <= c < entries ==>
                       fat[c] == if next <= c < next + i then LinkTo(c, next + n) else tab[c]
      {
        var cur := next + i;
        fat[cur] := if i < n - 1 then cur + 1 else LAST;
        i := i + 1;
      }
      RunWritten(fat[..], next, n);
      TabMore(tab, fat[..], fs, k);
      next := next + n;
      k := k + 1;
      if next >= total + 2 {
        StartGrows(fs, k, |fs|);
        return fat, false;
      }
    }
  }

  /** The entry of cluster c in a run that ends before end. */
  function LinkTo(c: nat, end: nat): nat { if c + 1 < end then c + 1 else LAST }

  lemma RunWritten(tab: seq<nat>, first: nat, n: nat)
    requires first + n <= |tab| && forall c :: first <= c < first + n ==> tab[c] == LinkTo(c, first + n)
    ensures TabRun(tab, first, n)
  {}

  lemma TabFirst(tab: seq<nat>, fs: seq<Source>)
    requires |tab| > 2 && tab[0] == EOC && tab[1] == LAST && tab[2] == LAST
             && forall i :: 3 <= i < |tab| ==> tab[i] == 0
    ensures TabLaid(tab, fs, 0) && Start(fs, 0) == 3
  {}

  lemma StartNext(fs: seq<Source>, k: nat)
    requires k < |fs|
    ensures Start(fs, k + 1) == Start(fs, k) + Need(fs[k])
  {}

  lemma {:induction false} StartGrows(fs: seq<Source>, j: nat, k: nat)
    requires j <= k <= |fs|
    ensures Start(fs, j) <= Start(fs, k)
  {
    if j < k { StartOrder(fs, j, k); }
  }

  /** struct.pack of the table, cut into sectors. */
  function TableSector(tab: seq<nat>, q: nat): (s: Sector)
    requires q * 128 + 128 <= |tab| && forall i :: 0 <= i < |tab| ==> tab[i] < ENTRY
  {
    seq(SECTOR_SIZE, b requires 0 <= b < SECTOR_SIZE => Le32(tab[q * 128 + b / 4])[b % 4])
  }

  lemma TableEntry(tab: seq<nat>, q: nat, e: nat)
    requires q * 128 + 128 <= |tab| && (forall i :: 0 <= i < |tab| ==> tab[i] < ENTRY) && e < 128
    ensures U32(TableSector(tab, q), e * 4) == tab[q * 128 + e]
  {
    hide Le32;
    var s, w := TableSector(tab, q), Le32(tab[q * 128 + e]);
    forall j | 0 <= j < 4 ensures s[e * 4 + j] == w[j] {
      assert (e * 4 + j) / 4 == e && (e * 4 + j) % 4 == j;
    }
  }

  function Table(tab: seq<nat>, n: nat): (ss: seq<Sector>)
    requires n * 128 <= |tab| && forall i :: 0 <= i < |tab| ==> tab[i] < ENTRY
    ensures |ss| == n && forall q :: 0 <= q < n ==> ss[q] == TableSector(tab, q)
  {
    seq(n, q requires 0 <= q < n => TableSector(tab, q))
  }

  lemma TableNext(v: Vol, tab: seq<nat>, c: nat)
    requires |tab| == 128 * |v.fat| && (forall i :: 0 <= i < |tab| ==> tab[i] < ENTRY) && v.fat == Table(tab, |v.fat|)
             && c < |tab|
    ensures Next(v, c) == tab[c]
  {
    hide TableSector;
    TableEntry(tab, c / 128, c % 128);
  }

  // ---- The data region ----

  /** f.write of some bytes at sector s, over n sectors. */
  method WriteBytes(data: array<Sector>, s: nat, n: nat, bytes: seq<byte>)
    requires s + n <= data.Length
    modifies data
    ensures forall i :: 0 <= i < data.Length ==> data[i] == if s <= i < s + n then Block(bytes, i - s) else old(data[i])
  {
    var m := 0;
    while m < n
      invariant m <= n
      invariant forall i :: 0 <= i < data.Length ==>
                  data[i] == if s <= i < s + m then Block(bytes, i - s) else old(data[i])
    {
      data[s + m] := Block(bytes, m);
      m := m + 1;
    }
  }

  /** The bytes of the first n directory entries. */
  function RootBytes(fs: seq<Source>, n: nat): (bs: seq<byte>)
    requires Given(fs)
    ensures |bs| == 32 * n
  {
    if n == 0 then [] else RootBytes(fs, n - 1) + RootEntry(fs, n - 1)
  }

  lemma {:induction false} RootBytesAt(fs: seq<Source>, n: nat, j: nat)
    requires Given(fs) && j < n
    ensures RootBytes(fs, n)[32 * j..32 * j + 32] == RootEntry(fs, j)
  {
    hide RootEntry, Given;
    if j < n - 1 {
      RootBytesAt(fs, n - 1, j);
      assert RootBytes(fs, n)[32 * j..32 * j + 32] == RootBytes(fs, n - 1)[32 * j..32 * j + 32];
    }
  }

  /** Entry j of the directory as it is written: its bytes, or zeros behind the last. */
  lemma BlockEntry(fs: seq<Source>, j: nat)
    requires Given(fs) && |fs| <= MAX_FILES && j < 128
    ensures SectorEntries(Block(RootBytes(fs, |fs| + 1), j / 16))[j % 16] == RootEntry(fs, j)
  {
    hide RootEntry, RootBytes, Given;
    var bytes, s := RootBytes(fs, |fs| + 1), Block(RootBytes(fs, |fs| + 1), j / 16);
    var e, d := SectorEntries(s)[j % 16], RootEntry(fs, j);
    assert e == s[j % 16 * 32..j % 16 * 32 + 32] && 512 * (j / 16) + j % 16 * 32 == 32 * j;
    if j <= |fs| {
      RootBytesAt(fs, |fs| + 1, j);
      forall i | 0 <= i < 32 ensures e[i] == d[i] {
        assert bytes[32 * j..32 * j + 32][i] == bytes[32 * j + i];
      }
    } else {
      RootZero(fs, j);
    }
  }

  lemma RootZero(fs: seq<Source>, j: nat)
    requires Given(fs) && |fs| < j
    ensures forall i :: 0 <= i < 32 ==> RootEntry(fs, j)[i] == 0
  {}

  /** The eight sectors of the root directory read back as its entries. */
  lemma RootWritten(v: Vol, fs: seq<Source>)
    requires Given(fs) && |fs| <= MAX_FILES && BytesAt(v, 0, SPC, RootBytes(fs, |fs| + 1))
    ensures forall j :: 0 <= j < 128 ==> Entries(v.data[..SPC])[j] == RootEntry(fs, j)
  {
    hide RootEntry, RootBytes, Given, Entries, SectorEntries, Block;
    var ss := v.data[..SPC];
    assert v.data[0..0 + SPC] == ss;
    forall j | 0 <= j < 128 ensures Entries(ss)[j] == RootEntry(fs, j) {
      EntriesSector(ss, j / 16);
      BlockEntry(fs, j);
      assert Entries(ss)[16 * (j / 16)..16 * (j / 16) + 16][j % 16] == Entries(ss)[j];
    }
  }

  /** Bytes at sector i of the data region. */
  ghost predicate BytesIn(data: seq<Sector>, s: nat, n: nat, bytes: seq<byte>) {
    s + n <= |data| && Blocks(data[s..s + n], bytes)
  }

  /** The first k files are in the data region. */
  ghost predicate DataLaid(data: seq<Sector>, fs: seq<Source>, k: nat)
    requires k <= |fs|
  {
    forall j :: 0 <= j < k ==> BytesIn(data, At(Start(fs, j)), SPC * Need(fs[j]), fs[j].data)
  }

  ghost predicate WrittenAt(data: seq<Sector>, more: seq<Sector>, s: nat, n: nat, bytes: seq<byte>) {
    && s + n <= |data| == |more|
    && forall i :: 0 <= i < |data| ==> more[i] == if s <= i < s + n then Block(bytes, i - s) else data[i]
  }

  lemma WrittenThere(data: seq<Sector>, more: seq<Sector>, s: nat, n: nat, bytes: seq<byte>)
    requires WrittenAt(data, more, s, n, bytes)
    ensures BytesIn(more, s, n, bytes)
  {
    hide Block;
    forall m | 0 <= m < n ensures more[s..s + n][m] == Block(bytes, m) { assert more[s + m] == more[s..s + n][m]; }
  }

  lemma WrittenElsewhere(data: seq<Sector>, more: seq<Sector>, s: nat, n: nat, bytes: seq<byte>, t: nat, m: nat,
                         other: seq<byte>)
    requires WrittenAt(data, more, s, n, bytes) && BytesIn(data, t, m, other) && t + m <= s
    ensures BytesIn(more, t, m, other)
  {
    hide Block;
    assert more[t..t + m] == data[t..t + m];
  }

  lemma DataMore(data: seq<Sector>, more: seq<Sector>, fs: seq<Source>, k: nat)
    requires k < |fs| && DataLaid(data, fs, k) && WrittenAt(data, more, At(Start(fs, k)), SPC * Need(fs[k]), fs[k].data)
    ensures DataLaid(more, fs, k + 1)
  {
    hide Start, Need, BytesIn, WrittenAt;
    forall j | 0 <= j < k + 1 ensures BytesIn(more, At(Start(fs, j)), SPC * Need(fs[j]), fs[j].data) {
      if j < k {
        StartOrder(fs, j, k);
        WrittenElsewhere(data, more, At(Start(fs, k)), SPC * Need(fs[k]), fs[k].data, At(Start(fs, j)),
            SPC * Need(fs[j]), fs[j].data);
      } else {
        WrittenThere(data, more, At(Start(fs, k)), SPC * Need(fs[k]), fs[k].data);
      }
    }
  }

  /** The root directory and the files, written one after the other. */
  method FillData(fs: seq<Source>, g: Geo, size: nat) returns (data: array<Sector>)
    requires Given(fs) && FilesOk(g, fs) && SPC * g.total <= size && g.total >= 1
    ensures fresh(data) && data.Length == size
    ensures DataLaid(data[..], fs, |fs|) && Blocks(data[..SPC], RootBytes(fs, |fs| + 1))
  {
    hide Start, Need, Given, FilesOk, DataLaid, Block, RootBytes;
    var zero: Sector := seq(SECTOR_SIZE, b => 0);
    data := new Sector[size](i => zero);
    WriteBytes(data, 0, SPC, RootBytes(fs, |fs| + 1));
    var k := 0;
    NoDataYet(data[..], fs);
    while k < |fs|
      invariant k <= |fs| && DataLaid(data[..], fs, k)
      invariant forall m :: 0 <= m < SPC ==> data[m] == Block(RootBytes(fs, |fs| + 1), m)
    {
      FileRange(g, fs, k);
      ghost var before := data[..];
      var c := StartOf(fs, k);
      WriteBytes(data, At(c), SPC * Need(fs[k]), fs[k].data);
      assert WrittenAt(before, data[..], At(c), SPC * Need(fs[k]), fs[k].data);
      DataMore(before, data[..], fs, k);
      k := k + 1;
    }
  }

  lemma NoDataYet(data: seq<Sector>, fs: seq<Source>)
    ensures DataLaid(data, fs, 0)
  {}

  /** The first cluster noted in file_layouts. */
  method StartOf(fs: seq<Source>, k: nat) returns (c: nat)
    requires k <= |fs|
    ensures c == Start(fs, k)
  {
    c := 3;
    var j := 0;
    while j < k
      invariant j <= k && c == Start(fs, j)
    {
      c := c + Need(fs[j]);
      j := j + 1;
    }
  }

  // ---- The image ----

  lemma LaidTogether(g: Geo, v: Vol, fs: seq<Source>, tab: seq<nat>)
    requires Fits(g, v) && g.spc == SPC && g.root == 2 && FilesOk(g, fs) && Given(fs)
    requires |tab| == 128 * |v.fat| && TabLaid(tab, fs, |fs|) && v.fat == Table(tab, |v.fat|)
    requires DataLaid(v.data, fs, |fs|) && SPC <= |v.data| && Blocks(v.data[..SPC], RootBytes(fs, |fs| + 1))
    ensures Laid(g, v, fs)
  {
    hide Start, Need, Block, Table, Given, FilesOk, Fits, RootEntry, RootBytes, Entries;
    RunRead(v, tab, fs);
    FilesGiven(g, fs);
    assert v.data[0..0 + SPC] == v.data[..SPC];
    RootWritten(v, fs);
    TableNext(v, tab, 2);
    forall k | 0 <= k < |fs| ensures FileLaid(v, fs, k) {}
  }

  lemma FilesGiven(g: Geo, fs: seq<Source>)
    requires FilesOk(g, fs)
    ensures |fs| <= MAX_FILES
  {}

  lemma RunRead(v: Vol, tab: seq<nat>, fs: seq<Source>)
    requires |tab| == 128 * |v.fat| && TabLaid(tab, fs, |fs|) && v.fat == Table(tab, |v.fat|)
    ensures forall k :: 0 <= k < |fs| ==> RunAt(v, Start(fs, k), Need(fs[k]))
  {
    hide Start, Need, Table, TableSector;
    forall k | 0 <= k < |fs| ensures RunAt(v, Start(fs, k), Need(fs[k])) {
      assert TabRun(tab, Start(fs, k), Need(fs[k]));
      forall i | Start(fs, k) <= i < Start(fs, k) + Need(fs[k]) ensures Next(v, i) == tab[i] {
        TableNext(v, tab, i);
      }
    }
  }

  lemma GivenBy(g: Geo, fs: seq<Source>)
    requires FilesOk(g, fs) && g.total + 2 <= EOC
    ensures Given(fs)
  {
    forall i | 0 <= i < |fs| ensures SourceOk(fs[i]) && Start(fs, i) < ENTRY {
      StartOrder(fs, i, |fs|);
    }
  }

  /** main: the image of a volume of so many sectors with the given files, boot being its reserved region; None if the
      files do not fit. The driver mounts it with these numbers, both tables agree, the driver's invariant holds, and
      every name given, and no other, reads back the file's bytes. */
  method BuildImage(fs: seq<Source>, sectors: nat, boot: seq<Sector>) returns (r: Option<Disk>)
    requires SizeOk(sectors) && |boot| == RESERVED && |fs| <= MAX_FILES
    requires (forall i :: 0 <= i < |fs| ==> SourceOk(fs[i]))
             && forall i, j :: 0 <= i < j < |fs| ==> fs[i].name != fs[j].name
    ensures r == None <==> fs != [] && Start(fs, |fs|) >= Clusters(sectors) + 2
    ensures r.Some? ==>
              var g := Geometry(sectors);
              && g.Ok() && |r.value| == sectors && r.value[..RESERVED] == boot && Mirrored(g, r.value)
              && Laid(g, ViewOf(g, r.value), fs)
  {
    hide Start, Need, FatSectors, DataLaid, TabLaid, BytesIn, Block, Laid, Mirrored, RootBytes, Given;
    var g := Geometry(sectors);
    GeometryOk(sectors);
    var fat, ok := FillTable(fs, g.total, 128 * g.fatSize);
    if !ok {
      return None;
    }
    GivenBy(g, fs);
    SizeEnough(sectors);
    var data := FillData(fs, g, sectors - DataStart(sectors));
    TabSmall(fat[..], fs);
    var table := Table(fat[..], g.fatSize);
    var d: Disk := boot + table + table + data[..];
    Assembled(g, boot, table, data[..], sectors);
    LaidTogether(g, ViewOf(g, d), fs, fat[..]);
    r := Some(d);
  }

  lemma SizeEnough(sectors: nat)
    requires SizeOk(sectors)
    ensures SPC * Clusters(sectors) <= sectors - DataStart(sectors) && Clusters(sectors) >= 1
            && SPC <= sectors - DataStart(sectors)
  {}

  lemma TabSmall(tab: seq<nat>, fs: seq<Source>)
    requires TabLaid(tab, fs, |fs|)
    ensures forall i :: 0 <= i < |tab| ==> tab[i] < ENTRY
  {}

  /** What the driver sees of the pieces put together. */
  lemma Assembled(g: Geo, boot: seq<Sector>, table: seq<Sector>, data: seq<Sector>, sectors: nat)
    requires SizeOk(sectors) && g == Geometry(sectors) && g.Ok() && |boot| == RESERVED && |table| == g.fatSize
    requires |data| == sectors - DataStart(sectors)
    ensures var d := boot + table + table + data;
            |d| == sectors && d[..RESERVED] == boot && ViewOf(g, d) == Vol(table, data) && Mirrored(g, d)
  {
    hide FatSectors, Times;
    var d := boot + table + table + data;
    TimesIsProduct(NUM_FATS, g.fatSize);
    TimesIsProduct(0, g.fatSize);
    TimesIsProduct(1, g.fatSize);
    assert d[g.fatStart..g.fatStart + g.fatSize] == table && d[g.DataStart()..] == data;
    forall f | 0 <= f < g.numFats ensures Copy(g, d, f) == table {
      assert f == 0 || f == 1;
      assert d[g.fatStart + g.fatSize..g.fatStart + g.fatSize + g.fatSize] == table;
    }
  }

  // ---- The boot sector ----

  const FS_TYPE: seq<byte> := [0x46, 0x41, 0x54, 0x33, 0x32, 0x20, 0x20, 0x20]      // "FAT32   "

  /** The fields of the boot sector that the driver looks at; code is everything else in it. */
  function BootByte(sectors: nat, code: Sector, i: nat): (b: byte)
    requires SizeOk(sectors) && i < SECTOR_SIZE
  {
    if 11 <= i < 13 then Le16(SECTOR_SIZE)[i - 11]
    else if i == 13 then SPC
    else if 14 <= i < 16 then Le16(RESERVED)[i - 14]
    else if i == 16 then NUM_FATS
    else if 32 <= i < 36 then Le32(sectors)[i - 32]
    else if 36 <= i < 40 then Le32(FatSectors(sectors))[i - 36]
    else if 44 <= i < 48 then Le32(2)[i - 44]
    else if 82 <= i < 90 then FS_TYPE[i - 82]
    else if i == 510 then 0x55
    else if i == 511 then 0xAA
    else code[i]
  }

  function BootSector(sectors: nat, code: Sector): (s: Sector)
    requires SizeOk(sectors)
    ensures forall i :: 0 <= i < SECTOR_SIZE ==> s[i] == BootByte(sectors, code, i)
  {
    seq(SECTOR_SIZE, i requires 0 <= i < SECTOR_SIZE => BootByte(sectors, code, i))
  }

  /** fat32_init: the volume's numbers, or None if this is no FAT32 boot sector. (The source divides by the cluster size
      without a look at it.) */
  function Mounted(s: Sector): (r: Option<Geo>) {
    if s[510] != 0x55 || s[511] != 0xAA || s[82..90] != FS_TYPE || U16(s, 11) != SECTOR_SIZE || s[13] == 0 then None
    else
      var start := U16(s, 14) + s[16] as int * U32(s, 36);
      if U32(s, 32) < start then None
      else Some(Geo(U16(s, 14), U32(s, 36), s[16] as int, s[13] as int, U32(s, 44),
          (U32(s, 32) - start) / s[13] as int, U32(s, 32)))
  }

  /** What fat32_init takes for a FAT32 volume, field by field of the boot sector. */
  lemma MountsOnly(s: Sector)
    ensures Mounted(s).Some? ==>
              && s[510] == 0x55 && s[511] == 0xAA && U16(s, 11) == 512
              && s[82..90] == [0x46, 0x41, 0x54, 0x33, 0x32, 0x20, 0x20, 0x20]
              && var g := Mounted(s).value;
                 && g.spc == s[13] as int > 0 && g.fatStart == U16(s, 14) && g.numFats == s[16] as int
                 && g.fatSize == U32(s, 36) && g.root == U32(s, 44) && g.sectors == U32(s, 32)
  {}

  lemma FieldRead(s: Sector, at: nat, w: seq<byte>)
    requires at + |w| <= SECTOR_SIZE && forall j :: 0 <= j < |w| ==> s[at + j] == w[j]
    ensures |w| == 2 ==> U16(s, at) == U16(w, 0)
    ensures |w| == 4 ==> U32(s, at) == U32(w, 0)
  {}

  /** The driver reads back the builder's geometry. */
  lemma MountsAsBuilt(sectors: nat, code: Sector)
    requires SizeOk(sectors)
    ensures Mounted(BootSector(sectors, code)) == Some(Geometry(sectors))
  {
    hide Le16, Le32, U16, U32, FatSectors;
    var s := BootSector(sectors, code);
    FieldRead(s, 11, Le16(SECTOR_SIZE));
    FieldRead(s, 14, Le16(RESERVED));
    FieldRead(s, 32, Le32(sectors));
    FieldRead(s, 36, Le32(FatSectors(sectors)));
    FieldRead(s, 44, Le32(2));
    assert s[82..90] == FS_TYPE;
  }

  /** Built, mounted and read: the driver mounts the image and loads each file byte for byte. */
  method BuildAndLoad(fs: seq<Source>, sectors: nat, code: Sector, reserved: seq<Sector>, name: seq<byte>)
    returns (d: Option<Disk>, got: Option<seq<byte>>)
    requires SizeOk(sectors) && |reserved| == RESERVED - 1 && |fs| <= MAX_FILES
    requires (forall i :: 0 <= i < |fs| ==> SourceOk(fs[i]))
             && forall i, j :: 0 <= i < j < |fs| ==> fs[i].name != fs[j].name
    ensures d.Some? ==> forall k :: 0 <= k < |fs| && fs[k].name == Formatted(name) ==> got == Some(fs[k].data)
    ensures d.Some? && (forall k :: 0 <= k < |fs| ==> fs[k].name != Formatted(name)) ==> got == None
  {
    hide Laid, Mirrored, FatSectors, Clusters, ViewOf, Inv, Lookup, Formatted, Start, BootSector, Mounted;
    var boot: seq<Sector> := [BootSector(sectors, code)] + reserved;
    d := BuildImage(fs, sectors, boot);
    got := None;
    if d.Some? {
      MountsAsBuilt(sectors, code);
      SectorsAtLeast(sectors);
      assert d.value[0] == d.value[..RESERVED][0];
      var g := Mounted(d.value[0]).value;
      var driver := new Driver(g, d.value);
      LaidIsLookedUp(g, driver.View(), fs, Formatted(name));
      got := driver.Load(name, 0xFFFF_FFFF);
      forall k | 0 <= k < |fs| && fs[k].name == Formatted(name) ensures got == Some(fs[k].data) {
        assert fs[k].data[..FatRead.Min(|fs[k].data|, 0xFFFF_FFFF)] == fs[k].data;
      }
    }
  }

  /** Built from files by their own names, and one of them opened by its own name: the driver finds it exactly if the
      first parts and the extensions agree; else it finds nothing, or another file. */
  method BuildAndOpen(names: seq<seq<byte>>, fs: seq<Source>, sectors: nat, code: Sector, reserved: seq<Sector>, k: nat)
    returns (d: Option<Disk>, got: Option<seq<byte>>)
    requires SizeOk(sectors) && |reserved| == RESERVED - 1 && |fs| == |names| <= MAX_FILES && k < |fs|
    requires forall i :: 0 <= i < |fs| ==> fs[i].name == ShortName(names[i]) && |fs[i].data| < WORD
    requires forall i, j :: 0 <= i < j < |fs| ==> fs[i].name != fs[j].name
    ensures d.Some? && FirstPartsAgree(names[k]) && ExtensionsAgree(names[k]) ==> got == Some(fs[k].data)
    ensures d.Some? && !(FirstPartsAgree(names[k]) && ExtensionsAgree(names[k])) ==>
              || got == None
              || exists j :: 0 <= j < |fs| && j != k && fs[j].name == Formatted(names[k]) && got == Some(fs[j].data)
  {
    hide ShortName, Formatted, FirstPartsAgree, ExtensionsAgree;
    forall i | 0 <= i < |fs| ensures SourceOk(fs[i]) {
      KeptFirst(fs[i].name[0]);
    }
    d, got := BuildAndLoad(fs, sectors, code, reserved, names[k]);
    NamesAgreeExactly(names[k]);
  }

  lemma KeptFirst(c: byte)
    ensures c == SPACE || Keeps(c, true) ==> c != 0x00 && c != 0xE5
  {}

  lemma SectorsAtLeast(sectors: nat)
    requires SizeOk(sectors)
    ensures RESERVED <= sectors
  {}
}
