/** The three stages of a save as changes to the volume: building a fresh chain, committing it,
    and releasing the old one. */
module FatSave {
  import opened Bytes
  import opened FatLayout
  import opened FatFrame
  import opened FatCommit

  ghost function SetOf(cs: seq<nat>): set<nat> { set x | x in cs }

  // ---- Building ----

  /** w is v with the clusters of n taken into use and the contents of those of t, all free in v,
      overwritten; every other entry and cluster is v's. */
  ghost predicate Building(g: Geo, v: Vol, w: Vol, n: seq<nat>, t: seq<nat>) {
    && Fits(g, v) && Fits(g, w) && |w.data| == |v.data| && AllInRange(g, n) && AllInRange(g, t)
    && (forall x :: x in t ==> g.InRange(x) && Next(v, x) == 0)
    && (forall x :: x in n ==> x in t && g.InRange(x) && Next(w, x) != 0)
    && (forall x: nat :: x < |v.fat| * 128 && x !in n ==> Raw(w, x) == Raw(v, x))
    && (forall x: nat :: x < |v.fat| * 128 ==> Raw(w, x) / ENTRY == Raw(v, x) / ENTRY)
    && (forall x: nat :: g.InRange(x) && x !in t ==> Cluster(g, w, x) == Cluster(g, v, x))
  }

  lemma ReachAllocated(g: Geo, v: Vol, x: nat)
    requires Inv(g, v) && Reach(g, v, x)
    ensures g.InRange(x) && Next(v, x) != 0
  {
    if x in RootChain(g, v) {
      var i :| 0 <= i < |RootChain(g, v)| && RootChain(g, v)[i] == x;
      ChainAllocated(g, v, g.root, RootChain(g, v), i);
    } else {
      var k :| 0 <= k < |Root(g, v)| && Live(Root(g, v)[k]) && x in ChainOf(g, v, First(Root(g, v)[k]));
      var cs := ChainOf(g, v, First(Root(g, v)[k]));
      var i :| 0 <= i < |cs| && cs[i] == x;
      ChainAllocated(g, v, First(Root(g, v)[k]), cs, i);
    }
  }

  /** Clusters that are in use but that no file and no directory sector occupies. */
  ghost function Lost(g: Geo, v: Vol): set<nat>
    requires Inv(g, v)
  {
    set c: nat | 2 <= c < g.total + 2 && Next(v, c) != 0 && !Reach(g, v, c)
  }

  /** While the new chain is being built every file is still there; only n is lost if power fails now. */
  lemma BuildingFiles(g: Geo, v: Vol, w: Vol, n: seq<nat>, t: seq<nat>)
    requires Inv(g, v) && Building(g, v, w, n, t)
    ensures Inv(g, w) && SameFiles(g, v, w) && Root(g, w) == Root(g, v) && RootChain(g, w) == RootChain(g, v)
    ensures Allocated(g, w) == Allocated(g, v) + SetOf(n)
    ensures Lost(g, w) == Lost(g, v) + SetOf(n)
    ensures forall x :: Reach(g, w, x) <==> Reach(g, v, x)
    ensures forall x :: x in n ==> !Reach(g, w, x)
  {
    forall x | Reach(g, v, x) ensures Keeps(g, v, w, x) && x !in t {
      ReachAllocated(g, v, x);
    }
    Frame(g, v, w);
    RootFrame(g, v, w);
  }

  // ---- The new chain ----

  /** Each entry of n's clusters, but the last, is the next one. */
  ghost predicate Links(g: Geo, w: Vol, n: seq<nat>) {
    Fits(g, w) && AllInRange(g, n) && forall j :: 0 <= j < |n| - 1 ==> Next(w, n[j]) == n[j + 1]
  }

  ghost predicate Linked(g: Geo, w: Vol, n: seq<nat>) {
    Links(g, w, n) && (n != [] ==> Next(w, n[|n| - 1]) == LAST)
  }

  lemma {:induction false} LinkedIsChain(g: Geo, w: Vol, n: seq<nat>)
    requires Linked(g, w, n) && n != []
    ensures IsChain(g, w, n[0], n)
    decreases |n|
  {
    if |n| > 1 {
      var t := n[1..];
      assert forall j :: 0 <= j < |t| ==> t[j] == n[j + 1];
      LinkedIsChain(g, w, t);
    } else {
      assert IsChain(g, w, LAST, n[1..]);
    }
  }

  // ---- The data ----

  /** The m-th sector of the data, zero-padded behind its end. */
  function Block(data: seq<byte>, m: nat): (s: Sector) {
    seq(SECTOR_SIZE, i requires 0 <= i => if SECTOR_SIZE * m + i < |data| then data[SECTOR_SIZE * m + i] else 0)
  }

  ghost predicate Blocks(ss: seq<Sector>, data: seq<byte>) {
    forall m :: 0 <= m < |ss| ==> ss[m] == Block(data, m)
  }

  /** Behind the data, nothing but zeros are written. */
  lemma BlocksPadded(ss: seq<Sector>, data: seq<byte>, m: nat, i: nat)
    requires Blocks(ss, data) && m < |ss| && i < SECTOR_SIZE
    ensures ss[m][i] == if SECTOR_SIZE * m + i < |data| then data[SECTOR_SIZE * m + i] else 0
  {}

  lemma {:induction false} JoinBlocks(ss: seq<Sector>, data: seq<byte>)
    requires Blocks(ss, data) && |data| <= SECTOR_SIZE * |ss|
    ensures Join(ss)[..|data|] == data
  {
    var js := Join(ss);
    forall i | 0 <= i < |data| ensures js[i] == data[i] {
      JoinSector(ss, i / SECTOR_SIZE);
      assert js[SECTOR_SIZE * (i / SECTOR_SIZE)..SECTOR_SIZE * (i / SECTOR_SIZE) + SECTOR_SIZE][i % SECTOR_SIZE] ==
             js[i];
    }
  }

  // ---- Releasing ----

  function Release(v: Vol, cs: seq<nat>): (w: Vol)
    requires forall i :: 0 <= i < |cs| ==> cs[i] < |v.fat| * 128
    ensures |w.fat| == |v.fat| && w.data == v.data
    decreases |cs|
  {
    if cs == [] then v else FatPut(Release(v, cs[..|cs| - 1]), cs[|cs| - 1], 0)
  }

  lemma {:induction false} ReleaseRaw(v: Vol, cs: seq<nat>, x: nat)
    requires forall i :: 0 <= i < |cs| ==> cs[i] < |v.fat| * 128
    requires x < |v.fat| * 128
    ensures Raw(Release(v, cs), x) / ENTRY == Raw(v, x) / ENTRY
    ensures Raw(Release(v, cs), x) == if x in cs then Merge(Raw(v, x), 0) else Raw(v, x)
    decreases |cs|
  {
    if cs != [] {
      var front := cs[..|cs| - 1];
      assert x in cs <==> x in front || x == cs[|cs| - 1];
      ReleaseRaw(v, front, x);
      FatPutRaw(Release(v, front), cs[|cs| - 1], 0, x);
    }
  }

  lemma ReleaseFits(g: Geo, v: Vol, cs: seq<nat>)
    requires Fits(g, v) && AllInRange(g, cs)
    ensures Fits(g, Release(v, cs))
    ensures forall x :: g.InRange(x) ==> Cluster(g, Release(v, cs), x) == Cluster(g, v, x)
    ensures forall x :: g.InRange(x) ==> Next(Release(v, cs), x) == if x in cs then 0 else Next(v, x)
  {
    forall x: nat | g.InRange(x) ensures Next(Release(v, cs), x) == if x in cs then 0 else Next(v, x) {
      ReleaseRaw(v, cs, x);
    }
  }

  /** Releasing clusters that nothing live occupies changes no file. */
  lemma ReleaseFiles(g: Geo, v: Vol, cs: seq<nat>)
    requires Inv(g, v) && AllInRange(g, cs) && forall x :: x in cs ==> !Reach(g, v, x)
    ensures Inv(g, Release(v, cs)) && SameFiles(g, v, Release(v, cs))
    ensures Root(g, Release(v, cs)) == Root(g, v)
    ensures Allocated(g, Release(v, cs)) == Allocated(g, v) - SetOf(cs)
    ensures Lost(g, Release(v, cs)) == Lost(g, v) - SetOf(cs)
    ensures forall x :: Reach(g, Release(v, cs), x) <==> Reach(g, v, x)
  {
    ReleaseFits(g, v, cs);
    forall x | Reach(g, v, x) ensures Keeps(g, v, Release(v, cs), x) {
      assert x !in cs;
    }
    Frame(g, v, Release(v, cs));
  }

  /** Undoing an allocation: the released clusters of n are as free as before. */
  lemma ReleaseBuilding(g: Geo, v: Vol, w: Vol, n: seq<nat>, i: nat)
    requires Building(g, v, w, n, n) && i <= |n|
    requires forall a, b :: 0 <= a < b < |n| ==> n[a] != n[b]
    ensures AllInRange(g, n[..i]) && Building(g, v, Release(w, n[..i]), n[i..], n)
  {
    var u := Release(w, n[..i]);
    assert n == n[..i] + n[i..];
    ReleaseFits(g, w, n[..i]);
    forall x: nat | x < |v.fat| * 128
      ensures Raw(u, x) / ENTRY == Raw(v, x) / ENTRY && (x !in n[i..] ==> Raw(u, x) == Raw(v, x))
    {
      ReleaseRaw(w, n[..i], x);
    }
    forall x | x in n[i..] ensures x in n && Next(u, x) != 0 {
      ReleaseRaw(w, n[..i], x);
      assert x !in n[..i] by { RunsDisjoint(n, i, x); }
    }
  }

  lemma RunsDisjoint(n: seq<nat>, i: nat, x: nat)
    requires i <= |n| && x in n[i..]
    requires forall a, b :: 0 <= a < b < |n| ==> n[a] != n[b]
    ensures x !in n[..i]
  {
    var b :| 0 <= b < |n[i..]| && n[i..][b] == x;
    assert n[i + b] == x;
  }

  // ---- Tables that agree entry by entry ----

  lemma SameFieldSameBytes(s: Sector, t: Sector, o: nat)
    requires o + 4 <= SECTOR_SIZE && U32(s, o) == U32(t, o)
    ensures s[o] == t[o] && s[o + 1] == t[o + 1] && s[o + 2] == t[o + 2] && s[o + 3] == t[o + 3]
  {
    SameDigits(s[o], s[o + 1], s[o + 2], s[o + 3], t[o], t[o + 1], t[o + 2], t[o + 3]);
  }

  /** Base-256 digits are unique, the lowest first. */
  lemma SameDigits(a: byte, b: byte, c: byte, d: byte, p: byte, q: byte, r: byte, s: byte)
    requires a as int + 0x100 * b as int + 0x1_0000 * c as int + 0x100_0000 * d as int
             == p as int + 0x100 * q as int + 0x1_0000 * r as int + 0x100_0000 * s as int
    ensures a == p && b == q && c == r && d == s
  {
    assert d == s;
    assert c == r;
  }

  lemma SameEntriesSameSector(s: Sector, t: Sector)
    requires forall j :: 0 <= j < 128 ==> U32(s, 4 * j) == U32(t, 4 * j)
    ensures s == t
  {
    forall i | 0 <= i < SECTOR_SIZE ensures s[i] == t[i] {
      var j := i / 4;
      assert U32(s, 4 * j) == U32(t, 4 * j);
      SameFieldSameBytes(s, t, 4 * j);
      var r := i % 4;
      assert i == 4 * j + r;
    }
  }

  lemma SameEntriesSameTable(v: Vol, w: Vol)
    requires |v.fat| == |w.fat| && forall x: nat :: x < |v.fat| * 128 ==> Raw(w, x) == Raw(v, x)
    ensures w.fat == v.fat
  {
    forall q | 0 <= q < |v.fat| ensures w.fat[q] == v.fat[q] {
      forall j | 0 <= j < 128 ensures U32(w.fat[q], 4 * j) == U32(v.fat[q], 4 * j) {
        assert Raw(w, 128 * q + j) == Raw(v, 128 * q + j);
      }
      SameEntriesSameSector(w.fat[q], v.fat[q]);
    }
  }
}
