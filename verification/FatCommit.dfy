/** The commit point of a save: one directory sector is rewritten, and one file is replaced. */
module FatCommit {
  import opened Wrappers
  import opened Bytes
  import opened FatLayout
  import opened FatFrame

  // ---- Searching a directory in which one slot changed ----

  lemma SectorEntriesPut(sec: Sector, e: nat, d: Dirent)
    requires e < 16
    ensures SectorEntries(Splice(sec, e * 32, d)) == SectorEntries(sec)[e := d]
  {
    var da, db := SectorEntries(sec), SectorEntries(Splice(sec, e * 32, d));
    forall j | 0 <= j < 16 ensures db[j] == if j == e then d else da[j] {
      assert db[j] == Splice(sec, e * 32, d)[j * 32..j * 32 + 32];
    }
  }

  lemma {:induction false} EntriesPut(ss: seq<Sector>, q: nat, e: nat, d: Dirent)
    requires q < |ss| && e < 16
    ensures Entries(ss[q := Splice(ss[q], e * 32, d)]) == Entries(ss)[16 * q + e := d]
    decreases |ss|
  {
    var last := |ss| - 1;
    var tt := ss[q := Splice(ss[q], e * 32, d)];
    SectorEntriesPut(ss[q], e, d);
    UpdateConcat(Entries(ss[..last]), SectorEntries(ss[last]), 16 * q + e, d);
    if q < last {
      EntriesPut(ss[..last], q, e, d);
      assert tt[..last] == ss[..last][q := Splice(ss[q], e * 32, d)];
    } else {
      assert tt[..last] == ss[..last];
    }
  }

  /** Rewriting a live entry without touching its name or attributes moves no search result. */
  lemma {:induction false} FindRewritten(ds: seq<Dirent>, k: nat, e: Dirent, n: seq<byte>, j: nat)
    requires k < |ds| && j <= |ds|
    requires e[..11] == ds[k][..11] && e[11] == ds[k][11]
    ensures Find(ds[k := e], n, j) == Find(ds, n, j)
    decreases |ds| - j
  {
    assert e[0] == e[..11][0] == ds[k][..11][0] == ds[k][0];
    if j < |ds| {
      FindRewritten(ds, k, e, n, j + 1);
    }
  }

  /** Filling a free slot hides nothing and, behind the terminator, uncovers nothing. */
  lemma {:induction false} FindFilled(ds: seq<Dirent>, k: nat, e: Dirent, n: seq<byte>, j: nat)
    requires k < |ds| && j <= |ds| && TailZero(ds)
    requires Vacant(ds[k]) && e[0] != 0x00
    requires !(Live(e) && e[..11] == n)
    ensures Find(ds[k := e], n, j) == Find(ds, n, j)
    decreases |ds| - j
  {
    if j < |ds| {
      FindFilled(ds, k, e, n, j + 1);
    }
  }

  lemma {:induction false} FindNew(ds: seq<Dirent>, k: nat, e: Dirent, j: nat)
    requires j <= k < |ds| && Live(e)
    requires forall i :: j <= i < k ==> ds[i][0] != 0x00
    requires Find(ds, e[..11], j) == None
    ensures Find(ds[k := e], e[..11], j) == Some(k)
    decreases k - j
  {
    if j < k {
      FindNew(ds, k, e, j + 1);
    }
  }

  // ---- The sector that holds a slot ----

  lemma UpdateConcat<T>(a: seq<T>, b: seq<T>, m: nat, x: T)
    requires m < |a| + |b|
    ensures (a + b)[m := x] == if m < |a| then a[m := x] + b else a + b[m - |a| := x]
  {}

  lemma {:induction false} SectorsPut(g: Geo, v: Vol, cs: seq<nat>, i: nat, s: nat, sec: Sector, w: Vol)
    requires Fits(g, v) && Fits(g, w) && AllInRange(g, cs) && i < |cs| && s < g.spc
    requires Cluster(g, w, cs[i]) == Cluster(g, v, cs[i])[s := sec]
    requires forall a :: 0 <= a < |cs| && a != i ==> Cluster(g, w, cs[a]) == Cluster(g, v, cs[a])
    ensures |Sectors(g, v, cs[..i])| + s < |Sectors(g, v, cs)|
    ensures Sectors(g, w, cs) == Sectors(g, v, cs)[|Sectors(g, v, cs[..i])| + s := sec]
    decreases |cs|
  {
    var front := cs[..|cs| - 1];
    SectorsPrefix(g, v, cs, i);
    UpdateConcat(Sectors(g, v, front), Cluster(g, v, cs[|cs| - 1]), |Sectors(g, v, cs[..i])| + s, sec);
    if i == |cs| - 1 {
      forall x | x in front && g.InRange(x) ensures Cluster(g, w, x) == Cluster(g, v, x) {
        var a :| 0 <= a < |front| && front[a] == x;
        assert cs[a] == x;
      }
      SectorsFrame(g, v, w, front);
    } else {
      assert front[i] == cs[i] && front[..i] == cs[..i];
      SectorsPut(g, v, front, i, s, sec, w);
    }
  }

  // ---- The commit ----

  /** Where slot k of the root directory lies: sector s of the i-th cluster of its chain. */
  ghost predicate SlotPlace(g: Geo, v: Vol, k: nat, i: nat, s: nat)
    requires RootOk(g, v)
  {
    i < |RootChain(g, v)| && s < g.spc && k / 16 == |Sectors(g, v, RootChain(g, v)[..i])| + s
  }

  function Commit(g: Geo, v: Vol, c: nat, s: nat, k: nat, e: Dirent): (w: Vol)
    requires 2 <= c && Base(g, c) + s < |v.data|
    ensures w.fat == v.fat && |w.data| == |v.data|
  {
    DataPut(v, Base(g, c) + s, Splice(v.data[Base(g, c) + s], k % 16 * 32, e))
  }

  /** The entry may go to slot k: it rewrites a live one in place, or it fills the first free slot. */
  ghost predicate MayTake(ds: seq<Dirent>, k: nat, e: Dirent) {
    && k < |ds|
    && (Find(ds, e[..11], 0) == Some(k) ==> e[11] == ds[k][11])
    && (Find(ds, e[..11], 0) != Some(k) ==>
          Find(ds, e[..11], 0) == None && FindFree(ds, 0) == Some(k) && e[0] != 0x00)
  }

  /** cs is a chain whose clusters nothing live occupies. */
  ghost predicate FreshChain(g: Geo, v: Vol, c: nat, cs: seq<nat>)
    requires Inv(g, v)
  {
    IsChain(g, v, c, cs) && forall x :: x in cs ==> !Reach(g, v, x)
  }

  /** w is v with directory slot k holding e, and nothing else that is live moved. */
  ghost predicate Committed(g: Geo, v: Vol, w: Vol, k: nat, e: Dirent) {
    && RootOk(g, v) && RootOk(g, w) && k < |Root(g, v)|
    && RootChain(g, w) == RootChain(g, v) && Root(g, w) == Root(g, v)[k := e]
    && forall x :: x !in RootChain(g, v) ==> Keeps(g, v, w, x)
  }

  lemma SlotSector(g: Geo, v: Vol, k: nat, i: nat, s: nat)
    requires RootOk(g, v) && k < |Root(g, v)| && SlotPlace(g, v, k, i, s)
    ensures Base(g, RootChain(g, v)[i]) + s < |v.data|
    ensures v.data[Base(g, RootChain(g, v)[i]) + s] == Cluster(g, v, RootChain(g, v)[i])[s] ==
            Sectors(g, v, RootChain(g, v))[k / 16]
  {
    var rc := RootChain(g, v);
    SectorsPrefix(g, v, rc, i);
    BaseFits(g, v, rc[i]);
    assert Sectors(g, v, rc)[k / 16] == Sectors(g, v, rc)[|Sectors(g, v, rc[..i])|..][..g.spc][s];
  }

  lemma CommitDir(g: Geo, v: Vol, k: nat, i: nat, s: nat, e: Dirent)
    requires RootOk(g, v) && k < |Root(g, v)| && SlotPlace(g, v, k, i, s)
    ensures Base(g, RootChain(g, v)[i]) + s < |v.data|
    ensures Committed(g, v, Commit(g, v, RootChain(g, v)[i], s, k, e), k, e)
  {
    SlotSector(g, v, k, i, s);
    var rc := RootChain(g, v);
    var w := Commit(g, v, rc[i], s, k, e);
    CommitClusters(g, v, k, i, s, e, w);
    ChainFrame(g, v, w, g.root, rc);
    ChainUnique(g, w, g.root, RootChain(g, w), rc);
    CommitRoot(g, v, k, i, s, e, w);
  }

  lemma CommitClusters(g: Geo, v: Vol, k: nat, i: nat, s: nat, e: Dirent, w: Vol)
    requires RootOk(g, v) && k < |Root(g, v)| && SlotPlace(g, v, k, i, s)
    requires Base(g, RootChain(g, v)[i]) + s < |v.data|
    requires w == Commit(g, v, RootChain(g, v)[i], s, k, e)
    ensures Fits(g, w) && forall x :: g.InRange(x) ==> Next(w, x) == Next(v, x)
    ensures Cluster(g, w, RootChain(g, v)[i]) ==
            Cluster(g, v, RootChain(g, v)[i])[s := Splice(Sectors(g, v, RootChain(g, v))[k / 16], k % 16 * 32, e)]
    ensures forall x :: g.InRange(x) && x != RootChain(g, v)[i] ==> Cluster(g, w, x) == Cluster(g, v, x)
  {
    SlotSector(g, v, k, i, s);
    var c := RootChain(g, v)[i];
    forall x: nat | g.InRange(x)
      ensures Cluster(g, w, x) ==
                if x == c then Cluster(g, v, c)[s := Splice(v.data[Base(g, c) + s], k % 16 * 32, e)]
                else Cluster(g, v, x)
    {
      DataPutCluster(g, v, c, s, Splice(v.data[Base(g, c) + s], k % 16 * 32, e), x);
    }
  }

  lemma CommitRoot(g: Geo, v: Vol, k: nat, i: nat, s: nat, e: Dirent, w: Vol)
    requires RootOk(g, v) && k < |Root(g, v)| && SlotPlace(g, v, k, i, s)
    requires RootOk(g, w) && RootChain(g, w) == RootChain(g, v)
    requires Cluster(g, w, RootChain(g, v)[i]) ==
             Cluster(g, v, RootChain(g, v)[i])[s := Splice(Sectors(g, v, RootChain(g, v))[k / 16], k % 16 * 32, e)]
    requires forall x :: g.InRange(x) && x != RootChain(g, v)[i] ==> Cluster(g, w, x) == Cluster(g, v, x)
    ensures Root(g, w) == Root(g, v)[k := e]
  {
    var rc := RootChain(g, v);
    var ss := Sectors(g, v, rc);
    forall a | 0 <= a < |rc| && a != i ensures Cluster(g, w, rc[a]) == Cluster(g, v, rc[a]) {
      if a < i { ChainAcyclic(g, v, g.root, rc, a, i); } else { ChainAcyclic(g, v, g.root, rc, i, a); }
    }
    SectorsPut(g, v, rc, i, s, Splice(ss[k / 16], k % 16 * 32, e), w);
    EntriesPut(ss, k / 16, k % 16, e);
  }

  /** The name's first byte, which the rewritten entry shares with the one it replaces. */
  lemma TakeFirstByte(ds: seq<Dirent>, k: nat, e: Dirent)
    requires MayTake(ds, k, e)
    ensures e[0] != 0x00
    ensures Find(ds, e[..11], 0) == Some(k) ==> e[0] == ds[k][0] && Live(e)
  {
    assert e[0] == e[..11][0] && ds[k][0] == ds[k][..11][0];
  }

  /** No search but the one for the entry's own name sees the commit. */
  lemma CommitFind(ds: seq<Dirent>, k: nat, e: Dirent, n: seq<byte>)
    requires TailZero(ds) && MayTake(ds, k, e)
    ensures Live(e) && n == e[..11] ==> Find(ds[k := e], n, 0) == Some(k)
    ensures !(Live(e) && n == e[..11]) ==> Find(ds[k := e], n, 0) == Find(ds, n, 0) && Find(ds, n, 0) != Some(k)
  {
    TakeFirstByte(ds, k, e);
    if Find(ds, e[..11], 0) == Some(k) {
      FindRewritten(ds, k, e, n, 0);
    } else if Live(e) && n == e[..11] {
      FindNew(ds, k, e, 0);
    } else {
      FindFilled(ds, k, e, n, 0);
    }
  }

  lemma CommitTail(ds: seq<Dirent>, k: nat, e: Dirent)
    requires TailZero(ds) && MayTake(ds, k, e)
    ensures TailZero(ds[k := e])
  {
    TakeFirstByte(ds, k, e);
  }

  /** Every other file keeps its entry, chain and contents across the commit. */
  lemma CommitOther(g: Geo, v: Vol, w: Vol, rc: seq<nat>, e: Dirent, f: Dirent, cs: seq<nat>)
    requires Inv(g, v) && Fits(g, w) && rc == RootChain(g, v) && FileOk(g, v, rc, f)
    requires forall x :: x !in rc ==> Keeps(g, v, w, x)
    requires forall x :: x in cs ==> x !in ChainOf(g, v, First(f))
    ensures FileOk(g, w, rc, f) && ChainOf(g, w, First(f)) == ChainOf(g, v, First(f))
    ensures Content(g, w, f) == Content(g, v, f) && Disjoint(cs, ChainOf(g, w, First(f)))
            && Disjoint(ChainOf(g, w, First(f)), cs)
  {
    FileFrame(g, v, w, rc, f);
  }

  /** The new file's entry, chain and contents as the commit leaves them. */
  lemma CommitNew(g: Geo, v: Vol, w: Vol, rc: seq<nat>, e: Dirent, cs: seq<nat>)
    requires Inv(g, v) && Fits(g, w) && rc == RootChain(g, v)
    requires FreshChain(g, v, First(e), cs) && AllInRange(g, cs) && Size(e) <= SECTOR_SIZE * |Sectors(g, v, cs)|
    requires forall x :: x !in rc ==> Keeps(g, v, w, x)
    ensures FileOk(g, w, rc, e) && ChainOf(g, w, First(e)) == cs
    ensures Content(g, w, e) == Join(Sectors(g, v, cs))[..Size(e)]
  {
    forall x | x in cs ensures x !in rc && Keeps(g, v, w, x) { assert !Reach(g, v, x); }
    ChainFrame(g, v, w, First(e), cs);
    ChainUnique(g, w, First(e), ChainOf(g, w, First(e)), cs);
    SectorsFrame(g, v, w, cs);
  }

  lemma FreshApart(g: Geo, v: Vol, c: nat, cs: seq<nat>, j: nat)
    requires Inv(g, v) && FreshChain(g, v, c, cs) && j < |Root(g, v)| && Live(Root(g, v)[j])
    ensures forall x :: x in cs ==> x !in ChainOf(g, v, First(Root(g, v)[j]))
  {
    forall x | x in cs ensures x !in ChainOf(g, v, First(Root(g, v)[j])) { assert !Reach(g, v, x); }
  }

  lemma CommitDirOk(g: Geo, v: Vol, w: Vol, k: nat, e: Dirent, cs: seq<nat>)
    requires Inv(g, v) && Committed(g, v, w, k, e) && MayTake(Root(g, v), k, e)
    requires FreshChain(g, v, First(e), cs) && AllInRange(g, cs) && Size(e) <= SECTOR_SIZE * |Sectors(g, v, cs)|
    ensures Inv(g, w)
    ensures FileOk(g, w, RootChain(g, v), e) && ChainOf(g, w, First(e)) == cs
    ensures Content(g, w, e) == Join(Sectors(g, v, cs))[..Size(e)]
    ensures forall j :: 0 <= j < |Root(g, v)| && j != k && Live(Root(g, v)[j]) ==>
              && FileOk(g, w, RootChain(g, v), Root(g, v)[j])
              && ChainOf(g, w, First(Root(g, v)[j])) == ChainOf(g, v, First(Root(g, v)[j]))
              && Content(g, w, Root(g, v)[j]) == Content(g, v, Root(g, v)[j])
  {
    var rc, ds := RootChain(g, v), Root(g, v);
    CommitTail(ds, k, e);
    CommitNew(g, v, w, rc, e, cs);
    forall j | 0 <= j < |ds| && j != k && Live(ds[j])
      ensures FileOk(g, w, rc, ds[j]) && ChainOf(g, w, First(ds[j])) == ChainOf(g, v, First(ds[j]))
      ensures Content(g, w, ds[j]) == Content(g, v, ds[j]) && Apart(g, w, e, ds[j]) && Apart(g, w, ds[j], e)
    {
      FreshApart(g, v, First(e), cs, j);
      CommitOther(g, v, w, rc, e, ds[j], cs);
    }
    CommitApart(g, v, w, ds, ds[k := e], k, e);
  }

  lemma CommitApart(g: Geo, v: Vol, w: Vol, ds: seq<Dirent>, dw: seq<Dirent>, k: nat, e: Dirent)
    requires Inv(g, v) && Fits(g, w) && ds == Root(g, v) && k < |ds| && dw == ds[k := e] && HasChain(g, w, First(e))
    requires forall j :: 0 <= j < |ds| && j != k && Live(ds[j]) ==>
               && HasChain(g, w, First(ds[j])) && ChainOf(g, w, First(ds[j])) == ChainOf(g, v, First(ds[j]))
               && Apart(g, w, e, ds[j]) && Apart(g, w, ds[j], e)
    ensures forall a, b :: 0 <= a < |dw| && 0 <= b < |dw| && a != b && Live(dw[a]) && Live(dw[b]) ==>
              HasChain(g, w, First(dw[a])) && HasChain(g, w, First(dw[b])) && Apart(g, w, dw[a], dw[b])
  {
    forall a, b | 0 <= a < |dw| && 0 <= b < |dw| && a != b && Live(dw[a]) && Live(dw[b])
      ensures HasChain(g, w, First(dw[a])) && HasChain(g, w, First(dw[b])) && Apart(g, w, dw[a], dw[b])
    {
      if a != k && b != k { assert Apart(g, v, ds[a], ds[b]); }
    }
  }

  /** The commit keeps the invariant. With a live entry it replaces exactly the entry's file;
      an entry whose name starts with 0xE5 reads as deleted, and changes no file. */
  lemma CommitFiles(g: Geo, v: Vol, w: Vol, k: nat, e: Dirent, cs: seq<nat>)
    requires Inv(g, v) && Committed(g, v, w, k, e) && MayTake(Root(g, v), k, e)
    requires e[11] % 0x10 != 0x0F && e[11] / 8 % 2 == 0
    requires FreshChain(g, v, First(e), cs) && AllInRange(g, cs) && Size(e) <= SECTOR_SIZE * |Sectors(g, v, cs)|
    ensures Inv(g, w)
    ensures if e[0] != 0xE5 then Replaced(g, v, w, e[..11], Join(Sectors(g, v, cs))[..Size(e)]) else SameFiles(g, v, w)
  {
    var ds := Root(g, v);
    CommitDirOk(g, v, w, k, e, cs);
    TakeFirstByte(ds, k, e);
    forall n ensures Lookup(g, w, n) == if Live(e) && n == e[..11] then Some(Content(g, w, e)) else Lookup(g, v, n) {
      CommitFind(ds, k, e, n);
    }
  }

  /** The chain the commit takes out of the directory. */
  ghost function OldChain(g: Geo, v: Vol, k: nat): (o: seq<nat>)
    requires Inv(g, v) && k < |Root(g, v)|
    ensures AllInRange(g, o) && forall x :: x in o ==> Reach(g, v, x)
  {
    if Live(Root(g, v)[k]) then ChainOf(g, v, First(Root(g, v)[k])) else []
  }

  /** Exactly the old chain leaves the live clusters, and exactly the new one joins them. */
  lemma CommitReach(g: Geo, v: Vol, w: Vol, k: nat, e: Dirent, cs: seq<nat>)
    requires Inv(g, v) && Committed(g, v, w, k, e) && MayTake(Root(g, v), k, e)
    requires FreshChain(g, v, First(e), cs) && AllInRange(g, cs) && Size(e) <= SECTOR_SIZE * |Sectors(g, v, cs)|
    ensures Inv(g, w)
    ensures forall x :: Reach(g, w, x) <==> (Reach(g, v, x) && x !in OldChain(g, v, k)) || (Live(e) && x in cs)
  {
    var rc, ds := RootChain(g, v), Root(g, v);
    CommitDirOk(g, v, w, k, e, cs);
    forall x ensures Reach(g, w, x) <==> (Reach(g, v, x) && x !in OldChain(g, v, k)) || (Live(e) && x in cs) {
      if Reach(g, v, x) && x !in rc {
        var j :| 0 <= j < |ds| && Live(ds[j]) && x in ChainOf(g, v, First(ds[j]));
        if j != k {
          assert Root(g, w)[j] == ds[j];
          if Live(ds[k]) { assert Apart(g, v, ds[j], ds[k]); }
        }
      }
      if Reach(g, w, x) && x !in rc {
        var j :| 0 <= j < |Root(g, w)| && Live(Root(g, w)[j]) && x in ChainOf(g, w, First(Root(g, w)[j]));
        if j != k {
          assert Root(g, w)[j] == ds[j];
          if Live(ds[k]) { assert Apart(g, v, ds[j], ds[k]); }
        }
      }
      if x in cs && Live(e) { assert Root(g, w)[k] == e; }
      if Live(ds[k]) { assert FileOk(g, v, rc, ds[k]); }
    }
  }
}
