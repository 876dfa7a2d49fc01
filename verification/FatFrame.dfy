/** What one sector write does to the files: writes outside the live clusters change nothing,
    and rewriting one directory entry replaces one file. */
module FatFrame {
  import opened Bytes
  import opened FatLayout

  // ---- The two kinds of write ----

  function FatPut(v: Vol, c: nat, x: nat): (w: Vol)
    requires c < |v.fat| * 128
    ensures |w.fat| == |v.fat| && w.data == v.data
  {
    v.(fat := v.fat[c / 128 := Splice(v.fat[c / 128], c % 128 * 4, Le32(Merge(Raw(v, c), x)))])
  }

  /** An entry's new 32 bits: the reserved top four stay. */
  function Merge(cur: nat, value: nat): (x: nat)
    requires cur < 0x1_0000_0000
    ensures x < 0x1_0000_0000 && x % ENTRY == value % ENTRY && x / ENTRY == cur / ENTRY
  {
    cur / ENTRY * ENTRY + value % ENTRY
  }

  lemma FatPutRaw(v: Vol, c: nat, x: nat, d: nat)
    requires c < |v.fat| * 128 && d < |v.fat| * 128
    ensures Raw(FatPut(v, c, x), d) == if d == c then Merge(Raw(v, c), x) else Raw(v, d)
  {
    if d / 128 == c / 128 {
      SpliceU32(v.fat[c / 128], c % 128 * 4, Merge(Raw(v, c), x), d % 128 * 4);
    }
  }

  function DataPut(v: Vol, i: nat, s: Sector): (w: Vol)
    requires i < |v.data|
    ensures w.fat == v.fat && |w.data| == |v.data|
  {
    v.(data := v.data[i := s])
  }

  /** Sector s of cluster c is written: that cluster changes there, every other cluster stays. */
  lemma DataPutCluster(g: Geo, v: Vol, c: nat, s: nat, sec: Sector, d: nat)
    requires Fits(g, v) && g.InRange(c) && g.InRange(d) && s < g.spc
    ensures Base(g, c) + s < |v.data|
    ensures Fits(g, DataPut(v, Base(g, c) + s, sec))
    ensures Cluster(g, DataPut(v, Base(g, c) + s, sec), d)
         == if d == c then Cluster(g, v, c)[s := sec] else Cluster(g, v, d)
  {
    BaseFits(g, v, c);
    BaseFits(g, v, d);
    if d < c { TimesGap(d - 2, c - 2, g.spc); }
    if c < d { TimesGap(c - 2, d - 2, g.spc); }
  }

  // ---- Frames ----

  /** Cluster x has the same successor and the same contents. */
  ghost predicate Keeps(g: Geo, v: Vol, w: Vol, x: nat)
    requires Fits(g, v) && Fits(g, w)
  {
    g.InRange(x) ==> Next(w, x) == Next(v, x) && Cluster(g, w, x) == Cluster(g, v, x)
  }

  lemma {:induction false} ChainFrame(g: Geo, v: Vol, w: Vol, c: nat, cs: seq<nat>)
    requires Fits(g, v) && Fits(g, w) && IsChain(g, v, c, cs)
    requires forall x :: x in cs && g.InRange(x) ==> Next(w, x) == Next(v, x)
    ensures IsChain(g, w, c, cs)
    decreases |cs|
  {
    if cs != [] {
      assert cs[0] in cs;
      ChainFrame(g, v, w, Next(v, c), cs[1..]);
    }
  }

  lemma ChainOfFrame(g: Geo, v: Vol, w: Vol, c: nat)
    requires Fits(g, v) && Fits(g, w) && HasChain(g, v, c)
    requires forall x :: x in ChainOf(g, v, c) && g.InRange(x) ==> Next(w, x) == Next(v, x)
    ensures HasChain(g, w, c) && ChainOf(g, w, c) == ChainOf(g, v, c)
  {
    ChainFrame(g, v, w, c, ChainOf(g, v, c));
    ChainUnique(g, w, c, ChainOf(g, w, c), ChainOf(g, v, c));
  }

  lemma {:induction false} SectorsFrame(g: Geo, v: Vol, w: Vol, cs: seq<nat>)
    requires Fits(g, v) && Fits(g, w) && AllInRange(g, cs)
    requires forall x :: x in cs && g.InRange(x) ==> Cluster(g, w, x) == Cluster(g, v, x)
    ensures Sectors(g, w, cs) == Sectors(g, v, cs)
    decreases |cs|
  {
    if cs != [] {
      assert cs[|cs| - 1] in cs;
      SectorsFrame(g, v, w, cs[..|cs| - 1]);
    }
  }

  /** A file keeps its chain and its contents when its clusters do. */
  lemma FileFrame(g: Geo, v: Vol, w: Vol, rc: seq<nat>, e: Dirent)
    requires Fits(g, v) && Fits(g, w) && FileOk(g, v, rc, e)
    requires forall x :: x in ChainOf(g, v, First(e)) ==> Keeps(g, v, w, x)
    ensures FileOk(g, w, rc, e) && ChainOf(g, w, First(e)) == ChainOf(g, v, First(e))
    ensures Content(g, w, e) == Content(g, v, e)
  {
    var cs := ChainOf(g, v, First(e));
    ChainOfFrame(g, v, w, First(e));
    SectorsFrame(g, v, w, cs);
  }

  lemma RootFrame(g: Geo, v: Vol, w: Vol)
    requires RootOk(g, v) && Fits(g, w)
    requires forall x :: x in RootChain(g, v) ==> Keeps(g, v, w, x)
    ensures RootOk(g, w) && RootChain(g, w) == RootChain(g, v) && Root(g, w) == Root(g, v)
  {
    var rc := RootChain(g, v);
    assert IsChain(g, w, g.root, rc) by {
      forall x | x in rc && g.InRange(x) ensures Next(w, x) == Next(v, x) { assert Keeps(g, v, w, x); }
      ChainFrame(g, v, w, g.root, rc);
    }
    ChainUnique(g, w, g.root, RootChain(g, w), rc);
    assert Sectors(g, w, rc) == Sectors(g, v, rc) by {
      forall x | x in rc && g.InRange(x) ensures Cluster(g, w, x) == Cluster(g, v, x) { assert Keeps(g, v, w, x); }
      SectorsFrame(g, v, w, rc);
    }
  }

  /** Writes that leave every live cluster alone keep the invariant and every file. */
  lemma Frame(g: Geo, v: Vol, w: Vol)
    requires Inv(g, v) && Fits(g, w)
    requires forall x :: Reach(g, v, x) ==> Keeps(g, v, w, x)
    ensures Inv(g, w) && SameFiles(g, v, w)
    ensures Root(g, w) == Root(g, v) && forall x :: Reach(g, w, x) <==> Reach(g, v, x)
  {
    var rc, ds := RootChain(g, v), Root(g, v);
    RootFrame(g, v, w);
    forall k | 0 <= k < |ds| && Live(ds[k])
      ensures FileOk(g, w, rc, ds[k]) && ChainOf(g, w, First(ds[k])) == ChainOf(g, v, First(ds[k]))
      ensures Content(g, w, ds[k]) == Content(g, v, ds[k])
    {
      forall x | x in ChainOf(g, v, First(ds[k])) ensures Keeps(g, v, w, x) {
        assert Reach(g, v, x);
      }
      FileFrame(g, v, w, rc, ds[k]);
    }
    forall j, k | 0 <= j < |ds| && 0 <= k < |ds| && j != k && Live(ds[j]) && Live(ds[k])
      ensures Apart(g, w, ds[j], ds[k])
    {
      assert Apart(g, v, ds[j], ds[k]);
    }
  }
}
