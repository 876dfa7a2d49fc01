/** The build loop of a save, one sector write at a time. */
module FatBuild {
  import opened Wrappers
  import opened Bytes
  import opened FatLayout
  import opened FatFrame
  import opened FatCommit
  import opened FatSave

  ghost predicate NoDup(n: seq<nat>) {
    forall a, b :: 0 <= a < b < |n| ==> n[a] != n[b]
  }

  /** The state between two turns of the loop: n is taken, linked, and filled. */
  ghost predicate Built(g: Geo, v: Vol, w: Vol, n: seq<nat>, data: seq<byte>) {
    Building(g, v, w, n, n) && NoDup(n) && Linked(g, w, n) && Blocks(Sectors(g, w, n), data)
  }

  /** A first part of n is in use and nothing else has changed that v uses. */
  ghost predicate BuildingPrefix(g: Geo, v: Vol, w: Vol, n: seq<nat>) {
    exists j {:trigger n[..j]} :: 0 <= j <= |n| && Building(g, v, w, n[..j], n)
  }

  lemma BuiltNothing(g: Geo, v: Vol, data: seq<byte>)
    requires Fits(g, v)
    ensures Built(g, v, v, [], data)
  {}

  lemma BuildingWhole(g: Geo, v: Vol, w: Vol, n: seq<nat>)
    requires Building(g, v, w, n, n)
    ensures BuildingPrefix(g, v, w, n)
  {
    assert n[..|n|] == n;
  }

  lemma PrefixGrows(g: Geo, v: Vol, w: Vol, n: seq<nat>, c: nat)
    requires BuildingPrefix(g, v, w, n) && Fits(g, v) && g.InRange(c) && Next(v, c) == 0
    ensures BuildingPrefix(g, v, w, n + [c])
  {
    var j :| 0 <= j <= |n| && Building(g, v, w, n[..j], n);
    assert (n + [c])[..j] == n[..j];
    assert Building(g, v, w, (n + [c])[..j], n + [c]);
  }

  lemma FatPutFits(g: Geo, v: Vol, c: nat, x: nat)
    requires Fits(g, v) && c < |v.fat| * 128
    ensures Fits(g, FatPut(v, c, x))
    ensures forall d :: g.InRange(d) ==> Cluster(g, FatPut(v, c, x), d) == Cluster(g, v, d)
    ensures forall d: nat :: d < |v.fat| * 128 ==>
              Raw(FatPut(v, c, x), d) == if d == c then Merge(Raw(v, c), x) else Raw(v, d)
  {
    forall d: nat | d < |v.fat| * 128
      ensures Raw(FatPut(v, c, x), d) == if d == c then Merge(Raw(v, c), x) else Raw(v, d) {
      FatPutRaw(v, c, x, d);
    }
  }

  lemma FreeInBoth(g: Geo, v: Vol, w: Vol, n: seq<nat>, c: nat)
    requires Building(g, v, w, n, n) && g.InRange(c) && Next(w, c) == 0
    ensures c !in n && Next(v, c) == 0
  {}

  /** The free cluster c is marked as the end of a chain. */
  lemma AllocStep(g: Geo, v: Vol, w: Vol, n: seq<nat>, c: nat)
    requires Building(g, v, w, n, n) && NoDup(n) && g.InRange(c) && Next(w, c) == 0
    ensures Building(g, v, FatPut(w, c, LAST), n + [c], n + [c]) && NoDup(n + [c])
    ensures Next(FatPut(w, c, LAST), c) == LAST
    ensures forall d: nat :: g.InRange(d) && d != c ==> Next(FatPut(w, c, LAST), d) == Next(w, d)
  {
    FatPutFits(g, w, c, LAST);
    FreeInBoth(g, v, w, n, c);
  }

  /** Rewriting the entry of a cluster that is being built keeps it in use. */
  lemma RelinkStep(g: Geo, v: Vol, u: Vol, m: seq<nat>, p: nat, x: nat)
    requires Building(g, v, u, m, m) && p in m && g.InRange(p) && 0 < x < ENTRY
    ensures Building(g, v, FatPut(u, p, x), m, m) && Next(FatPut(u, p, x), p) == x
    ensures forall d: nat :: g.InRange(d) && d != p ==> Next(FatPut(u, p, x), d) == Next(u, d)
  {
    FatPutFits(g, u, p, x);
  }

  /** The previous cluster is linked to c. */
  lemma LinkStep(g: Geo, v: Vol, u: Vol, n: seq<nat>, c: nat, m: seq<nat>, p: nat)
    requires n != [] && p == n[|n| - 1] && m == n + [c] && NoDup(m) && Building(g, v, u, m, m)
    requires g.InRange(c) && Next(u, c) == LAST
    requires Links(g, u, n)
    ensures Building(g, v, FatPut(u, p, c), m, m) && Linked(g, FatPut(u, p, c), m)
  {
    assert m[|n| - 1] == p && m[|n|] == c;
    RelinkStep(g, v, u, m, p, c);
    var w := FatPut(u, p, c);
    forall j | 0 <= j < |m| - 1 ensures Next(w, m[j]) == m[j + 1] {
      if j < |n| - 1 {
        assert m[j] == n[j] && m[j] != m[|n| - 1];
      }
    }
  }

  /** Only the contents of cluster c have changed. */
  ghost predicate OnlyCluster(g: Geo, v: Vol, w: Vol, c: nat) {
    && Fits(g, v) && Fits(g, w) && w.fat == v.fat && |w.data| == |v.data|
    && forall x: nat :: g.InRange(x) && x != c ==> Cluster(g, w, x) == Cluster(g, v, x)
  }

  lemma PutSector(g: Geo, v: Vol, u: Vol, c: nat, s: nat, sec: Sector)
    requires OnlyCluster(g, v, u, c) && g.InRange(c) && s < g.spc
    ensures Base(g, c) + s < |u.data|
    ensures OnlyCluster(g, v, DataPut(u, Base(g, c) + s, sec), c)
    ensures Cluster(g, DataPut(u, Base(g, c) + s, sec), c) == Cluster(g, u, c)[s := sec]
  {
    BaseFits(g, u, c);
    forall x: nat | g.InRange(x)
      ensures Cluster(g, DataPut(u, Base(g, c) + s, sec), x) ==
                if x == c then Cluster(g, u, c)[s := sec] else Cluster(g, u, x)
    {
      DataPutCluster(g, u, c, s, sec, x);
    }
  }

  lemma FillStep(g: Geo, v: Vol, u: Vol, w: Vol, n: seq<nat>, c: nat)
    requires Building(g, v, u, n, n) && c in n && OnlyCluster(g, u, w, c)
    ensures Building(g, v, w, n, n)
    ensures Linked(g, u, n) ==> Linked(g, w, n)
  {}

  /** c has joined the chain, and is still to be filled; w is the state before the turn. */
  ghost predicate Taken(g: Geo, v: Vol, w: Vol, u: Vol, n: seq<nat>, c: nat) {
    && Fits(g, w) && AllInRange(g, n) && g.InRange(c)
    && Building(g, v, u, n + [c], n + [c]) && NoDup(n + [c]) && Linked(g, u, n + [c])
    && forall x :: g.InRange(x) ==> Cluster(g, u, x) == Cluster(g, w, x)
  }

  /** The first cluster of a chain is allocated. */
  lemma TakeFirst(g: Geo, v: Vol, w: Vol, c: nat)
    requires Building(g, v, w, [], []) && g.InRange(c) && Next(w, c) == 0
    ensures Taken(g, v, w, FatPut(w, c, LAST), [], c)
  {
    AllocStep(g, v, w, [], c);
    FatPutFits(g, w, c, LAST);
  }

  /** A further cluster is allocated and linked to the one before it. */
  lemma TakeNext(g: Geo, v: Vol, w: Vol, n: seq<nat>, c: nat)
    requires n != [] && Building(g, v, w, n, n) && NoDup(n) && Linked(g, w, n) && g.InRange(c) && Next(w, c) == 0
    ensures BuildingPrefix(g, v, FatPut(w, c, LAST), n + [c])
    ensures Taken(g, v, w, FatPut(FatPut(w, c, LAST), n[|n| - 1], c), n, c)
  {
    AllocStep(g, v, w, n, c);
    var u := FatPut(w, c, LAST);
    BuildingWhole(g, v, u, n + [c]);
    FatPutFits(g, w, c, LAST);
    FreeInBoth(g, v, w, n, c);
    LinkStep(g, v, u, n, c, n + [c], n[|n| - 1]);
    FatPutFits(g, u, n[|n| - 1], c);
  }

  lemma TakenPrefix(g: Geo, v: Vol, w: Vol, u: Vol, n: seq<nat>, c: nat, x: Vol)
    requires Taken(g, v, w, u, n, c) && OnlyCluster(g, u, x, c)
    ensures BuildingPrefix(g, v, x, n + [c])
  {
    assert c in n + [c];
    FillStep(g, v, u, x, n + [c], c);
    BuildingWhole(g, v, x, n + [c]);
  }

  lemma OnlySelf(g: Geo, v: Vol, c: nat)
    requires Fits(g, v)
    ensures OnlyCluster(g, v, v, c)
  {}

  /** The turn is complete: c holds its blocks of the data. */
  lemma TurnDone(g: Geo, v: Vol, w0: Vol, u: Vol, w: Vol, n: seq<nat>, c: nat, data: seq<byte>)
    requires Taken(g, v, w0, u, n, c) && OnlyCluster(g, u, w, c) && Blocks(Sectors(g, w0, n), data)
    requires forall s :: 0 <= s < g.spc ==> Cluster(g, w, c)[s] == Block(data, |Sectors(g, w0, n)| + s)
    ensures Built(g, v, w, n + [c], data)
  {
    hide Building, Blocks, Block, Cluster, NoDup, OnlyCluster, Linked, Sectors;
    var m := n + [c];
    assert c in m;
    FillStep(g, v, u, w, m, c);
    OldSectors(g, w0, u, w, n, c);
    LastSectors(g, w, n, c);
    BlocksAppend(Sectors(g, w0, n), Cluster(g, w, c), data);
  }

  lemma LastSectors(g: Geo, w: Vol, n: seq<nat>, c: nat)
    requires Fits(g, w) && AllInRange(g, n) && g.InRange(c)
    ensures AllInRange(g, n + [c]) && Sectors(g, w, n + [c]) == Sectors(g, w, n) + Cluster(g, w, c)
  {
    assert (n + [c])[..|n + [c]| - 1] == n;
  }

  lemma OldSectors(g: Geo, w0: Vol, u: Vol, w: Vol, n: seq<nat>, c: nat)
    requires OnlyCluster(g, u, w, c) && Fits(g, w0) && AllInRange(g, n) && NoDup(n + [c])
    requires forall x :: x in n && g.InRange(x) ==> Cluster(g, u, x) == Cluster(g, w0, x)
    ensures Sectors(g, w, n) == Sectors(g, w0, n)
  {
    forall x | x in n && g.InRange(x) ensures Cluster(g, w, x) == Cluster(g, w0, x) {
      var a :| 0 <= a < |n| && n[a] == x;
      assert (n + [c])[a] == x && (n + [c])[|n|] == c;
    }
    SectorsFrame(g, w0, w, n);
  }

  lemma BlocksAppend(a: seq<Sector>, b: seq<Sector>, data: seq<byte>)
    requires Blocks(a, data) && forall s :: 0 <= s < |b| ==> b[s] == Block(data, |a| + s)
    ensures Blocks(a + b, data)
  {
    forall q | 0 <= q < |a + b| ensures (a + b)[q] == Block(data, q) {
      if q >= |a| { assert (a + b)[q] == b[q - |a|]; }
    }
  }

  // ---- How many clusters ----

  /** Clusters that len bytes take. */
  function ClustersFor(g: Geo, len: nat): (c: nat)
    requires g.spc >= 1
  {
    (len + g.spc * SECTOR_SIZE - 1) / (g.spc * SECTOR_SIZE)
  }

  lemma Quotient(x: nat, b: nat)
    requires b > 0
    ensures x / b * b <= x < x / b * b + b
  {}

  lemma DivLeast(len: nat, b: nat, k: nat)
    requires b > 0
    ensures (len + b - 1) / b <= k <==> len <= Times(k, b)
  {
    var c := (len + b - 1) / b;
    Quotient(len + b - 1, b);
    TimesIsProduct(c, b);
    if c < k {
      TimesGap(c, k, b);
    } else if k < c {
      TimesGap(k, c, b);
    }
  }

  lemma {:induction false} TimesSectors(k: nat, spc: nat)
    ensures Times(k, spc * SECTOR_SIZE) == SECTOR_SIZE * Times(k, spc)
  {
    if k > 0 { TimesSectors(k - 1, spc); }
  }

  /** It is the least number of clusters that holds len bytes. */
  lemma ClustersLeast(g: Geo, len: nat, k: nat)
    requires g.spc >= 1
    ensures ClustersFor(g, len) <= k <==> len <= SECTOR_SIZE * Times(k, g.spc)
  {
    TimesSectors(k, g.spc);
    DivLeast(len, g.spc * SECTOR_SIZE, k);
  }

  /** So they hold the data, and less than a cluster is left over. */
  lemma ClustersEnough(g: Geo, len: nat)
    requires g.spc >= 1
    ensures len <= SECTOR_SIZE * Times(ClustersFor(g, len), g.spc) < len + SECTOR_SIZE * g.spc
  {
    var c := ClustersFor(g, len);
    ClustersLeast(g, len, c);
    if c > 0 {
      ClustersLeast(g, len, c - 1);
    }
  }

  /** Every cluster the loop took was free, so it succeeds exactly when enough are free. */
  lemma TakenFromFree(g: Geo, v: Vol, w: Vol, n: seq<nat>)
    requires Building(g, v, w, n, n) && NoDup(n)
    ensures SetOf(n) <= Free(g, v) && |SetOf(n)| == |n|
    ensures Free(g, w) == {} ==> |Free(g, v)| == |n|
    ensures |n| <= |Free(g, v)|
  {
    SetOfSize(n);
    SubsetSize(SetOf(n), Free(g, v));
    if Free(g, w) == {} {
      forall x | x in Free(g, v) ensures x in n {
        assert x !in Free(g, w);
      }
      assert SetOf(n) == Free(g, v);
    }
  }

  lemma {:induction false} SetOfSize(n: seq<nat>)
    requires NoDup(n)
    ensures |SetOf(n)| == |n|
    decreases |n|
  {
    if n != [] {
      var front := n[..|n| - 1];
      SetOfSize(front);
      assert SetOf(n) == SetOf(front) + {n[|n| - 1]};
    }
  }

  lemma {:induction false} SubsetSize(a: set<nat>, b: set<nat>)
    requires a <= b
    ensures |a| <= |b|
  {
    assert b == a + (b - a);
  }

  lemma BuiltLength(g: Geo, v: Vol, w: Vol, n: seq<nat>, data: seq<byte>)
    requires Built(g, v, w, n, data)
    ensures Fits(g, w) && AllInRange(g, n) && |Sectors(g, w, n)| == Times(|n|, g.spc)
  {
    SectorsLength(g, w, n);
  }

  lemma BuiltCount(g: Geo, v: Vol, w: Vol, n: seq<nat>, data: seq<byte>)
    requires Built(g, v, w, n, data)
    ensures |n| <= |Free(g, v)| && (Free(g, w) == {} ==> |Free(g, v)| == |n|)
  {
    TakenFromFree(g, v, w, n);
  }

  lemma BuiltNonzero(g: Geo, v: Vol, w: Vol, n: seq<nat>, data: seq<byte>)
    requires Built(g, v, w, n, data)
    ensures forall i :: 0 <= i < |n| ==> n[i] >= 2
  {}
}
