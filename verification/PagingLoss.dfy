/** What goes wrong at a place that is not reserved: a second mapping there drops the first. */
module PagingLoss {
  import opened Wrappers
  import opened Bytes
  import opened PageTables
  import opened PagingSteps
  import opened Paging

  /** The private tables on the way to v. */
  ghost predicate WayTo(m: Memory, root: nat, pdpt: nat, pd: nat, v: nat) {
    && root in m && pdpt in m && pd in m && pdpt != 0 && pd != 0
    && m[root][Index(v, 0)] == Pte(pdpt, TABLE) && m[pdpt][Index(v, 1)] == Pte(pd, TABLE)
  }

  /** Neither has the frame of the kernel's entry. */
  ghost predicate Own(m: Memory, kroot: nat, root: nat, pdpt: nat, pd: nat, v: nat) {
    && !SameFrame(m, Some(kroot), Index(v, 0), Pte(pdpt, TABLE))
    && !SameFrame(m, KernelBelow(m, Some(kroot), Index(v, 0)), Index(v, 1), Pte(pd, TABLE))
  }

  /** The kernel maps a 2 MiB page from frame f on at v. */
  ghost predicate KernelMaps(m: Memory, kroot: nat, v: nat, f: nat) {
    var k := KernelDirectory(m, kroot, v);
    k.Some? && k.value in m && m[k.value][Index(v, 2)].flags.present && m[k.value][Index(v, 2)].frame == f
  }

  lemma DirectoryStays(s: Space, kroot: nat, root: nat, pdpt: nat, pd: nat, v: nat)
    requires WayTo(s.m, root, pdpt, pd, v) && Own(s.m, kroot, root, pdpt, pd, v)
    ensures Directory(s, kroot, root, v) == (s, pd)
  {}

  /** A page table is put on the lowest free page c, and the leaf in it. */
  function Placed(s: Space, pd: nat, v: nat, c: nat, e: Pte): (t: Space)
    requires pd in s.m && c < |s.used|
  {
    Space(s.m[c := Zero()[Index(v, 3) := e]][pd := s.m[pd][Index(v, 2) := Pte(c, TABLE)]], s.used[c := true])
  }

  lemma MapPlaces(s: Space, kroot: nat, root: nat, pdpt: nat, pd: nat, v: nat, c: nat, e: Pte)
    requires WayTo(s.m, root, pdpt, pd, v) && Own(s.m, kroot, root, pdpt, pd, v) && c == Lowest(s.used, 0) != 0
             && c !in s.m
    requires var x := s.m[pd][Index(v, 2)];
             !x.flags.present || x.flags.ps || SameFrame(s.m, KernelDirectory(s.m, kroot, v), Index(v, 2), x)
    ensures MapPage(s, kroot, root, v, e) == Placed(s, pd, v, c, e)
  {
    hide Directory, KernelDirectory, Lowest;
    DirectoryStays(s, kroot, root, pdpt, pd, v);
    var (t, p) := Descent(s, kroot, root, v);
    assert p == c && t.m[c] == Zero();
    assert t.m[c := t.m[c][Index(v, 3) := e]] == Placed(s, pd, v, c, e).m;
  }

  lemma WalkPlaced(s: Space, root: nat, pdpt: nat, pd: nat, v: nat, c: nat, e: Pte, x: nat, write: bool)
    requires WayTo(s.m, root, pdpt, pd, v) && c < |s.used| && c !in s.m && root != pd && pdpt != pd
    requires Index(x, 0) == Index(v, 0) && Index(x, 1) == Index(v, 1) && Index(x, 2) == Index(v, 2)
    ensures Walk(Placed(s, pd, v, c, e).m, root, x, 0, write) ==
              if Index(x, 3) == Index(v, 3) then LeafView(e, write) else None
  {
    hide Index;
    var n := Placed(s, pd, v, c, e).m;
    assert n[root] == s.m[root] && n[pdpt] == s.m[pdpt] && n[pd][Index(v, 2)] == Pte(c, TABLE);
    assert Walk(n, c, x, 3, write) == if Index(x, 3) == Index(v, 3) then LeafView(e, write) else None;
    assert Walk(n, pd, x, 2, write) == Walk(n, c, x, 3, write);
    assert Walk(n, pdpt, x, 1, write) == Walk(n, pd, x, 2, write);
    assert Walk(n, root, x, 0, write) == Walk(n, pdpt, x, 1, write);
  }

  /** The tables of the kernel that are looked up on the way to v. */
  ghost predicate KernelPath(m: Memory, kroot: nat, v: nat, pd: nat) {
    var k1, k2 := KernelBelow(m, Some(kroot), Index(v, 0)), KernelDirectory(m, kroot, v);
    && kroot in m && kroot != pd
    && (k1.Some? ==> k1.value in m && k1.value != pd)
    && (k2.Some? ==> k2.value in m && k2.value != pd)
  }

  /** The first mapping leaves all of this as it is, and a page table on frame f. */
  lemma AfterFirst(s: Space, kroot: nat, root: nat, pdpt: nat, pd: nat, v: nat, f: nat, e: Pte)
    requires WayTo(s.m, root, pdpt, pd, v) && Own(s.m, kroot, root, pdpt, pd, v) && KernelPath(s.m, kroot, v, pd)
    requires KernelMaps(s.m, kroot, v, f) && root != pd && pdpt != pd && f < |s.used| && f !in s.m
    ensures var n := Placed(s, pd, v, f, e).m;
            && WayTo(n, root, pdpt, pd, v) && Own(n, kroot, root, pdpt, pd, v)
            && n[pd][Index(v, 2)] == Pte(f, TABLE)
            && SameFrame(n, KernelDirectory(n, kroot, v), Index(v, 2), Pte(f, TABLE))
  {
    hide Index;
    var n := Placed(s, pd, v, f, e).m;
    var k1, k2 := KernelBelow(s.m, Some(kroot), Index(v, 0)), KernelDirectory(s.m, kroot, v);
    assert n[kroot] == s.m[kroot] && n[root] == s.m[root] && n[pdpt] == s.m[pdpt];
    assert KernelBelow(n, Some(kroot), Index(v, 0)) == k1;
    assert k1.Some? ==> n[k1.value] == s.m[k1.value];
    assert KernelDirectory(n, kroot, v) == k2 && n[k2.value] == s.m[k2.value];
  }

  lemma TwoMappings(s: Space, kroot: nat, root: nat, pdpt: nat, pd: nat, v: nat, w: nat, f: nat, c: nat, e1: Pte,
                    e2: Pte)
    requires WayTo(s.m, root, pdpt, pd, v) && Own(s.m, kroot, root, pdpt, pd, v) && KernelPath(s.m, kroot, v, pd)
    requires KernelMaps(s.m, kroot, v, f) && root != pd && pdpt != pd
    requires var x := s.m[pd][Index(v, 2)];
             !x.flags.present || x.flags.ps || SameFrame(s.m, KernelDirectory(s.m, kroot, v), Index(v, 2), x)
    requires f == Lowest(s.used, 0) != 0 && f !in s.m && c == Lowest(s.used[f := true], 0) != 0 && c !in s.m
    requires Index(w, 0) == Index(v, 0) && Index(w, 1) == Index(v, 1) && Index(w, 2) == Index(v, 2)
             && Index(w, 3) != Index(v, 3)
    ensures Dropped(s, kroot, root, v, e1, w, e2)
  {
    hide Index, Lowest, MapPage, Own, WayTo, KernelPath, KernelMaps, SameFrame, KernelDirectory;
    assert root in s.m && pd in s.m && Own(s.m, kroot, root, pdpt, pd, v) by { Ways(s.m, root, pdpt, pd, v); }
    var s1 := Placed(s, pd, v, f, e1);
    MapPlaces(s, kroot, root, pdpt, pd, v, f, e1);
    AfterFirst(s, kroot, root, pdpt, pd, v, f, e1);
    SameWay(s1.m, kroot, root, pdpt, pd, v, w);
    MapPlaces(s1, kroot, root, pdpt, pd, w, c, e2);
    forall write
      ensures Walk(MapPage(s, kroot, root, v, e1).m, root, v, 0, write) == LeafView(e1, write)
      ensures Walk(MapPage(s1, kroot, root, w, e2).m, root, v, 0, write) == None
      ensures Walk(MapPage(s1, kroot, root, w, e2).m, root, w, 0, write) == LeafView(e2, write)
    {
      WalkPlaced(s, root, pdpt, pd, v, f, e1, v, write);
      WalkPlaced(s1, root, pdpt, pd, w, c, e2, v, write);
      WalkPlaced(s1, root, pdpt, pd, w, c, e2, w, write);
    }
  }

  lemma Ways(m: Memory, root: nat, pdpt: nat, pd: nat, v: nat)
    requires WayTo(m, root, pdpt, pd, v)
    ensures root in m && pd in m
  {}

  lemma SameWay(m: Memory, kroot: nat, root: nat, pdpt: nat, pd: nat, v: nat, w: nat)
    requires Index(w, 0) == Index(v, 0) && Index(w, 1) == Index(v, 1) && Index(w, 2) == Index(v, 2)
    ensures WayTo(m, root, pdpt, pd, w) == WayTo(m, root, pdpt, pd, v)
    ensures Own(m, kroot, root, pdpt, pd, w) == Own(m, kroot, root, pdpt, pd, v)
    ensures KernelDirectory(m, kroot, w) == KernelDirectory(m, kroot, v)
  {}

  /** Page v is mapped, then page w; after that v shows nothing. */
  ghost predicate Dropped(s: Space, kroot: nat, root: nat, v: nat, e1: Pte, w: nat, e2: Pte)
    requires root in s.m
  {
    var s1 := MapPage(s, kroot, root, v, e1);
    var s2 := MapPage(s1, kroot, root, w, e2);
    forall write ::
      && Walk(s1.m, root, v, 0, write) == LeafView(e1, write)
      && Walk(s2.m, root, v, 0, write) == None && Walk(s2.m, root, w, 0, write) == LeafView(e2, write)
  }

  /** Others have taken every free page below f. */
  function Crowded(used: seq<bool>, f: nat): (r: seq<bool>)
    ensures |r| == |used| && forall i :: 0 <= i < |used| ==> r[i] == (used[i] || i < f)
  {
    seq(|used|, i requires 0 <= i < |used| => used[i] || i < f)
  }

  lemma PrivateWay(m: Memory, kroot: nat, ks: set<nat>, tree: Tree, root: nat, pd: nat, v: nat) returns (pdpt: nat)
    requires TreeOk(m, kroot, ks, tree, root) && pd in tree && tree[pd] == [Index(v, 0), Index(v, 1)] && kroot in ks
             && 0 !in m
    ensures WayTo(m, root, pdpt, pd, v) && Own(m, kroot, root, pdpt, pd, v) && KernelPath(m, kroot, v, pd)
    ensures root != pd && pdpt != pd
            && KernelDirectory(m, kroot, v) == KernelTable(m, kroot, [Index(v, 0), Index(v, 1)])
  {
    hide EntryOk, NoShadow, Index;
    assert Hangs(m, tree, pd);
    assert tree[pd][..1] == [Index(v, 0)];
    pdpt :| pdpt in tree && pdpt in m && tree[pdpt] == [Index(v, 0)] && m[pdpt][Index(v, 1)] == Pte(pd, TABLE);
    assert Hangs(m, tree, pdpt) && tree[pdpt][..0] == [];
    assert m[root][Index(v, 0)] == Pte(pdpt, TABLE);
    KernelWay(m, kroot, ks, v);
    KernelWayIs(m, kroot, v);
    KernelInKs(m, kroot, ks, v);
  }

  lemma KernelInKs(m: Memory, kroot: nat, ks: set<nat>, v: nat)
    requires KernelOk(m, kroot, ks) && kroot in ks
    ensures var k := KernelTable(m, kroot, [Index(v, 0)]); k.Some? ==> k.value in ks
    ensures var k := KernelTable(m, kroot, [Index(v, 0), Index(v, 1)]); k.Some? ==> k.value in ks && k.value in m
  {}

  /** Where v is not reserved: in any address space whose tables down to the page directory are its own, once others
      have taken the free pages below the kernel's, mapping v and then a neighbour drops v. */
  lemma MappingLost(m: Memory, used: seq<bool>, kroot: nat, ks: set<nat>, tree: Tree, root: nat, pd: nat, v: nat,
                    w: nat,
                    e1: Pte, e2: Pte) returns (f: nat)
    requires TreeOk(m, kroot, ks, tree, root) && kroot in ks && 0 !in m && |used| > 0 && used[0]
    requires forall x :: x in m ==> x < |used| && used[x]
    requires pd in tree && tree[pd] == [Index(v, 0), Index(v, 1)]
             && (!m[pd][Index(v, 2)].flags.present || !m[pd][Index(v, 2)].flags.user)
    requires Index(w, 0) == Index(v, 0) && Index(w, 1) == Index(v, 1) && Index(w, 2) == Index(v, 2)
             && Index(w, 3) != Index(v, 3)
    requires !Reserved(m, kroot, used, v)
    ensures f < |used| && !used[f] && LooksShared(m, kroot, v, f)
    ensures (exists g :: f < g < |used| && !used[g]) ==> Dropped(Space(m, Crowded(used, f)), kroot, root, v, e1, w, e2)
  {
    hide TreeOk, Index, Hangs;
    var k :| KernelTable(m, kroot, Indices(v)[..2]) == Some(k) && k in m && m[k][Index(v, 2)].flags.present
             && m[k][Index(v, 2)].frame < |used| && !used[m[k][Index(v, 2)].frame];
    f := m[k][Index(v, 2)].frame;
    assert Indices(v)[..2] == [Index(v, 0), Index(v, 1)];
    if g :| f < g < |used| && !used[g] {
      var pdpt := PrivateWay(m, kroot, ks, tree, root, pd, v);
      TreeFacts(m, kroot, ks, tree, root);
      NotYetOwn(m, kroot, ks, tree, root, pd, v);
      var s := Space(m, Crowded(used, f));
      LowestIs(s.used, 0, f);
      var c := Lowest(s.used[f := true], 0);
      assert s.used[f := true][g] == false && s.used[f := true][0];
      TwoMappings(s, kroot, root, pdpt, pd, v, w, f, c, e1, e2);
    }
  }

  lemma NotYetOwn(m: Memory, kroot: nat, ks: set<nat>, tree: Tree, root: nat, pd: nat, v: nat)
    requires TreeOk(m, kroot, ks, tree, root) && pd in tree && tree[pd] == [Index(v, 0), Index(v, 1)] && kroot in ks
    requires !m[pd][Index(v, 2)].flags.present || !m[pd][Index(v, 2)].flags.user
    ensures !m[pd][Index(v, 2)].flags.present || m[pd][Index(v, 2)].flags.ps
  {
    hide Hangs, NoShadow, Index;
    assert EntryOk(m, kroot, tree, tree[pd], Index(v, 2), m[pd][Index(v, 2)]);
  }
}
