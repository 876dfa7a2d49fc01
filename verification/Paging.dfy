/** Address spaces: cloning the kernel's PML4, mapping pages into a clone, and the checks on user pointers. */
module Paging {
  import opened Wrappers
  import opened Bytes
  import opened PageTables
  import opened PagingSteps
  import Pmm

  /** Nobody can be given the page where the kernel's 2 MiB page around v begins. */
  ghost predicate Reserved(m: Memory, kroot: nat, used: seq<bool>, v: nat) {
    forall k :: KernelTable(m, kroot, Indices(v)[..2]) == Some(k) && k in m && m[k][Index(v, 2)].flags.present ==>
      m[k][Index(v, 2)].frame < |used| ==> used[m[k][Index(v, 2)].frame]
  }

  /** The kernel maps physical memory one to one, in 2 MiB pages. */
  ghost predicate Identity(m: Memory, kroot: nat, v: nat) {
    forall k :: KernelTable(m, kroot, Indices(v)[..2]) == Some(k) && k in m && m[k][Index(v, 2)].flags.present ==>
      m[k][Index(v, 2)].frame == v / HUGE * (HUGE / PAGE)
  }

  /** Because pmm_init keeps [4 MiB, 8 MiB) back, every page of the app window may be mapped. */
  lemma WindowIsReserved(m: Memory, kroot: nat, used: seq<bool>, v: nat)
    requires Identity(m, kroot, v) && Pmm.WINDOW <= v < 2 * Pmm.WINDOW
    requires forall p :: Pmm.WINDOW / PAGE <= p < |used| && p < 2 * Pmm.WINDOW / PAGE ==> used[p]
    ensures Reserved(m, kroot, used, v)
  {}

  /** The kernel maps a 2 MiB page at v. */
  ghost predicate KernelPageAt(m: Memory, kroot: nat, v: nat) {
    exists k :: KernelTable(m, kroot, Indices(v)[..2]) == Some(k) && k in m && m[k][Index(v, 2)].flags.present
  }

  /** Elsewhere, the user's stack included, a page may be mapped exactly if the kernel maps nothing there, or no page is
      where its 2 MiB page begins, or that page is in use. */
  lemma ReservedExactly(m: Memory, kroot: nat, used: seq<bool>, v: nat)
    requires Identity(m, kroot, v)
    ensures Reserved(m, kroot, used, v) <==>
              (KernelPageAt(m, kroot, v) && v / HUGE * (HUGE / PAGE) < |used| ==> used[v / HUGE * (HUGE / PAGE)])
  {
    hide KernelTable, Indices, Index;
  }

  /** A page table on frame f would be taken for the kernel's entry at v, and replaced. */
  ghost predicate LooksShared(m: Memory, kroot: nat, v: nat, f: nat) {
    exists k :: KernelTable(m, kroot, Indices(v)[..2]) == Some(k) && k in m && m[k][Index(v, 2)].flags.present
        && m[k][Index(v, 2)].frame == f
  }

  /** No less will do: the next page table for v may come to stand on any free page, and it is then told apart from the
      kernel's entry on all of them exactly if v is reserved. */
  lemma ReservedIsNeeded(m: Memory, kroot: nat, used: seq<bool>, v: nat)
    ensures Reserved(m, kroot, used, v) <==> forall f: nat :: f < |used| && !used[f] ==> !LooksShared(m, kroot, v, f)
  {
    hide KernelTable, Indices, Index;
    if !Reserved(m, kroot, used, v) {
      var k :| KernelTable(m, kroot, Indices(v)[..2]) == Some(k) && k in m && m[k][Index(v, 2)].flags.present
               && m[k][Index(v, 2)].frame < |used| && !used[m[k][Index(v, 2)].frame];
      assert LooksShared(m, kroot, v, m[k][Index(v, 2)].frame);
    }
  }

  /** So the stack may be mapped on every machine with less than 3 GiB. */
  lemma StackIsReserved(m: Memory, kroot: nat, used: seq<bool>, v: nat)
    requires Identity(m, kroot, v) && STACK_LO <= v < STACK_HI
    ensures Reserved(m, kroot, used, v) <==> !KernelPageAt(m, kroot, v) || |used| <= 0xB_FE00 || used[0xB_FE00]
  {
    hide Reserved, KernelPageAt, Identity;
    assert v / HUGE == 0x5FF;
    ReservedExactly(m, kroot, used, v);
  }

  /** Two addresses have the same indices exactly when they are on the same page, 48 bits deep. */
  lemma SameIndices(v: nat, w: nat)
    ensures Indices(v) == Indices(w) <==> v / PAGE % 0x10_0000_0000 == w / PAGE % 0x10_0000_0000
  {
    hide Index;
    PageOfIndices(v);
    PageOfIndices(w);
    var a, b := Indices(v), Indices(w);
    assert a == b <==> a[0] == b[0] && a[1] == b[1] && a[2] == b[2] && a[3] == b[3];
    SameDigits(Index(v, 0), Index(v, 1), Index(v, 2), Index(v, 3), Index(w, 0), Index(w, 1), Index(w, 2), Index(w, 3));
  }

  lemma SameDigits(a: nat, b: nat, c: nat, d: nat, p: nat, q: nat, r: nat, s: nat)
    requires b < 0x200 && c < 0x200 && d < 0x200 && q < 0x200 && r < 0x200 && s < 0x200
    ensures a * 0x800_0000 + b * 0x4_0000 + c * 0x200 + d == p * 0x800_0000 + q * 0x4_0000 + r * 0x200 + s
            <==> a == p && b == q && c == r && d == s
  {}

  lemma PageOfIndices(v: nat)
    ensures v / PAGE % 0x10_0000_0000 ==
            Index(v, 0) * 0x800_0000 + Index(v, 1) * 0x4_0000 + Index(v, 2) * 0x200 + Index(v, 3)
  {
    var p := v / PAGE;
    Quotients(v);
    Split1(p);
    Split2(p);
    Split3(p);
  }

  lemma Quotients(v: nat)
    ensures v / 0x20_0000 == v / 0x1000 / 0x200
    ensures v / 0x4000_0000 == v / 0x1000 / 0x4_0000
    ensures v / 0x80_0000_0000 == v / 0x1000 / 0x800_0000
  {}

  lemma Split1(p: nat)
    ensures p % 0x4_0000 == p / 0x200 % 0x200 * 0x200 + p % 0x200
  {}

  lemma Split2(p: nat)
    ensures p % 0x800_0000 == p / 0x4_0000 % 0x200 * 0x4_0000 + p % 0x4_0000
  {}

  lemma Split3(p: nat)
    ensures p % 0x10_0000_0000 == p / 0x800_0000 % 0x200 * 0x800_0000 + p % 0x800_0000
  {}

  datatype Request = Request(v: nat, frame: nat, flags: Flags)

  /** What a user access at v sees after the requests marked done, when it saw x before: the last mapping of its
      page. */
  ghost function Last(reqs: seq<Request>, done: seq<bool>, v: nat, write: bool, x: Option<Leaf>): Option<Leaf>
    requires |reqs| == |done|
  {
    if reqs == [] then x
    else
      var i := |reqs| - 1;
      if done[i] && Indices(v) == Indices(reqs[i].v) then LeafView(Pte(reqs[i].frame, reqs[i].flags), write)
      else Last(reqs[..i], done[..i], v, write, x)
  }

  predicate AllDone(done: seq<bool>) {
    forall j :: 0 <= j < |done| ==> done[j]
  }

  lemma AllDoneMore(done: seq<bool>, ok: bool)
    ensures AllDone(done + [ok]) <==> AllDone(done) && ok
  {
    var more := done + [ok];
    assert more[|done|] == ok && forall j :: 0 <= j < |done| ==> more[j] == done[j];
  }

  lemma NoneLeft()
    ensures AllDone([])
  {}

  /** n shows the user exactly what m shows, below root. */
  ghost predicate SameView(m: Memory, n: Memory, root: nat) {
    forall v, write :: Walk(n, root, v, 0, write) == Walk(m, root, v, 0, write)
  }

  /** n differs from m in tables of tree, and in tables that m does not have. */
  ghost predicate OnlyTree(m: Memory, n: Memory, tree: Tree) {
    m.Keys <= n.Keys && forall f :: f in m && f !in tree ==> n[f] == m[f]
  }

  /** u is tree with fresh tables added. */
  ghost predicate Grown(m: Memory, tree: Tree, u: Tree) {
    && tree.Keys <= u.Keys && (forall f :: f in tree ==> u[f] == tree[f])
    && (forall f :: f in u && f !in tree ==> f !in m)
  }

  /** One step down the kernel's own tables. */
  lemma KernelStep(m: Memory, kroot: nat, ks: set<nat>, p: seq<nat>, i: nat)
    requires KernelOk(m, kroot, ks) && |p| <= 1 && i < ENTRIES
    ensures var k := KernelTable(m, kroot, p);
            && (k.Some? ==> k.value in ks && k.value in m && !m[k.value][i].flags.user)
            && KernelTable(m, kroot, p + [i]) ==
                 (if k.Some? && m[k.value][i].flags.present then Some(m[k.value][i].frame) else None)
            && (k.Some? && m[k.value][i].flags.present ==> m[k.value][i].frame in ks)
  {
    assert (p + [i])[..|p|] == p;
    assert KernelTable(m, kroot, p + [i]).Some? ==> KernelTable(m, kroot, p + [i]).value in ks;
  }

  /** The entry of a private table above the page tables, told apart by its frame as user_next_level does it. */
  lemma TellApart(m: Memory, kroot: nat, ks: set<nat>, tree: Tree, root: nat, f: nat, i: nat)
    requires TreeOk(m, kroot, ks, tree, root) && f in tree && |tree[f]| <= 1 && i < ENTRIES && m[f][i].flags.present
    ensures KernelTable(m, kroot, tree[f]).Some? ==> KernelTable(m, kroot, tree[f]).value in ks
    ensures KernelTable(m, kroot, tree[f]).Some? && m[KernelTable(m, kroot, tree[f]).value][i].flags.present ==>
              KernelTable(m, kroot, tree[f] + [i]) == Some(m[KernelTable(m, kroot, tree[f]).value][i].frame)
              && m[KernelTable(m, kroot, tree[f]).value][i].frame in ks
    ensures if KernelTable(m, kroot, tree[f]).Some? && m[KernelTable(m, kroot, tree[f]).value][i].flags.present
               && m[KernelTable(m, kroot, tree[f]).value][i].frame == m[f][i].frame
            then m[f][i] == m[KernelTable(m, kroot, tree[f]).value][i] && !m[f][i].flags.user
            else m[f][i].frame in tree && tree[m[f][i].frame] == tree[f] + [i]
  {
    hide Hangs, NoShadow, KernelOk, KernelTable;
    KernelStep(m, kroot, ks, tree[f], i);
    assert EntryOk(m, kroot, tree, tree[f], i, m[f][i]);
  }

  /** The same at the page-directory level, where the kernel's entries are 2 MiB pages. */
  lemma TellApartLeaf(m: Memory, kroot: nat, ks: set<nat>, tree: Tree, root: nat, f: nat, i: nat)
    requires TreeOk(m, kroot, ks, tree, root) && f in tree && |tree[f]| == 2 && i < ENTRIES
    ensures KernelTable(m, kroot, tree[f]).Some? ==> KernelTable(m, kroot, tree[f]).value in ks
    ensures var e, k := m[f][i], KernelTable(m, kroot, tree[f]);
            if !e.flags.present || e.flags.ps
                || (k.Some? && m[k.value][i].flags.present && e.frame == m[k.value][i].frame)
            then !e.flags.present || !e.flags.user
            else e.frame in tree && tree[e.frame] == tree[f] + [i]
  {
    var e, k := m[f][i], KernelTable(m, kroot, tree[f]);
    assert EntryOk(m, kroot, tree, tree[f], i, e);
    if Private(tree, tree[f], i, e) {
      assert NoShadow(m, kroot, tree[e.frame], e.frame);
      assert (tree[f] + [i])[..2] == tree[f] && (tree[f] + [i])[2] == i;
    }
  }

  /** What hanging a fresh table does, seen from outside. */
  lemma HungEffect(m: Memory, n: Memory, kroot: nat, ks: set<nat>, tree: Tree, root: nat, f: nat, i: nat, c: nat)
    requires TreeOk(m, kroot, ks, tree, root) && Hung(m, n, ks, tree, f, i, c) && c !in ks
    requires NoShadow(m, kroot, tree[f] + [i], c) && Fill(m, kroot, tree[f] + [i], n[c])
    ensures TreeOk(n, kroot, ks, tree[c := tree[f] + [i]], root)
    ensures SameView(m, n, root) && OnlyTree(m, n, tree) && Grown(m, tree, tree[c := tree[f] + [i]])
  {
    hide KernelOk, EntryOk, Hangs, NoShadow, Fill, Walk;
    HungTree(m, n, kroot, ks, tree, root, f, i, c);
    forall v, write ensures Walk(n, root, v, 0, write) == Walk(m, root, v, 0, write) {
      HungWalk(m, n, kroot, ks, tree, root, f, i, c, root, v, 0, write);
    }
  }

  /** What may hang at entry i of the place p: a copy of the kernel's table there, or a zeroed table on any free
      page. */
  ghost predicate HangOk(m: Memory, kroot: nat, ks: set<nat>, used: seq<bool>, p: seq<nat>, i: nat,
                         copyOf: Option<nat>) {
    if copyOf.Some?
    then |p| <= 1 && KernelTable(m, kroot, p + [i]) == copyOf && copyOf.value in ks && copyOf.value in m
    else forall c :: 0 <= c < |used| && !used[c] ==> NoShadow(m, kroot, p + [i], c)
  }

  /** No page is free. */
  ghost predicate Full(used: seq<bool>) { forall i :: 0 <= i < |used| ==> used[i] }

  lemma FullStays(used: seq<bool>, more: seq<bool>)
    requires Full(used) && UsedGrows(used, more)
    ensures Full(more)
  {}

  /** Only pages that were free have been taken. */
  ghost predicate UsedGrows(a: seq<bool>, b: seq<bool>) {
    |a| == |b| && forall i :: 0 <= i < |a| && a[i] ==> b[i]
  }

  /** Above the page tables any page will do. */
  lemma HangAnywhere(m: Memory, kroot: nat, ks: set<nat>, used: seq<bool>, p: seq<nat>, i: nat)
    requires |p| <= 1
    ensures HangOk(m, kroot, ks, used, p, i, None)
  {}

  lemma HangSplit(m: Memory, kroot: nat, ks: set<nat>, tree: Tree, root: nat, f: nat, i: nat, used: seq<bool>, k: nat)
    requires TreeOk(m, kroot, ks, tree, root) && f in tree && |tree[f]| <= 1
    requires KernelTable(m, kroot, tree[f] + [i]) == Some(k) && k in ks
    ensures HangOk(m, kroot, ks, used, tree[f], i, Some(k))
  {}

  lemma HangFacts(m: Memory, kroot: nat, ks: set<nat>, used: seq<bool>, p: seq<nat>, i: nat, copyOf: Option<nat>)
    requires HangOk(m, kroot, ks, used, p, i, copyOf)
    ensures copyOf.Some? ==>
              |p| <= 1 && KernelTable(m, kroot, p + [i]) == Some(copyOf.value) && copyOf.value in ks
                  && copyOf.value in m
    ensures copyOf == None ==> forall c :: 0 <= c < |used| && !used[c] ==> NoShadow(m, kroot, p + [i], c)
  {}

  /** Steps on the same tree add up. */
  lemma StepTwice(m: Memory, n: Memory, o: Memory, tree: Tree, u: Tree, w: Tree, root: nat)
    requires SameView(m, n, root) && OnlyTree(m, n, tree) && Grown(m, tree, u)
    requires OnlyTree(n, o, u) && Grown(n, u, w)
    ensures OnlyTree(m, o, tree) && Grown(m, tree, w)
    ensures SameView(n, o, root) ==> SameView(m, o, root)
  {}

  /** A step on a private tree leaves the kernel's tables, and what they say, alone. */
  lemma KernelKept(m: Memory, n: Memory, kroot: nat, ks: set<nat>, tree: Tree, root: nat)
    requires TreeOk(m, kroot, ks, tree, root) && OnlyTree(m, n, tree)
    ensures forall k :: k in ks ==> k in m && k in n && n[k] == m[k]
    ensures forall p :: |p| <= 2 ==> KernelTable(n, kroot, p) == KernelTable(m, kroot, p)
  {
    forall p: seq<nat> | |p| <= 2 ensures KernelTable(n, kroot, p) == KernelTable(m, kroot, p) {
      KernelTableFrame(m, n, kroot, ks, p);
    }
  }

  lemma ReservedKept(m: Memory, n: Memory, kroot: nat, ks: set<nat>, tree: Tree, root: nat, used: seq<bool>,
                     more: seq<bool>, v: nat)
    requires TreeOk(m, kroot, ks, tree, root) && OnlyTree(m, n, tree) && UsedGrows(used, more)
    requires Reserved(m, kroot, used, v)
    ensures Reserved(n, kroot, more, v)
  {
    KernelKept(m, n, kroot, ks, tree, root);
    assert KernelTable(m, kroot, Indices(v)[..2]).Some? ==> KernelTable(m, kroot, Indices(v)[..2]).value in ks;
  }

  lemma ReservedHang(m: Memory, kroot: nat, ks: set<nat>, used: seq<bool>, v: nat)
    requires Reserved(m, kroot, used, v)
    ensures HangOk(m, kroot, ks, used, [Index(v, 0), Index(v, 1)], Index(v, 2), None)
  {
    var p := [Index(v, 0), Index(v, 1)];
    assert (p + [Index(v, 2)])[..2] == p == Indices(v)[..2];
  }

  /** The kernel's tables on the way to v, as paging_map_page_to looks them up. */
  lemma KernelWay(m: Memory, kroot: nat, ks: set<nat>, v: nat)
    requires KernelOk(m, kroot, ks) && kroot in ks
    ensures KernelTable(m, kroot, []) == Some(kroot) && kroot in m
    ensures KernelTable(m, kroot, [Index(v, 0)]) == if m[kroot][Index(v, 0)].flags.present
            then Some(m[kroot][Index(v, 0)].frame) else None
    ensures var d := KernelTable(m, kroot, [Index(v, 0)]);
            && (d.Some? ==> d.value in m)
            && KernelTable(m, kroot, [Index(v, 0), Index(v, 1)])
               == if d.Some? && m[d.value][Index(v, 1)].flags.present then Some(m[d.value][Index(v, 1)].frame) else None
    ensures KernelTable(m, kroot, [Index(v, 0), Index(v, 1)]).Some? ==>
              KernelTable(m, kroot, [Index(v, 0), Index(v, 1)]).value in m
  {
    var p, q := [Index(v, 0)], [Index(v, 0), Index(v, 1)];
    assert p[..0] == [] && q[..1] == p;
    assert KernelTable(m, kroot, p).Some? ==> KernelTable(m, kroot, p).value in ks;
    assert KernelTable(m, kroot, q).Some? ==> KernelTable(m, kroot, q).value in ks;
  }

  /** What the write of a leaf does, seen from outside. */
  lemma LeafEffect(m: Memory, n: Memory, kroot: nat, ks: set<nat>, tree: Tree, root: nat, t: nat, v: nat, e: Pte)
    requires TreeOk(m, kroot, ks, tree, root) && t in tree && t in m
             && tree[t] == [Index(v, 0), Index(v, 1), Index(v, 2)]
    requires n == m[t := m[t][Index(v, 3) := e]]
    ensures TreeOk(n, kroot, ks, tree, root) && OnlyTree(m, n, tree) && KernelOk(n, kroot, ks)
    ensures forall w, write :: Walk(n, root, w, 0, write) ==
              if Indices(w) == Indices(v) then LeafView(e, write) else Walk(m, root, w, 0, write)
  {
    hide KernelOk, EntryOk, Hangs, NoShadow, Walk, Index;
    LeafTree(m, n, kroot, ks, tree, root, t, Index(v, 3), e);
    TreeFacts(n, kroot, ks, tree, root);
    assert tree[t] + [Index(v, 3)] == Indices(v);
    forall w, write
      ensures Walk(n, root, w, 0, write) ==
                if Indices(w) == Indices(v) then LeafView(e, write) else Walk(m, root, w, 0, write)
    {
      LeafWalk(m, n, kroot, ks, tree, root, t, Index(v, 3), e, root, w, 0, write);
      assert tree[root] + Indices(w)[0..] == Indices(w);
    }
  }

  /** n shows the user what m shows, but for the page of v, which e maps. */
  ghost predicate Mapped(m: Memory, n: Memory, root: nat, v: nat, e: Pte) {
    forall w, write :: Walk(n, root, w, 0, write) == if Indices(w) == Indices(v) then LeafView(e, write)
      else Walk(m, root, w, 0, write)
  }

  lemma MappedAfter(m: Memory, n: Memory, o: Memory, root: nat, v: nat, e: Pte)
    requires SameView(m, n, root) && Mapped(n, o, root, v, e)
    ensures Mapped(m, o, root, v, e)
  {}

  lemma LeafMapped(m: Memory, n: Memory, o: Memory, tree: Tree, u: Tree, root: nat, v: nat, e: Pte)
    requires SameView(m, n, root) && OnlyTree(m, n, tree) && Grown(m, tree, u) && OnlyTree(n, o, u)
    requires forall w, write :: Walk(o, root, w, 0, write) ==
               if Indices(w) == Indices(v) then LeafView(e, write) else Walk(n, root, w, 0, write)
    ensures Mapped(m, o, root, v, e) && OnlyTree(m, o, tree)
  {
    hide Walk, Indices, LeafView;
    MappedAfter(m, n, o, root, v, e);
    Unmoved(n, u, root);
    StepTwice(m, n, o, tree, u, u, root);
  }

  lemma UsedChain(a: seq<bool>, b: seq<bool>, c: seq<bool>)
    requires UsedGrows(a, b) && UsedGrows(b, c)
    ensures UsedGrows(a, c)
  {}

  lemma StepOnly(m: Memory, n: Memory, o: Memory, tree: Tree, u: Tree, w: Tree)
    requires OnlyTree(m, n, tree) && Grown(m, tree, u) && OnlyTree(n, o, u) && Grown(n, u, w)
    ensures OnlyTree(m, o, tree) && Grown(m, tree, w)
  {}

  lemma LastStep(reqs: seq<Request>, i: nat, done: seq<bool>, ok: bool, m: Memory, n: Memory, o: Memory, root: nat)
    requires i == |done| < |reqs|
    requires forall v, write ::
             Walk(n, root, v, 0, write) == Last(reqs[..i], done, v, write, Walk(m, root, v, 0, write))
    requires if ok then Mapped(n, o, root, reqs[i].v, Pte(reqs[i].frame, reqs[i].flags)) else SameView(n, o, root)
    ensures forall v, write ::
            Walk(o, root, v, 0, write) == Last(reqs[..i + 1], done + [ok], v, write, Walk(m, root, v, 0, write))
  {
    hide Walk, Indices, LeafView;
    assert reqs[..i + 1][..i] == reqs[..i] && (done + [ok])[..i] == done;
  }

  lemma TreeFacts(m: Memory, kroot: nat, ks: set<nat>, tree: Tree, root: nat)
    requires TreeOk(m, kroot, ks, tree, root)
    ensures KernelOk(m, kroot, ks) && tree.Keys <= m.Keys && tree.Keys !! ks && ks <= m.Keys && root in tree
            && tree[root] == []
    ensures forall f :: f in tree ==> |tree[f]| <= 3
  {}

  lemma Unmoved(m: Memory, tree: Tree, root: nat)
    ensures SameView(m, m, root) && OnlyTree(m, m, tree) && Grown(m, tree, tree)
  {}

  /** A zeroed table is hung where no user walk passes. */
  lemma HangZero(m: Memory, n: Memory, kroot: nat, ks: set<nat>, tree: Tree, root: nat, f: nat, i: nat, c: nat)
    requires TreeOk(m, kroot, ks, tree, root) && f in tree && f in m && |tree[f]| <= 2 && i < ENTRIES && c !in m
    requires !m[f][i].flags.present || !m[f][i].flags.user
    requires NoShadow(m, kroot, tree[f] + [i], c)
    requires n == m[c := Zero()][f := m[f][i := Pte(c, TABLE)]]
    ensures TreeOk(n, kroot, ks, tree[c := tree[f] + [i]], root)
    ensures SameView(m, n, root) && OnlyTree(m, n, tree) && Grown(m, tree, tree[c := tree[f] + [i]])
  {
    hide EntryOk, Hangs, KernelTable, NoShadow, SameView, Grown, OnlyTree;
    HungEffect(m, n, kroot, ks, tree, root, f, i, c);
  }

  /** A copy of the kernel's table of that place is hung instead of the kernel's own. */
  lemma HangCopy(m: Memory, n: Memory, kroot: nat, ks: set<nat>, tree: Tree, root: nat, f: nat, i: nat, c: nat, k: nat)
    requires TreeOk(m, kroot, ks, tree, root) && f in tree && f in m && |tree[f]| <= 1 && i < ENTRIES && c !in m
    requires !m[f][i].flags.present || !m[f][i].flags.user
    requires KernelTable(m, kroot, tree[f] + [i]) == Some(k) && k in ks && k in m
    requires n == m[c := m[k]][f := m[f][i := Pte(c, TABLE)]]
    ensures TreeOk(n, kroot, ks, tree[c := tree[f] + [i]], root)
    ensures SameView(m, n, root) && OnlyTree(m, n, tree) && Grown(m, tree, tree[c := tree[f] + [i]])
  {
    hide EntryOk, Hangs, KernelTable, SameView, Grown, OnlyTree;
    assert f !in ks;
    HungEffect(m, n, kroot, ks, tree, root, f, i, c);
  }

  /** Filling the zeroed table c and hanging it at entry i of table f. */
  lemma HungUp(o: Memory, m: Memory, f: nat, i: nat, c: nat, copyOf: Option<nat>)
    requires f in o && i < ENTRIES && c !in o && (copyOf.Some? ==> copyOf.value in o) && m == o[c := Zero()]
    ensures Filling(m, copyOf) == Filling(o, copyOf) == if copyOf.Some? then o[copyOf.value] else Zero()
    ensures Hooked(m, f, i, c, Filling(m, copyOf)) == o[c := Filling(o, copyOf)][f := o[f][i := Pte(c, TABLE)]]
  {}

  lemma HangEither(m: Memory, z: Memory, n: Memory, kroot: nat, ks: set<nat>, used: seq<bool>, tree: Tree, root: nat,
                   f: nat, i: nat, c: nat, copyOf: Option<nat>)
    requires TreeOk(m, kroot, ks, tree, root) && f in tree && f in m && |tree[f]| <= 2 && i < ENTRIES && c !in m
    requires !m[f][i].flags.present || !m[f][i].flags.user
    requires HangOk(m, kroot, ks, used, tree[f], i, copyOf) && c < |used| && !used[c]
             && (copyOf.Some? ==> copyOf.value in m)
    requires z == m[c := Zero()] && n == Hooked(z, f, i, c, Filling(z, copyOf))
    ensures TreeOk(n, kroot, ks, tree[c := tree[f] + [i]], root) && KernelOk(n, kroot, ks) && n.Keys == z.Keys
    ensures SameView(m, n, root) && OnlyTree(m, n, tree) && Grown(m, tree, tree[c := tree[f] + [i]])
    ensures Filling(z, copyOf) == Filling(m, copyOf)
  {
    hide EntryOk, Hangs, KernelTable, SameView, Grown, OnlyTree, TreeOk, KernelOk, HangOk, NoShadow;
    HungUp(m, z, f, i, c, copyOf);
    HangFacts(m, kroot, ks, used, tree[f], i, copyOf);
    if copyOf.Some? {
      HangCopy(m, n, kroot, ks, tree, root, f, i, c, copyOf.value);
    } else {
      HangZero(m, n, kroot, ks, tree, root, f, i, c);
    }
    TreeFacts(n, kroot, ks, tree[c := tree[f] + [i]], root);
  }

  /** Mapping into one process's tree changes nothing another process or the kernel sees. */
  lemma Isolated(m: Memory, n: Memory, kroot: nat, ks: set<nat>, tree: Tree, root: nat, other: Tree, otherRoot: nat)
    requires TreeOk(m, kroot, ks, tree, root) && OnlyTree(m, n, tree)
    requires TreeOk(m, kroot, ks, other, otherRoot) && other.Keys !! tree.Keys
    ensures TreeOk(n, kroot, ks, other, otherRoot) && SameView(m, n, otherRoot)
    ensures forall f :: f in ks || f in other ==> f in n && n[f] == m[f]
  {
    KernelKept(m, n, kroot, ks, tree, root);
    OtherTree(m, n, kroot, ks, other, otherRoot);
  }

  // ---- One leaf covers its whole page ----

  function PageSize(l: Leaf): (s: nat)
    ensures s == PAGE || s == HUGE
  {
    if l.huge then HUGE else PAGE
  }

  lemma HugeIndices(v: nat, b: nat)
    requires v / HUGE == b / HUGE
    ensures Index(v, 0) == Index(b, 0) && Index(v, 1) == Index(b, 1) && Index(v, 2) == Index(b, 2)
  {
    HugeQuotients(v);
    HugeQuotients(b);
  }

  lemma HugeQuotients(v: nat)
    ensures v / 0x4000_0000 == v / 0x20_0000 / 0x200
    ensures v / 0x80_0000_0000 == v / 0x20_0000 / 0x4_0000
  {}

  lemma PageIndices(v: nat, b: nat)
    requires v / PAGE == b / PAGE
    ensures Indices(v) == Indices(b)
  {
    Quotients(v);
    Quotients(b);
  }

  lemma {:induction false} LeafCovers(m: Memory, t: nat, v: nat, b: nat, d: nat, write: bool)
    requires d < 4
    requires forall e :: d <= e < 3 ==> Index(v, e) == Index(b, e)
    requires Index(v, 3) == Index(b, 3) || (Walk(m, t, v, d, write).Some? && Walk(m, t, v, d, write).value.huge)
    ensures Walk(m, t, b, d, write) == Walk(m, t, v, d, write)
    decreases 4 - d
  {
    if t in m && d < 3 && !(d == 2 && m[t][Index(v, 2)].flags.ps) {
      LeafCovers(m, m[t][Index(v, d)].frame, v, b, d + 1, write);
    }
  }

  /** All the bytes of a page are reached through the same leaf. */
  lemma SamePageSameLeaf(m: Memory, root: nat, v: nat, b: nat, write: bool)
    requires Walk(m, root, v, 0, write).Some?
    requires v / PageSize(Walk(m, root, v, 0, write).value) == b / PageSize(Walk(m, root, v, 0, write).value)
    ensures Walk(m, root, b, 0, write) == Walk(m, root, v, 0, write)
  {
    if Walk(m, root, v, 0, write).value.huge {
      HugeIndices(v, b);
    } else {
      PageIndices(v, b);
      assert Indices(v)[0] == Indices(b)[0] && Indices(v)[1] == Indices(b)[1] && Indices(v)[2] == Indices(b)[2]
             && Indices(v)[3] == Indices(b)[3];
    }
    LeafCovers(m, root, v, b, 0, write);
  }

  const TOP: nat := 0x1_0000_0000_0000_0000

  lemma NextPage(v: nat, s: nat)
    requires s == PAGE || s == HUGE
    ensures v / s * s <= v < v / s * s + s
    ensures forall b :: v <= b < v / s * s + s ==> b / s == v / s
  {}

  /** Every byte from a to b can be accessed. */
  ghost predicate Accessible(m: Memory, root: nat, a: nat, b: nat, write: bool) {
    forall v :: a <= v < b ==> Walk(m, root, v, 0, write).Some?
  }

  lemma PageAccessible(m: Memory, root: nat, v: nat, write: bool)
    requires Walk(m, root, v, 0, write).Some?
    ensures var s := PageSize(Walk(m, root, v, 0, write).value); Accessible(m, root, v, v / s * s + s, write)
  {
    var s := PageSize(Walk(m, root, v, 0, write).value);
    NextPage(v, s);
    forall b | v <= b < v / s * s + s ensures Walk(m, root, b, 0, write).Some? {
      SamePageSameLeaf(m, root, v, b, write);
    }
  }

  /** The byte a user reads at v: physical memory behind the leaf. */
  function UserByte(m: Memory, root: nat, ram: nat -> int, v: nat): int
    requires Walk(m, root, v, 0, false).Some?
  {
    var l := Walk(m, root, v, 0, false).value;
    ram(l.e.frame * PAGE + v % PageSize(l))
  }

  /** It is the byte at the CPU's physical address. */
  lemma UserByteIs(m: Memory, root: nat, ram: nat -> int, v: nat)
    requires Walk(m, root, v, 0, false).Some?
    ensures UserByte(m, root, ram, v) == ram(CpuPhys(m, root, v, 0))
  {
    CpuReads(m, root, v, 0);
  }

  /** The first n bytes at a are accessible and none is NUL. */
  ghost predicate NoNul(m: Memory, root: nat, ram: nat -> int, a: nat, n: nat) {
    forall v :: a <= v < a + n ==> Walk(m, root, v, 0, false).Some? && UserByte(m, root, ram, v) != 0
  }

  /** The string at a is n bytes long: all of them and the NUL behind them accessible. */
  ghost predicate StringAt(m: Memory, root: nat, ram: nat -> int, a: nat, n: nat) {
    NoNul(m, root, ram, a, n) && Walk(m, root, a + n, 0, false).Some? && UserByte(m, root, ram, a + n) == 0
  }

  lemma StringUnique(m: Memory, root: nat, ram: nat -> int, a: nat, n: nat, k: nat)
    requires StringAt(m, root, ram, a, n) && StringAt(m, root, ram, a, k)
    ensures n == k
  {}

  lemma StringNeeds(m: Memory, root: nat, ram: nat -> int, a: nat, k: nat)
    requires Walk(m, root, a + k, 0, false) == None
    ensures forall n: nat :: n >= k ==> !StringAt(m, root, ram, a, n)
  {}

  lemma StringExcludes(m: Memory, root: nat, ram: nat -> int, a: nat, k: nat)
    requires NoNul(m, root, ram, a, k)
    ensures forall n: nat :: n < k ==> !StringAt(m, root, ram, a, n)
  {}

  /** One byte further within the page of leaf l. */
  lemma ByteInPage(m: Memory, root: nat, ram: nat -> int, v: nat, b: nat)
    requires Walk(m, root, v, 0, false).Some?
    requires var s := PageSize(Walk(m, root, v, 0, false).value); v <= b < v - v % s + s
    ensures Walk(m, root, b, 0, false) == Walk(m, root, v, 0, false)
    ensures UserByte(m, root, ram, b) ==
            ram(Walk(m, root, v, 0,
                false).value.e.frame * PAGE + v % PageSize(Walk(m, root, v, 0, false).value) + (b - v))
  {
    hide Walk;
    var s := PageSize(Walk(m, root, v, 0, false).value);
    InPage(v, b, s);
    SamePageSameLeaf(m, root, v, b, false);
  }

  lemma InPage(v: nat, b: nat, s: nat)
    requires s == PAGE || s == HUGE
    requires v <= b < v - v % s + s
    ensures b / s == v / s && b % s == v % s + (b - v)
  {}

  lemma StringEnds(m: Memory, root: nat, ram: nat -> int, a: nat, n: nat)
    requires NoNul(m, root, ram, a, n) && Walk(m, root, a + n, 0, false).Some? && UserByte(m, root, ram, a + n) == 0
    ensures StringAt(m, root, ram, a, n)
  {}

  function Cut<T>(s: seq<T>, max: nat): seq<T> { if |s| <= max then s else s[..max] }

  lemma {:induction false} PagesPrefix(m: Memory, root: nat, v: nat, k: nat, n: nat)
    requires k <= n
    ensures WritablePages(m, root, v, k) <= WritablePages(m, root, v, n)
    decreases n
  {
    if k < n { PagesPrefix(m, root, v, k, n - 1); }
  }

  datatype UserPage = UserPage(v: nat, phys: nat)

  const APP_LO: nat := 0x40_0000
  const APP_HI: nat := 0x80_0000
  const STACK_LO: nat := 0xBFFF_0000
  const STACK_HI: nat := 0xC000_0000

  /** The writable user pages from v on, n pages of them looked at, in address order. */
  function WritablePages(m: Memory, root: nat, v: nat, n: nat): (ps: seq<UserPage>)
    ensures forall p :: p in ps ==> v <= p.v < v + n * PAGE && Walk(m, root, p.v, 0, true).Some?
    ensures |ps| <= n
    decreases n
  {
    if n == 0 then []
    else
      var front := WritablePages(m, root, v, n - 1);
      var a := v + (n - 1) * PAGE;
      match Walk(m, root, a, 0, true)
      case None => front
      case Some(l) => front + [UserPage(a, l.e.frame * PAGE + a % PageSize(l))]
  }

  /** A page that is listed is written through the leaf of its address, and its physical address is where its bytes are.
      */
  lemma {:induction false} PageBehind(m: Memory, root: nat, v: nat, n: nat, p: UserPage, ram: nat -> int, j: nat)
    requires p in WritablePages(m, root, v, n) && v % PAGE == 0 && j < PAGE
    ensures Walk(m, root, p.v + j, 0, false).Some? && UserByte(m, root, ram, p.v + j) == ram(p.phys + j)
    decreases n
  {
    hide Walk, PageSize;
    var a := v + (n - 1) * PAGE;
    var l := Walk(m, root, a, 0, true);
    if l.Some? && p == UserPage(a, l.value.e.frame * PAGE + a % PageSize(l.value)) {
      WriteReads(m, root, a);
      WithinPage(v, n - 1, j, PageSize(Walk(m, root, a, 0, false).value));
      ByteInPage(m, root, ram, a, a + j);
    } else {
      PageBehind(m, root, v, n - 1, p, ram, j);
    }
  }

  lemma {:induction false} WriteWalks(m: Memory, t: nat, v: nat, d: nat)
    requires d < 4 && Walk(m, t, v, d, true).Some?
    ensures Walk(m, t, v, d, false) == Walk(m, t, v, d, true)
    decreases 4 - d
  {
    if d < 3 && !(d == 2 && m[t][Index(v, d)].flags.ps) {
      WriteWalks(m, m[t][Index(v, d)].frame, v, d + 1);
    }
  }

  lemma WriteReads(m: Memory, root: nat, v: nat)
    requires Walk(m, root, v, 0, true).Some?
    ensures Walk(m, root, v, 0, false) == Walk(m, root, v, 0, true)
  {
    WriteWalks(m, root, v, 0);
  }

  lemma WithinPage(v: nat, i: nat, j: nat, s: nat)
    requires v % PAGE == 0 && j < PAGE && (s == PAGE || s == HUGE)
    ensures var a := v + i * PAGE; a + j < a - a % s + s
  {}

  /** Every writable page of the range is listed. */
  lemma {:induction false} AllWritable(m: Memory, root: nat, v: nat, n: nat, i: nat)
    requires i < n && Walk(m, root, v + i * PAGE, 0, true).Some?
    ensures exists p :: p in WritablePages(m, root, v, n) && p.v == v + i * PAGE
    decreases n
  {
    hide Walk, PageSize;
    if i < n - 1 {
      AllWritable(m, root, v, n - 1, i);
      var p :| p in WritablePages(m, root, v, n - 1) && p.v == v + i * PAGE;
      assert p in WritablePages(m, root, v, n);
    } else {
      var l := Walk(m, root, v + i * PAGE, 0, true).value;
      assert WritablePages(m, root, v, n)[|WritablePages(m, root, v, n)| - 1].v == v + i * PAGE;
    }
  }

  lemma Fillings(m: Memory, copyOf: Option<nat>)
    ensures copyOf == None ==> Filling(m, copyOf) == Zero()
    ensures copyOf.Some? && copyOf.value in m ==> Filling(m, copyOf) == m[copyOf.value]
  {}

  lemma KernelThere(m: Memory, kroot: nat, ks: set<nat>)
    requires KernelOk(m, kroot, ks) && kroot in ks
    ensures kroot in m
  {}

  lemma Cloned(m: Memory, n: Memory, kroot: nat, ks: set<nat>, root: nat)
    requires KernelOk(m, kroot, ks) && kroot in ks && kroot in m && root !in m
    requires n == m[root := Zero()][root := m[kroot]]
    ensures TreeOk(n, kroot, ks, map[root := []], root) && KernelOk(n, kroot, ks) && OnlyTree(m, n, map[])
    ensures forall v, write :: Walk(n, root, v, 0, write) == None
  {
    hide TreeOk, Walk;
    CloneTree(m, n, kroot, ks, root);
    TreeFacts(n, kroot, ks, map[root := []], root);
  }

  class Paging {
    const pmm: Pmm.Allocator
    const kroot: nat
    ghost const ks: set<nat>
    var mem: Memory

    ghost predicate Valid()
      reads this, pmm, pmm.bitmap
    {
      && pmm.Valid() && pmm.total > 0 && pmm.Used()[0]
      && KernelOk(mem, kroot, ks) && kroot in ks
      && 0 !in mem && forall f :: f in mem ==> f < pmm.total && pmm.Used()[f]
    }

    /** The state paging_init leaves: the kernel's tables, every one of them on a page in use. */
    constructor (pmm: Pmm.Allocator, kroot: nat, ghost ks: set<nat>, mem: Memory)
      requires pmm.Valid() && pmm.total > 0 && pmm.Used()[0]
      requires KernelOk(mem, kroot, ks) && kroot in ks && 0 !in mem
               && forall f :: f in mem ==> f < pmm.total && pmm.Used()[f]
      ensures Valid() && this.pmm == pmm && this.kroot == kroot && this.ks == ks && this.mem == mem
    {
      this.pmm, this.kroot, this.ks, this.mem := pmm, kroot, ks, mem;
    }

    lemma ValidFacts()
      requires Valid()
      ensures pmm.Sized() && KernelOk(mem, kroot, ks) && kroot in ks && 0 !in mem && UsedGrows(pmm.Used(), pmm.Used())
      ensures !ABSENT.flags.present
    {}

    /** src/paging.c: alloc_table. 0 is the source's NULL. */
    method AllocTable() returns (t: nat)
      requires Valid()
      modifies this`mem, pmm, pmm.bitmap
      ensures Valid() && UsedGrows(old(pmm.Used()), pmm.Used())
      ensures pmm.refused == old(pmm.refused) + if t == 0 then 1 else 0
      ensures t == 0 ==> mem == old(mem) && Full(pmm.Used())
      ensures t != 0 ==> t !in old(mem) && mem == old(mem)[t := Zero()] && t < pmm.total && !old(pmm.Used())[t]
      ensures t == Lowest(old(pmm.Used()), 0)
      ensures pmm.Used() == if t == 0 then old(pmm.Used()) else old(pmm.Used())[t := true]
    {
      t := pmm.AllocPage();
      LowestIs(old(pmm.Used()), 0, t);
      if t == 0 {
        return;
      }
      KernelFrame(mem, mem[t := Zero()], kroot, ks);
      mem := mem[t := Zero()];
    }

    /** src/paging.c: paging_clone_kernel_pd. */
    method CloneKernel() returns (root: nat, ghost tree: Tree)
      requires Valid()
      modifies this`mem, pmm, pmm.bitmap
      ensures Valid() && UsedGrows(old(pmm.Used()), pmm.Used()) && OnlyTree(old(mem), mem, map[])
      ensures root != 0 ==> TreeOk(mem, kroot, ks, tree, root) && tree.Keys == {root} && root !in old(mem)
      ensures root != 0 ==> forall v, write :: Walk(mem, root, v, 0, write) == None
      ensures root == 0 ==> Full(pmm.Used())
      ensures pmm.refused == old(pmm.refused) + if root == 0 then 1 else 0
    {
      hide *;
      ValidFacts();
      ghost var m := mem;
      Unmoved(m, map[], 0);
      KernelThere(m, kroot, ks);
      tree := map[];
      root := AllocTable();
      if root == 0 {
        return;
      }
      var n: Memory := mem[root := mem[kroot]];
      Cloned(m, n, kroot, ks, root);
      tree := map[root := []];
      WriteTables(n);
    }

    /** Allocate a table, zeroed or a copy of kernel table copyOf, and hang it at entry idx of a private table. */
    method Hang(table: nat, idx: nat, copyOf: Option<nat>, ghost tree: Tree, ghost root: nat)
        returns (c: nat, ghost u: Tree)
      requires Valid() && TreeOk(mem, kroot, ks, tree, root) && table in tree && table in mem && |tree[table]| <= 2
               && idx < ENTRIES
      requires !mem[table][idx].flags.present || !mem[table][idx].flags.user
      requires HangOk(mem, kroot, ks, pmm.Used(), tree[table], idx, copyOf)
      modifies this`mem, pmm, pmm.bitmap
      ensures Valid() && UsedGrows(old(pmm.Used()), pmm.Used()) && TreeOk(mem, kroot, ks, u, root)
      ensures SameView(old(mem), mem, root) && OnlyTree(old(mem), mem, tree) && Grown(old(mem), tree, u)
      ensures c == 0 ==> Full(pmm.Used())
      ensures pmm.refused == old(pmm.refused) + if c == 0 then 1 else 0
      ensures c != 0 ==> c in u && u[c] == tree[table] + [idx]
      ensures (Space(mem, pmm.Used()), c) ==
              Hook(Space(old(mem), old(pmm.Used())), table, idx, Filling(old(mem), copyOf))
    {
      hide *;
      ValidFacts();
      u := tree;
      ghost var m, used := mem, pmm.Used();
      ghost var t := Filling(mem, copyOf);
      Unmoved(m, tree, root);
      HangFacts(m, kroot, ks, used, tree[table], idx, copyOf);
      c := AllocTable();
      if c == 0 {
        HookNone(Space(m, used), table, idx, t);
        return;
      }
      HookOne(Space(m, used), table, idx, t, c, mem);
      u := FillTable(table, idx, c, copyOf, tree, root, m, used);
    }

    /** Fill the fresh table c, and hang it; m and used are tables and bitmap before it was taken. */
    method FillTable(table: nat, idx: nat, c: nat, copyOf: Option<nat>, ghost tree: Tree, ghost root: nat,
                     ghost m: Memory, ghost used: seq<bool>)
      returns (ghost u: Tree)
      requires Valid() && c !in m && mem == m[c := Zero()] && c < |used| && !used[c]
      requires TreeOk(m, kroot, ks, tree, root) && table in tree && table in m && |tree[table]| <= 2 && idx < ENTRIES
      requires !m[table][idx].flags.present || !m[table][idx].flags.user
      requires HangOk(m, kroot, ks, used, tree[table], idx, copyOf) && (copyOf.Some? ==> copyOf.value in m)
      modifies this`mem
      ensures Valid() && TreeOk(mem, kroot, ks, u, root) && u == tree[c := tree[table] + [idx]]
      ensures SameView(m, mem, root) && OnlyTree(m, mem, tree) && Grown(m, tree, u)
      ensures mem == Hooked(old(mem), table, idx, c, Filling(m, copyOf))
    {
      hide *;
      var n := Hooked(mem, table, idx, c, Filling(mem, copyOf));
      HangEither(m, mem, n, kroot, ks, used, tree, root, table, idx, c, copyOf);
      u := tree[c := tree[table] + [idx]];
      WriteTables(n);
    }

    /** Rewrite tables that exist, other than the kernel's. */
    method WriteTables(n: Memory)
      requires Valid() && KernelOk(n, kroot, ks) && n.Keys == mem.Keys
      modifies this`mem
      ensures Valid() && mem == n
    {
      mem := n;
    }

    /** src/paging.c: user_next_level, for the table at a place with at most one index. 0 is the source's NULL. */
    method UserNextLevel(table: nat, idx: nat, kernelTable: Option<nat>, ghost tree: Tree, ghost root: nat)
        returns (c: nat, ghost u: Tree)
      requires Valid() && TreeOk(mem, kroot, ks, tree, root) && table in tree && |tree[table]| <= 1 && idx < ENTRIES
      requires kernelTable == KernelTable(mem, kroot, tree[table])
      modifies this`mem, pmm, pmm.bitmap
      ensures Valid() && UsedGrows(old(pmm.Used()), pmm.Used()) && TreeOk(mem, kroot, ks, u, root)
      ensures SameView(old(mem), mem, root) && OnlyTree(old(mem), mem, tree) && Grown(old(mem), tree, u)
      ensures c == 0 ==> Full(pmm.Used())
      ensures pmm.refused == old(pmm.refused) + if c == 0 then 1 else 0
      ensures c != 0 ==> c in u && u[c] == tree[table] + [idx]
      ensures table in old(mem)
              && (Space(mem, pmm.Used()), c) == NextLevel(Space(old(mem), old(pmm.Used())), table, idx, kernelTable)
    {
      hide *;
      ValidFacts();
      u := tree;
      TreeFacts(mem, kroot, ks, tree, root);
      Unmoved(mem, tree, root);
      var entry := mem[table][idx];
      if !entry.flags.present {
        NextAbsent(Space(mem, pmm.Used()), table, idx, kernelTable);
        HangAnywhere(mem, kroot, ks, pmm.Used(), tree[table], idx);
        Fillings(mem, None);
        c, u := Hang(table, idx, None, tree, root);
        return;
      }
      TellApart(mem, kroot, ks, tree, root, table, idx);
      var kentry := if kernelTable.Some? then mem[kernelTable.value][idx] else ABSENT;
      NextPresent(Space(mem, pmm.Used()), table, idx, kernelTable);
      if kentry.flags.present && entry.frame == kentry.frame {
        HangSplit(mem, kroot, ks, tree, root, table, idx, pmm.Used(), kentry.frame);
        Fillings(mem, Some(kentry.frame));
        c, u := Hang(table, idx, Some(kentry.frame), tree, root);
        return;
      }
      c := entry.frame;
    }

    /** The page-directory level of paging_map_page_to: an absent or 2 MiB entry, or one with the frame of the
        kernel's, is replaced by a fresh page table. */
    method PageTableFor(pd: nat, v: nat, kpd: Option<nat>, ghost tree: Tree, ghost root: nat)
        returns (pt: nat, ghost u: Tree)
      requires Valid() && TreeOk(mem, kroot, ks, tree, root) && pd in tree && tree[pd] == [Index(v, 0), Index(v, 1)]
      requires kpd == KernelTable(mem, kroot, tree[pd]) && Reserved(mem, kroot, pmm.Used(), v)
      modifies this`mem, pmm, pmm.bitmap
      ensures Valid() && UsedGrows(old(pmm.Used()), pmm.Used()) && TreeOk(mem, kroot, ks, u, root)
      ensures SameView(old(mem), mem, root) && OnlyTree(old(mem), mem, tree) && Grown(old(mem), tree, u)
      ensures pt == 0 ==> Full(pmm.Used())
      ensures pmm.refused == old(pmm.refused) + if pt == 0 then 1 else 0
      ensures pt != 0 ==> pt in u && u[pt] == [Index(v, 0), Index(v, 1), Index(v, 2)]
      ensures pd in old(mem)
              && (Space(mem, pmm.Used()), pt) == TableFor(Space(old(mem), old(pmm.Used())), pd, Index(v, 2), kpd)
    {
      hide *;
      ValidFacts();
      u := tree;
      TreeFacts(mem, kroot, ks, tree, root);
      Unmoved(mem, tree, root);
      var i2 := Index(v, 2);
      TellApartLeaf(mem, kroot, ks, tree, root, pd, i2);
      assert [Index(v, 0), Index(v, 1)] + [i2] == [Index(v, 0), Index(v, 1), Index(v, 2)];
      var pde := mem[pd][i2];
      TableIs(Space(mem, pmm.Used()), pd, i2, kpd);
      if !pde.flags.present || pde.flags.ps
         || (kpd.Some? && mem[kpd.value][i2].flags.present && pde.frame == mem[kpd.value][i2].frame)
      {
        ReservedHang(mem, kroot, ks, pmm.Used(), v);
        Fillings(mem, None);
        pt, u := Hang(pd, i2, None, tree, root);
      } else {
        pt := pde.frame;
      }
    }

    /** The descent of paging_map_page_to to the page directory of v. 0 is the source's early return. */
    method ToDirectory(pml4: nat, v: nat, kpdpt: Option<nat>, ghost tree: Tree) returns (pd: nat, ghost u: Tree)
      requires Valid() && TreeOk(mem, kroot, ks, tree, pml4)
      requires kpdpt == KernelTable(mem, kroot, [Index(v, 0)]) == KernelBelow(mem, Some(kroot), Index(v, 0))
      modifies this`mem, pmm, pmm.bitmap
      ensures Valid() && UsedGrows(old(pmm.Used()), pmm.Used()) && TreeOk(mem, kroot, ks, u, pml4)
      ensures SameView(old(mem), mem, pml4) && OnlyTree(old(mem), mem, tree) && Grown(old(mem), tree, u)
      ensures pd == 0 ==> Full(pmm.Used())
      ensures pmm.refused == old(pmm.refused) + if pd == 0 then 1 else 0
      ensures pd != 0 ==> pd in u && u[pd] == [Index(v, 0), Index(v, 1)]
      ensures pml4 in old(mem)
              && (Space(mem, pmm.Used()), pd) == Directory(Space(old(mem), old(pmm.Used())), kroot, pml4, v)
    {
      hide *;
      ValidFacts();
      var i4, i3 := Index(v, 0), Index(v, 1);
      ghost var m0, used0 := mem, pmm.Used();
      TreeFacts(m0, kroot, ks, tree, pml4);
      KernelWay(m0, kroot, ks, v);
      var pdpt;
      pdpt, u := UserNextLevel(pml4, i4, Some(kroot), tree, pml4);
      ghost var m1, u1, used1 := mem, u, pmm.Used();
      DirectoryIs(Space(m0, used0), kroot, pml4, v, kpdpt, Space(m1, used1), pdpt);
      if pdpt == 0 {
        return 0, u;
      }
      TreeFacts(m1, kroot, ks, u1, pml4);
      assert [] + [i4] == [i4] && [i4] + [i3] == [i4, i3];
      KernelKept(m0, m1, kroot, ks, tree, pml4);
      pd, u := UserNextLevel(pdpt, i3, kpdpt, u1, pml4);
      StepTwice(m0, m1, mem, tree, u1, u, pml4);
      UsedChain(used0, used1, pmm.Used());
    }

    /** The descent to the page table of v. */
    method Descend(pml4: nat, v: nat, ghost tree: Tree) returns (pt: nat, ghost u: Tree)
      requires Valid() && TreeOk(mem, kroot, ks, tree, pml4) && Reserved(mem, kroot, pmm.Used(), v)
      modifies this`mem, pmm, pmm.bitmap
      ensures Valid() && UsedGrows(old(pmm.Used()), pmm.Used()) && TreeOk(mem, kroot, ks, u, pml4)
      ensures SameView(old(mem), mem, pml4) && OnlyTree(old(mem), mem, tree) && Grown(old(mem), tree, u)
      ensures pt == 0 ==> Full(pmm.Used())
      ensures pmm.refused == old(pmm.refused) + if pt == 0 then 1 else 0
      ensures pt != 0 ==> pt in u && u[pt] == [Index(v, 0), Index(v, 1), Index(v, 2)]
      ensures pml4 in old(mem)
              && (Space(mem, pmm.Used()), pt) == Descent(Space(old(mem), old(pmm.Used())), kroot, pml4, v)
    {
      hide *;
      ValidFacts();
      var i4, i3 := Index(v, 0), Index(v, 1);
      ghost var m0, used0 := mem, pmm.Used();
      TreeFacts(m0, kroot, ks, tree, pml4);
      KernelWay(m0, kroot, ks, v);
      KernelWayIs(m0, kroot, v);
      var kpdpt := if mem[kroot][i4].flags.present then Some(mem[kroot][i4].frame) else None;
      var kpd := if kpdpt.Some? && mem[kpdpt.value][i3].flags.present then Some(mem[kpdpt.value][i3].frame) else None;
      var pd;
      pd, u := ToDirectory(pml4, v, kpdpt, tree);
      ghost var m2, u2, used2 := mem, u, pmm.Used();
      DescentIs(Space(m0, used0), kroot, pml4, v, Space(m2, used2), pd);
      if pd == 0 {
        return 0, u;
      }
      TreeFacts(m2, kroot, ks, u2, pml4);
      KernelKept(m0, m2, kroot, ks, tree, pml4);
      ReservedKept(m0, m2, kroot, ks, tree, pml4, used0, pmm.Used(), v);
      pt, u := PageTableFor(pd, v, kpd, u2, pml4);
      StepTwice(m0, m2, mem, tree, u2, u, pml4);
      UsedChain(used0, used2, pmm.Used());
    }

    /** src/paging.c: paging_map_page_to. It returns nothing; ok tells whether memory sufficed. */
    method MapPageTo(pml4: nat, v: nat, frame: nat, flags: Flags, ghost tree: Tree)
        returns (ghost ok: bool, ghost u: Tree)
      requires Valid() && TreeOk(mem, kroot, ks, tree, pml4) && Reserved(mem, kroot, pmm.Used(), v)
      modifies this`mem, pmm, pmm.bitmap
      ensures Valid() && UsedGrows(old(pmm.Used()), pmm.Used()) && TreeOk(mem, kroot, ks, u, pml4)
      ensures OnlyTree(old(mem), mem, tree) && Grown(old(mem), tree, u)
      ensures ok ==> Mapped(old(mem), mem, pml4, v, Pte(frame, flags))
      ensures !ok ==> SameView(old(mem), mem, pml4) && Full(pmm.Used())
      ensures pmm.refused == old(pmm.refused) + if ok then 0 else 1
      ensures pml4 in old(mem)
              && Space(mem, pmm.Used()) == MapPage(Space(old(mem), old(pmm.Used())), kroot, pml4, v, Pte(frame, flags))
    {
      hide *;
      ValidFacts();
      ghost var m, used := mem, pmm.Used();
      var pt;
      pt, u := Descend(pml4, v, tree);
      MapPageIs(Space(m, used), kroot, pml4, v, Pte(frame, flags), Space(mem, pmm.Used()), pt);
      if pt == 0 {
        return false, u;
      }
      TreeFacts(mem, kroot, ks, u, pml4);
      ghost var m1 := mem;
      var n: Memory := mem[pt := mem[pt][Index(v, 3) := Pte(frame, flags)]];
      LeafEffect(m1, n, kroot, ks, u, pml4, pt, v, Pte(frame, flags));
      LeafMapped(m, m1, n, tree, u, pml4, v, Pte(frame, flags));
      WriteTables(n);
      ok := true;
    }

    /** A run of paging_map_page_to calls: afterwards every page shows its last mapping that went through. */
    method MapAll(pml4: nat, reqs: seq<Request>, ghost tree: Tree) returns (ghost done: seq<bool>, ghost u: Tree)
      requires Valid() && TreeOk(mem, kroot, ks, tree, pml4)
      requires forall q :: q in reqs ==> Reserved(mem, kroot, pmm.Used(), q.v)
      modifies this`mem, pmm, pmm.bitmap
      ensures Valid() && TreeOk(mem, kroot, ks, u, pml4) && |done| == |reqs|
      ensures OnlyTree(old(mem), mem, tree) && Grown(old(mem), tree, u)
      ensures forall v, write ::
              Walk(mem, pml4, v, 0, write) == Last(reqs, done, v, write, Walk(old(mem), pml4, v, 0, write))
      ensures !Full(pmm.Used()) ==> AllDone(done)
      ensures pmm.refused >= old(pmm.refused)
              && (pmm.refused == old(pmm.refused) <==> AllDone(done))
    {
      hide TreeOk, KernelOk, OnlyTree, Grown, Walk, Indices, LeafView, KernelTable, SameView, Mapped, Pmm.Count,
           MapPage, AllDone;
      ghost var m, used := mem, pmm.Used();
      done, u := [], tree;
      NoneLeft();
      Unmoved(m, tree, pml4);
      var i := 0;
      while i < |reqs|
        invariant i == |done| <= |reqs| && Valid() && TreeOk(mem, kroot, ks, u, pml4)
        invariant OnlyTree(m, mem, tree) && Grown(m, tree, u) && UsedGrows(used, pmm.Used())
        invariant forall v, write ::
                  Walk(mem, pml4, v, 0, write) == Last(reqs[..i], done, v, write, Walk(m, pml4, v, 0, write))
        invariant !Full(pmm.Used()) ==> AllDone(done)
        invariant pmm.refused >= old(pmm.refused)
                  && (pmm.refused == old(pmm.refused) <==> AllDone(done))
      {
        ghost var m1, u1, ok := mem, u, false;
        assert reqs[i] in reqs;
        ReservedKept(m, m1, kroot, ks, tree, pml4, used, pmm.Used(), reqs[i].v);
        ok, u := MapPageTo(pml4, reqs[i].v, reqs[i].frame, reqs[i].flags, u1);
        StepOnly(m, m1, mem, tree, u1, u);
        LastStep(reqs, i, done, ok, m, m1, mem, pml4);
        AllDoneMore(done, ok);
        done := done + [ok];
        i := i + 1;
      }
      assert reqs[..i] == reqs;
    }

    /** src/paging.c: paging_user_access_ok, for a process whose PML4 is pml4: exactly when every byte of the range
        can be walked to with the rights asked for, and the range does not wrap. */
    method UserAccessOk(pml4: nat, vaddr: nat, len: nat, write: bool) returns (ok: bool)
      requires vaddr < TOP && len < TOP
      ensures ok <==> len == 0 || (vaddr + len < TOP && Accessible(mem, pml4, vaddr, vaddr + len, write))
    {
      hide Walk;
      if len == 0 {
        return true;
      }
      var end := (vaddr + len) % TOP;
      if end < vaddr {
        return false;
      }
      var v := vaddr;
      while v < end
        invariant vaddr <= v && Accessible(mem, pml4, vaddr, if v < end then v else end, write)
        decreases end - v
      {
        var leaf := Walk(mem, pml4, v, 0, write);
        if leaf == None {
          assert !Accessible(mem, pml4, vaddr, end, write);
          return false;
        }
        var psize := PageSize(leaf.value);
        PageAccessible(mem, pml4, v, write);
        NextPage(v, psize);
        v := (v / psize * psize + psize) % TOP;
        if v == 0 {
          return true;
        }
      }
      ok := true;
    }

    /** src/paging.c: paging_user_str_ok. n is returned exactly when the first NUL is byte n, below maxlen, and
        bytes 0 to n are all accessible; otherwise -1. */
    method UserStrOk(pml4: nat, s: nat, maxlen: nat, ram: nat -> int) returns (r: int)
      ensures r >= 0 ==> r < maxlen && StringAt(mem, pml4, ram, s, r)
      ensures r < 0 ==> r == -1 && forall n: nat :: n < maxlen ==> !StringAt(mem, pml4, ram, s, n)
    {
      hide Walk, StringAt, UserByte;
      var addr, len := s, 0;
      while len < maxlen
        invariant len <= maxlen && addr == s + len && NoNul(mem, pml4, ram, s, len)
        decreases maxlen - len
      {
        var leaf := Walk(mem, pml4, addr, 0, false);
        if leaf == None {
          StringNeeds(mem, pml4, ram, s, len);
          StringExcludes(mem, pml4, ram, s, len);
          return -1;
        }
        var psize := PageSize(leaf.value);
        ghost var v0 := addr;
        var off := addr % psize;
        var phys := leaf.value.e.frame * PAGE + off;
        var pageRem := psize - off;
        while pageRem > 0 && len < maxlen
          invariant 0 <= pageRem <= psize - off && v0 <= addr == s + len && len <= maxlen
          invariant addr == v0 + (psize - off - pageRem) && phys == leaf.value.e.frame * PAGE + off + (addr - v0)
          invariant NoNul(mem, pml4, ram, s, len)
          invariant addr == v0 ==> pageRem > 0 && len < maxlen
          decreases pageRem
        {
          ByteInPage(mem, pml4, ram, v0, addr);
          if ram(phys) == 0 {
            StringEnds(mem, pml4, ram, s, len);
            return len;
          }
          pageRem, phys, addr, len := pageRem - 1, phys + 1, addr + 1, len + 1;
        }
      }
      StringExcludes(mem, pml4, ram, s, len);
      r := -1;
    }

    /** One range of paging_collect_user_rw. */
    method CollectRange(pml4: nat, lo: nat, hi: nat, have: seq<UserPage>, max: nat) returns (out: seq<UserPage>)
      requires lo <= hi && (hi - lo) % PAGE == 0 && |have| <= max
      ensures |out| <= max && out == Cut(have + WritablePages(mem, pml4, lo, (hi - lo) / PAGE), max)
    {
      hide Walk, PageSize;
      out := have;
      var v := lo;
      ghost var k, n := 0, (hi - lo) / PAGE;
      assert hi == lo + n * PAGE;
      while v < hi && |out| < max
        invariant v == lo + k * PAGE && k <= n && |out| <= max
        invariant out == have + WritablePages(mem, pml4, lo, k)
        decreases hi - v
      {
        var leaf := Walk(mem, pml4, v, 0, true);
        if leaf.Some? {
          out := out + [UserPage(v, leaf.value.e.frame * PAGE + v % PageSize(leaf.value))];
        }
        v, k := v + PAGE, k + 1;
      }
      PagesPrefix(mem, pml4, lo, k, n);
    }

    /** src/paging.c: paging_collect_user_rw: the writable pages of the app window, then of the stack, up to max. */
    method CollectUserRw(pml4: nat, max: nat) returns (out: seq<UserPage>)
      ensures out == Cut(WritablePages(mem, pml4, APP_LO, (APP_HI - APP_LO) / PAGE)
                         + WritablePages(mem, pml4, STACK_LO, (STACK_HI - STACK_LO) / PAGE), max)
    {
      hide Walk, WritablePages;
      out := CollectRange(pml4, APP_LO, APP_HI, [], max);
      out := CollectRange(pml4, STACK_LO, STACK_HI, out, max);
    }
  }
}
