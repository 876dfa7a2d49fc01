/** Four-level page tables as values: the user walk, private trees split off the kernel's tables,
    and what each kind of write to a private tree does to the user's view. */
module PageTables {
  import opened Wrappers
  import opened Bytes

  const ENTRIES: nat := 512
  const HUGE: nat := 0x20_0000

  /** The flag bits of an entry that decide a walk. */
  datatype Flags = Flags(present: bool, rw: bool, user: bool, ps: bool, nx: bool)

  datatype Pte = Pte(frame: nat, flags: Flags)

  const ABSENT: Pte := Pte(0, Flags(false, false, false, false, false))
  const TABLE: Flags := Flags(true, true, true, false, false)     // PRESENT | READ_WRITE | USER

  type Table = t: seq<Pte> | |t| == ENTRIES witness seq(ENTRIES, i => ABSENT)

  function Zero(): Table { seq(ENTRIES, i => ABSENT) }

  /** The tables in physical memory, by page frame number. */
  type Memory = map<nat, Table>

  /** A walk's answer: the leaf entry, and whether it maps 2 MiB. */
  datatype Leaf = Leaf(e: Pte, huge: bool)

  /** Index into the table at depth d (0 is the PML4) for address v. */
  function Index(v: nat, d: nat): (i: nat)
    requires d < 4
    ensures i < ENTRIES
  {
    if d == 0 then v / 0x80_0000_0000 % ENTRIES
    else if d == 1 then v / 0x4000_0000 % ENTRIES
    else if d == 2 then v / HUGE % ENTRIES
    else v / PAGE % ENTRIES
  }

  /** The user walk below table t at depth d: PRESENT and USER at every level, and for a write
      READ_WRITE at the leaf. None is the source's 0. */
  function Walk(m: Memory, t: nat, v: nat, d: nat, write: bool): (r: Option<Leaf>)
    requires d < 4
    decreases 4 - d
  {
    if t !in m then None
    else
      var e := m[t][Index(v, d)];
      if !e.flags.present || !e.flags.user then None
      else if d == 3 then (if write && !e.flags.rw then None else Some(Leaf(e, false)))
      else if d == 2 && e.flags.ps then (if write && !e.flags.rw then None else Some(Leaf(e, true)))
      else Walk(m, e.frame, v, d + 1, write)
  }

  /** What user mode may do at an address besides reading it. */
  datatype Rights = Rights(write: bool, exec: bool)

  /** The CPU's walk for user mode (Intel SDM, volume 3A, section 4.6): every level must be present and for users;
      writing needs READ_WRITE at every level, executing needs every level without the no-execute bit. */
  function Cpu(m: Memory, t: nat, v: nat, d: nat): (r: Option<Rights>)
    requires d < 4
    decreases 4 - d
  {
    if t !in m then None
    else
      var e := m[t][Index(v, d)];
      if !e.flags.present || !e.flags.user then None
      else if d == 3 || (d == 2 && e.flags.ps) then Some(Rights(e.flags.rw, !e.flags.nx))
      else
        match Cpu(m, e.frame, v, d + 1)
        case None => None
        case Some(r) => Some(Rights(e.flags.rw && r.write, !e.flags.nx && r.exec))
  }

  /** The physical address behind v (Intel SDM, volume 3A, section 4.5): a leaf at the last level maps 4 KiB, one at the
      page directory 2 MiB. */
  function CpuPhys(m: Memory, t: nat, v: nat, d: nat): (p: nat)
    requires d < 4
    decreases 4 - d
  {
    if t !in m then 0
    else
      var e := m[t][Index(v, d)];
      if d == 3 then e.frame * PAGE + v % PAGE
      else if d == 2 && e.flags.ps then e.frame * PAGE + v % HUGE
      else CpuPhys(m, e.frame, v, d + 1)
  }

  /** In any memory the walk reads where the CPU does; for a write it asks the leaf alone. */
  lemma {:induction false} CpuReads(m: Memory, t: nat, v: nat, d: nat)
    requires d < 4
    ensures Walk(m, t, v, d, false).Some? <==> Cpu(m, t, v, d).Some?
    ensures Walk(m, t, v, d, false).Some? ==>
              var l := Walk(m, t, v, d, false).value;
              && CpuPhys(m, t, v, d) == l.e.frame * PAGE + v % (if l.huge then HUGE else PAGE)
              && Walk(m, t, v, d, true) == (if l.e.flags.rw then Some(l) else None)
              && (Cpu(m, t, v, d).value.write ==> l.e.flags.rw) && (Cpu(m, t, v, d).value.exec ==> !l.e.flags.nx)
    ensures Walk(m, t, v, d, true).Some? ==> Walk(m, t, v, d, false).Some?
    decreases 4 - d
  {
    if t in m && d < 3 && !(d == 2 && m[t][Index(v, d)].flags.ps) {
      CpuReads(m, m[t][Index(v, d)].frame, v, d + 1);
    }
  }

  // ---- The kernel's tables ----

  /** The kernel table at the end of a path of indices, if the path is present. */
  function KernelTable(m: Memory, kroot: nat, p: seq<nat>): (t: Option<nat>) {
    if p == [] then Some(kroot)
    else
      match KernelTable(m, kroot, p[..|p| - 1])
      case None => None
      case Some(t) =>
        var i := p[|p| - 1];
        if t in m && i < ENTRIES && m[t][i].flags.present then Some(m[t][i].frame) else None
  }

  /** Three levels of supervisor tables; the entries of the third are 2 MiB pages. */
  ghost predicate KernelOk(m: Memory, kroot: nat, ks: set<nat>) {
    && (forall k :: k in ks ==> k in m)
    && (forall p :: |p| <= 2 && KernelTable(m, kroot, p).Some? ==> KernelTable(m, kroot, p).value in ks)
    && (forall k, i :: k in ks && 0 <= i < ENTRIES ==> !m[k][i].flags.user)
    && (forall p, i :: |p| == 2 && KernelTable(m, kroot, p).Some? && 0 <= i < ENTRIES ==>
          m[KernelTable(m, kroot, p).value][i].flags.present ==> m[KernelTable(m, kroot, p).value][i].flags.ps)
  }

  // ---- Private trees ----

  /** Where each private table hangs: the indices that lead to it from the root. */
  type Tree = map<nat, seq<nat>>

  /** The entry is the kernel's own at this place. */
  ghost predicate Shared(m: Memory, kroot: nat, p: seq<nat>, i: nat, e: Pte)
    requires i < ENTRIES
  {
    |p| <= 2 && KernelTable(m, kroot, p).Some? && KernelTable(m, kroot, p).value in m
        && m[KernelTable(m, kroot, p).value][i] == e
  }

  ghost predicate Private(tree: Tree, p: seq<nat>, i: nat, e: Pte) {
    |p| < 3 && e.flags == TABLE && e.frame in tree && tree[e.frame] == p + [i]
  }

  /** Every entry above the leaves is absent, the kernel's own, or leads to the private table of its place. */
  ghost predicate EntryOk(m: Memory, kroot: nat, tree: Tree, p: seq<nat>, i: nat, e: Pte)
    requires i < ENTRIES
  {
    |p| == 3 || !e.flags.present || Shared(m, kroot, p, i, e) || Private(tree, p, i, e)
  }

  /** No private page table lies where the kernel's 2 MiB page for its place begins: the comparison of
      frames would take it for the kernel's own. */
  ghost predicate NoShadow(m: Memory, kroot: nat, p: seq<nat>, f: nat) {
    |p| == 3 ==>
      forall k :: KernelTable(m, kroot, p[..2]) == Some(k) && k in m && p[2] < ENTRIES && m[k][p[2]].flags.present ==>
          m[k][p[2]].frame != f
  }

  /** Every private table but the root hangs in its parent. */
  ghost predicate Hangs(m: Memory, tree: Tree, f: nat)
    requires f in tree
  {
    tree[f] == [] ||
    exists h :: h in tree && h in m && tree[h] == tree[f][..|tree[f]| - 1] && tree[f][|tree[f]| - 1] < ENTRIES
                && m[h][tree[f][|tree[f]| - 1]] == Pte(f, TABLE)
  }

  ghost predicate TreeOk(m: Memory, kroot: nat, ks: set<nat>, tree: Tree, root: nat) {
    && KernelOk(m, kroot, ks)
    && root in tree && tree[root] == []
    && (forall f :: f in tree ==> f in m && f !in ks && |tree[f]| <= 3 && NoShadow(m, kroot, tree[f], f))
    && (forall f, h :: f in tree && h in tree && tree[f] == tree[h] ==> f == h)
    && (forall f :: f in tree ==> Hangs(m, tree, f))
    && (forall f, i :: f in tree && 0 <= i < ENTRIES ==> EntryOk(m, kroot, tree, tree[f], i, m[f][i]))
  }

  /** The indices of an address, from depth a on. */
  function Indices(v: nat): (p: seq<nat>)
    ensures |p| == 4 && forall d :: 0 <= d < 4 ==> p[d] == Index(v, d)
  {
    [Index(v, 0), Index(v, 1), Index(v, 2), Index(v, 3)]
  }

  lemma {:induction false} KernelTableFrame(m: Memory, n: Memory, kroot: nat, ks: set<nat>, p: seq<nat>)
    requires KernelOk(m, kroot, ks) && |p| <= 2
    requires forall k :: k in ks ==> k in n && n[k] == m[k]
    ensures KernelTable(n, kroot, p) == KernelTable(m, kroot, p)
    decreases |p|
  {
    if p != [] {
      KernelTableFrame(m, n, kroot, ks, p[..|p| - 1]);
    }
  }

  /** Memory that keeps the kernel's tables keeps everything said about them. */
  lemma KernelFrame(m: Memory, n: Memory, kroot: nat, ks: set<nat>)
    requires KernelOk(m, kroot, ks)
    requires forall k :: k in ks ==> k in n && n[k] == m[k]
    ensures KernelOk(n, kroot, ks)
    ensures forall p :: |p| <= 2 ==> KernelTable(n, kroot, p) == KernelTable(m, kroot, p)
  {
    forall p: seq<nat> | |p| <= 2 ensures KernelTable(n, kroot, p) == KernelTable(m, kroot, p) {
      KernelTableFrame(m, n, kroot, ks, p);
    }
  }

  /** A walk that meets a supervisor table ends there. */
  lemma SupervisorWalk(m: Memory, t: nat, v: nat, d: nat, write: bool)
    requires d < 4 && t in m && forall i :: 0 <= i < ENTRIES ==> !m[t][i].flags.user || !m[t][i].flags.present
    ensures Walk(m, t, v, d, write) == None
  {}

  // ---- Giving a place a private table ----

  /** n is m with a fresh table c hung at entry i of private table f, in place of an entry no user walk passes. */
  ghost predicate Hung(m: Memory, n: Memory, ks: set<nat>, tree: Tree, f: nat, i: nat, c: nat) {
    && f in tree && f in m && i < ENTRIES && c !in m && c !in tree && |tree[f]| <= 2
    && n.Keys == m.Keys + {c}
    && n[f] == m[f][i := Pte(c, TABLE)]
    && (forall x :: x in m && x != f ==> n[x] == m[x])
    && (!m[f][i].flags.present || !m[f][i].flags.user)
    && (forall j :: 0 <= j < ENTRIES ==> !n[c][j].flags.present || !n[c][j].flags.user)
  }

  lemma {:induction false} HungWalk(m: Memory, n: Memory, kroot: nat, ks: set<nat>, tree: Tree, root: nat, f: nat,
                                    i: nat, c: nat,
                                    t: nat, v: nat, d: nat, write: bool)
    requires TreeOk(m, kroot, ks, tree, root) && Hung(m, n, ks, tree, f, i, c)
    requires t in tree && |tree[t]| == d < 4
    ensures Walk(n, t, v, d, write) == Walk(m, t, v, d, write)
    decreases 4 - d
  {
    var j := Index(v, d);
    var e := m[t][j];
    assert EntryOk(m, kroot, tree, tree[t], j, e);
    if t == f && j == i {
      SupervisorWalk(n, c, v, d + 1, write);
    } else {
      assert n[t][j] == e;
      if d < 3 && Private(tree, tree[t], j, e) {
        HungWalk(m, n, kroot, ks, tree, root, f, i, c, e.frame, v, d + 1, write);
      } else if d < 3 && e.flags.present {
        assert !e.flags.user;
      }
    }
  }

  /** In a private tree the leaf alone decides, as user_walk_leaf has it. */
  lemma {:induction false} CpuAgrees(m: Memory, kroot: nat, ks: set<nat>, tree: Tree, root: nat, t: nat, v: nat, d: nat)
    requires TreeOk(m, kroot, ks, tree, root) && t in tree && |tree[t]| == d < 4
    ensures Cpu(m, t, v, d).Some? <==> Walk(m, t, v, d, false).Some?
    ensures Cpu(m, t, v, d).Some? ==>
              var l := Walk(m, t, v, d, false).value;
              Cpu(m, t, v, d) == Some(Rights(l.e.flags.rw, !l.e.flags.nx))
    ensures Walk(m, t, v, d, true) ==
              if Cpu(m, t, v, d).Some? && Cpu(m, t, v, d).value.write then Walk(m, t, v, d, false) else None
    decreases 4 - d
  {
    var e := m[t][Index(v, d)];
    assert EntryOk(m, kroot, tree, tree[t], Index(v, d), e);
    if d < 3 && Private(tree, tree[t], Index(v, d), e) {
      CpuAgrees(m, kroot, ks, tree, root, e.frame, v, d + 1);
    } else if d < 3 && e.flags.present {
      assert !e.flags.user;
    }
  }

  lemma SharedFrame(m: Memory, n: Memory, kroot: nat, ks: set<nat>, p: seq<nat>, i: nat, e: Pte)
    requires KernelOk(m, kroot, ks) && i < ENTRIES && forall k :: k in ks ==> k in n && n[k] == m[k]
    ensures Shared(n, kroot, p, i, e) <==> Shared(m, kroot, p, i, e)
  {
    if |p| <= 2 { KernelTableFrame(m, n, kroot, ks, p); }
  }

  lemma NoShadowFrame(m: Memory, n: Memory, kroot: nat, ks: set<nat>, p: seq<nat>, f: nat)
    requires KernelOk(m, kroot, ks) && |p| <= 3 && forall k :: k in ks ==> k in n && n[k] == m[k]
    requires NoShadow(m, kroot, p, f)
    ensures NoShadow(n, kroot, p, f)
  {
    if |p| == 3 {
      KernelTableFrame(m, n, kroot, ks, p[..2]);
    }
  }

  /** What the new table may hold: nothing, or exactly the kernel's table of that place. */
  ghost predicate Fill(m: Memory, kroot: nat, q: seq<nat>, t: Table) {
    forall j :: 0 <= j < ENTRIES ==> !t[j].flags.present || Shared(m, kroot, q, j, t[j])
  }

  /** No table hangs yet at a place whose entry is absent or the kernel's. */
  lemma PlaceIsFree(m: Memory, kroot: nat, ks: set<nat>, tree: Tree, root: nat, f: nat, i: nat, h: nat)
    requires TreeOk(m, kroot, ks, tree, root) && f in tree && i < ENTRIES && h in tree
    requires !m[f][i].flags.present || !m[f][i].flags.user
    ensures tree[h] != tree[f] + [i]
  {
    assert Hangs(m, tree, h);
    assert (tree[f] + [i])[..|tree[f]|] == tree[f];
  }

  lemma HungTables(m: Memory, n: Memory, kroot: nat, ks: set<nat>, tree: Tree, root: nat, f: nat, i: nat, c: nat)
    requires TreeOk(m, kroot, ks, tree, root) && Hung(m, n, ks, tree, f, i, c) && c !in ks
    requires NoShadow(m, kroot, tree[f] + [i], c)
    ensures var u := tree[c := tree[f] + [i]];
            && KernelOk(n, kroot, ks) && root in u && u[root] == []
            && (forall h :: h in u ==> h in n && h !in ks && |u[h]| <= 3 && NoShadow(n, kroot, u[h], h))
            && (forall h :: h in u ==> Hangs(n, u, h))
            && (forall g, h :: g in u && h in u && u[g] == u[h] ==> g == h)
  {
    var u := tree[c := tree[f] + [i]];
    KernelFrame(m, n, kroot, ks);
    forall h | h in u ensures NoShadow(n, kroot, u[h], h) {
      NoShadowFrame(m, n, kroot, ks, u[h], h);
    }
    forall h | h in tree ensures tree[h] != tree[f] + [i] {
      PlaceIsFree(m, kroot, ks, tree, root, f, i, h);
    }
    forall h | h in u ensures Hangs(n, u, h) {
      HungHangs(m, n, kroot, ks, tree, root, f, i, c, h);
    }
  }

  /** A table that hangs from g keeps hanging there: the entry that changes was not in use. */
  lemma StillHangs(m: Memory, n: Memory, ks: set<nat>, tree: Tree, f: nat, i: nat, c: nat, h: nat)
    requires Hung(m, n, ks, tree, f, i, c) && h in tree && h != c && Hangs(m, tree, h)
    ensures Hangs(n, tree[c := tree[f] + [i]], h)
  {
    var u := tree[c := tree[f] + [i]];
    if u[h] != [] {
      var g :| g in tree && g in m && tree[g] == tree[h][..|tree[h]| - 1] && tree[h][|tree[h]| - 1] < ENTRIES
               && m[g][tree[h][|tree[h]| - 1]] == Pte(h, TABLE);
      assert g in u && n[g][tree[h][|tree[h]| - 1]] == Pte(h, TABLE);
    }
  }

  lemma HungHangs(m: Memory, n: Memory, kroot: nat, ks: set<nat>, tree: Tree, root: nat, f: nat, i: nat, c: nat, h: nat)
    requires TreeOk(m, kroot, ks, tree, root) && Hung(m, n, ks, tree, f, i, c)
    requires h == c || h in tree
    ensures Hangs(n, tree[c := tree[f] + [i]], h)
  {
    hide EntryOk, NoShadow, KernelOk;
    var u := tree[c := tree[f] + [i]];
    if h == c {
      assert u[c][..|u[c]| - 1] == u[f] && n[f][i] == Pte(c, TABLE);
    } else {
      hide Hangs, Hung;
      assert Hangs(m, tree, h);
      StillHangs(m, n, ks, tree, f, i, c, h);
    }
  }

  /** A fresh table in a free place keeps the tree well formed. */
  lemma HungTree(m: Memory, n: Memory, kroot: nat, ks: set<nat>, tree: Tree, root: nat, f: nat, i: nat, c: nat)
    requires TreeOk(m, kroot, ks, tree, root) && Hung(m, n, ks, tree, f, i, c) && c !in ks
    requires NoShadow(m, kroot, tree[f] + [i], c) && Fill(m, kroot, tree[f] + [i], n[c])
    ensures TreeOk(n, kroot, ks, tree[c := tree[f] + [i]], root)
  {
    hide Hangs, KernelOk, NoShadow, Shared;
    var u := tree[c := tree[f] + [i]];
    HungTables(m, n, kroot, ks, tree, root, f, i, c);
    forall h, j | h in u && 0 <= j < ENTRIES ensures EntryOk(n, kroot, u, u[h], j, n[h][j]) {
      HungEntry(m, n, kroot, ks, tree, root, f, i, c, h, j);
    }
  }

  lemma HungEntry(m: Memory, n: Memory, kroot: nat, ks: set<nat>, tree: Tree, root: nat, f: nat, i: nat, c: nat,
                  h: nat, j: nat)
    requires TreeOk(m, kroot, ks, tree, root) && Hung(m, n, ks, tree, f, i, c) && c !in ks
    requires Fill(m, kroot, tree[f] + [i], n[c]) && (h == c || h in tree) && j < ENTRIES
    ensures EntryOk(n, kroot, tree[c := tree[f] + [i]], if h == c then tree[f] + [i] else tree[h], j, n[h][j])
  {
    hide Hangs, NoShadow, Shared;
    if h == c {
      SharedFrame(m, n, kroot, ks, tree[f] + [i], j, n[c][j]);
    } else {
      SharedFrame(m, n, kroot, ks, tree[h], j, n[h][j]);
      assert EntryOk(m, kroot, tree, tree[h], j, m[h][j]);
    }
  }

  // ---- Writing a leaf ----

  /** A leaf entry as a user access sees it. */
  function LeafView(e: Pte, write: bool): Option<Leaf> {
    if !e.flags.present || !e.flags.user || (write && !e.flags.rw) then None else Some(Leaf(e, false))
  }

  /** From any private table, the way to a private table below it is open. */
  lemma {:induction false} Leads(m: Memory, kroot: nat, ks: set<nat>, tree: Tree, root: nat, t: nat, f: nat)
      returns (h: nat)
    requires TreeOk(m, kroot, ks, tree, root) && t in tree && f in tree
    requires |tree[f]| < |tree[t]| && tree[t][..|tree[f]|] == tree[f]
    ensures tree[t][|tree[f]|] < ENTRIES && m[f][tree[t][|tree[f]|]] == Pte(h, TABLE)
    ensures h in tree && tree[h] == tree[t][..|tree[f]| + 1]
    decreases |tree[t]|
  {
    hide KernelOk, NoShadow, EntryOk, Hangs;
    var k := |tree[t]| - 1;
    var g := Parent(m, tree, t);
    PrefixOfPrefix(tree[t], |tree[f]|, k);
    if |tree[f]| == k {
      h := t;
    } else {
      PrefixOfPrefix(tree[t], |tree[f]| + 1, k);
      h := Leads(m, kroot, ks, tree, root, g, f);
    }
  }

  lemma PrefixOfPrefix(p: seq<nat>, a: nat, b: nat)
    requires a <= b <= |p|
    ensures p[..b][..a] == p[..a]
  {}

  lemma Parent(m: Memory, tree: Tree, t: nat) returns (g: nat)
    requires t in tree && tree[t] != [] && Hangs(m, tree, t)
    ensures g in tree && g in m && tree[g] == tree[t][..|tree[t]| - 1] && tree[t][|tree[t]| - 1] < ENTRIES
    ensures m[g][tree[t][|tree[t]| - 1]] == Pte(t, TABLE)
  {
    g :| g in tree && g in m && tree[g] == tree[t][..|tree[t]| - 1] && tree[t][|tree[t]| - 1] < ENTRIES
         && m[g][tree[t][|tree[t]| - 1]] == Pte(t, TABLE);
  }

  /** The write of one leaf changes the view of exactly its own page. */
  lemma {:induction false} LeafWalk(m: Memory, n: Memory, kroot: nat, ks: set<nat>, tree: Tree, root: nat, t: nat,
                                    i: nat, e: Pte,
                                    f: nat, v: nat, d: nat, write: bool)
    requires TreeOk(m, kroot, ks, tree, root) && t in tree && |tree[t]| == 3 && i < ENTRIES && n == m[t := m[t][i := e]]
    requires f in tree && |tree[f]| == d < 4
    ensures Walk(n, f, v, d, write)
         == if tree[f] + Indices(v)[d..] == tree[t] + [i] then LeafView(e, write) else Walk(m, f, v, d, write)
    decreases 4 - d
  {
    hide KernelOk, NoShadow, Hangs, Indices, Shared, Index;
    var j := Index(v, d);
    var x := m[f][j];
    assert EntryOk(m, kroot, tree, tree[f], j, x);
    HereStep(tree[f], Indices(v), d, tree[t] + [i]);
    if d == 3 {
      assert Indices(v)[4..] == [] && (tree[t] + [i])[..3] == tree[t];
    } else {
      if tree[f] + Indices(v)[d..] == tree[t] + [i] {
        assert (tree[t] + [i])[..d] == tree[t][..d];
        var h := Leads(m, kroot, ks, tree, root, t, f);
        assert x == Pte(h, TABLE);
      }
      if Private(tree, tree[f], j, x) {
        LeafWalk(m, n, kroot, ks, tree, root, t, i, e, x.frame, v, d + 1, write);
      } else if x.flags.present {
        SupervisorEntry(m, kroot, ks, tree[f], j, x);
      }
    }
  }

  lemma HereStep(p: seq<nat>, ix: seq<nat>, d: nat, goal: seq<nat>)
    requires |p| == d < |ix| == |goal|
    ensures (p + [ix[d]]) + ix[d + 1..] == p + ix[d..]
    ensures p + ix[d..] == goal ==> goal[..d] == p && goal[d] == ix[d]
  {
    assert ix[d..] == [ix[d]] + ix[d + 1..];
    if p + ix[d..] == goal {
      assert goal[d] == (p + ix[d..])[d];
    }
  }

  /** The kernel's own entries are supervisor entries. */
  lemma SupervisorEntry(m: Memory, kroot: nat, ks: set<nat>, p: seq<nat>, i: nat, e: Pte)
    requires KernelOk(m, kroot, ks) && i < ENTRIES && Shared(m, kroot, p, i, e)
    ensures !e.flags.user
  {}

  /** The write of a leaf keeps the tree well formed. */
  lemma LeafTree(m: Memory, n: Memory, kroot: nat, ks: set<nat>, tree: Tree, root: nat, t: nat, i: nat, e: Pte)
    requires TreeOk(m, kroot, ks, tree, root) && t in tree && |tree[t]| == 3 && i < ENTRIES && n == m[t := m[t][i := e]]
    ensures TreeOk(n, kroot, ks, tree, root)
  {
    KernelFrame(m, n, kroot, ks);
    forall h | h in tree ensures NoShadow(n, kroot, tree[h], h) && Hangs(n, tree, h) {
      NoShadowFrame(m, n, kroot, ks, tree[h], h);
      assert Hangs(m, tree, h);
    }
    forall h, j | h in tree && 0 <= j < ENTRIES ensures EntryOk(n, kroot, tree, tree[h], j, n[h][j]) {
      SharedFrame(m, n, kroot, ks, tree[h], j, n[h][j]);
      assert EntryOk(m, kroot, tree, tree[h], j, m[h][j]);
    }
  }

  // ---- A fresh clone, and other processes ----

  /** A copy of the kernel's PML4 is a tree of its own that shows the user nothing. */
  lemma CloneTree(m: Memory, n: Memory, kroot: nat, ks: set<nat>, c: nat)
    requires KernelOk(m, kroot, ks) && kroot in ks && c !in m && n == m[c := m[kroot]]
    ensures TreeOk(n, kroot, ks, map[c := []], c)
    ensures forall v, write :: Walk(n, c, v, 0, write) == None
  {
    KernelFrame(m, n, kroot, ks);
    assert KernelTable(m, kroot, []) == Some(kroot);
  }

  /** What a process sees depends on its own tables and the kernel's alone. */
  lemma {:induction false} OtherWalk(m: Memory, n: Memory, kroot: nat, ks: set<nat>, tree: Tree, root: nat, t: nat,
                                     v: nat, d: nat, write: bool)
    requires TreeOk(m, kroot, ks, tree, root) && t in tree && |tree[t]| == d < 4
    requires forall f :: f in tree ==> f in n && n[f] == m[f]
    ensures Walk(n, t, v, d, write) == Walk(m, t, v, d, write)
    decreases 4 - d
  {
    var e := m[t][Index(v, d)];
    assert EntryOk(m, kroot, tree, tree[t], Index(v, d), e);
    if d < 3 && Private(tree, tree[t], Index(v, d), e) {
      OtherWalk(m, n, kroot, ks, tree, root, e.frame, v, d + 1, write);
    } else if d < 3 && e.flags.present {
      assert !e.flags.user;
    }
  }

  lemma OtherTree(m: Memory, n: Memory, kroot: nat, ks: set<nat>, tree: Tree, root: nat)
    requires TreeOk(m, kroot, ks, tree, root)
    requires forall f :: f in tree || f in ks ==> f in n && n[f] == m[f]
    ensures TreeOk(n, kroot, ks, tree, root)
    ensures forall v, write :: Walk(n, root, v, 0, write) == Walk(m, root, v, 0, write)
  {
    KernelFrame(m, n, kroot, ks);
    forall h | h in tree ensures NoShadow(n, kroot, tree[h], h) && Hangs(n, tree, h) {
      NoShadowFrame(m, n, kroot, ks, tree[h], h);
      assert Hangs(m, tree, h);
    }
    forall h, j | h in tree && 0 <= j < ENTRIES ensures EntryOk(n, kroot, tree, tree[h], j, n[h][j]) {
      SharedFrame(m, n, kroot, ks, tree[h], j, n[h][j]);
      assert EntryOk(m, kroot, tree, tree[h], j, m[h][j]);
    }
    forall v, write ensures Walk(n, root, v, 0, write) == Walk(m, root, v, 0, write) {
      OtherWalk(m, n, kroot, ks, tree, root, root, v, 0, write);
    }
  }
}
