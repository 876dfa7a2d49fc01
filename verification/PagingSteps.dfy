/** paging_map_page_to as a function of the tables in memory and the page bitmap. */
module PagingSteps {
  import opened Wrappers
  import opened Bytes
  import opened PageTables

  datatype Space = Space(m: Memory, used: seq<bool>)

  /** The lowest free page from i on; 0 if there is none. */
  function Lowest(used: seq<bool>, i: nat): (p: nat)
    requires i <= |used|
    ensures p != 0 ==> i <= p < |used| && !used[p] && forall j :: i <= j < p ==> used[j]
    ensures p == 0 ==> (i == 0 && |used| > 0 && !used[0]) || forall j :: i <= j < |used| ==> used[j]
    decreases |used| - i
  {
    if i == |used| then 0 else if !used[i] then i else Lowest(used, i + 1)
  }

  /** What a new table holds: a copy of a kernel table, or nothing. */
  function Filling(m: Memory, copyOf: Option<nat>): (t: Table) {
    if copyOf.Some? && copyOf.value in m then m[copyOf.value] else Zero()
  }

  /** Table c filled with t and hung at entry idx of another. */
  function Hooked(m: Memory, table: nat, idx: nat, c: nat, t: Table): (n: Memory)
    requires table in m && idx < ENTRIES
    ensures n.Keys == m.Keys + {c}
  {
    m[c := t][table := m[table][idx := Pte(c, TABLE)]]
  }

  /** A table with contents t on a fresh page, hung at entry idx of a table; nothing happens if no page is left. */
  function Hook(s: Space, table: nat, idx: nat, t: Table): (r: (Space, nat))
    requires table in s.m && idx < ENTRIES
    ensures s.m.Keys <= r.0.m.Keys
  {
    var p := Lowest(s.used, 0);
    if p == 0 then (s, 0)
    else (Space(Hooked(s.m, table, idx, p, t), s.used[p := true]), p)
  }

  /** The entry has the frame of the kernel's. */
  predicate SameFrame(m: Memory, kernelTable: Option<nat>, idx: nat, e: Pte)
    requires idx < ENTRIES
  {
    && kernelTable.Some? && kernelTable.value in m
    && m[kernelTable.value][idx].flags.present && e.frame == m[kernelTable.value][idx].frame
  }

  /** user_next_level. */
  function NextLevel(s: Space, table: nat, idx: nat, kernelTable: Option<nat>): (r: (Space, nat))
    requires table in s.m && idx < ENTRIES
    ensures s.m.Keys <= r.0.m.Keys
  {
    var e := s.m[table][idx];
    if !e.flags.present then Hook(s, table, idx, Zero())
    else if SameFrame(s.m, kernelTable, idx, e)
      then (if e.frame in s.m then Hook(s, table, idx, s.m[e.frame]) else (s, 0))
    else (s, e.frame)
  }

  /** The page-directory level. */
  function TableFor(s: Space, pd: nat, idx: nat, kernelTable: Option<nat>): (r: (Space, nat))
    requires pd in s.m && idx < ENTRIES
    ensures s.m.Keys <= r.0.m.Keys
  {
    var e := s.m[pd][idx];
    if !e.flags.present || e.flags.ps || SameFrame(s.m, kernelTable, idx, e) then Hook(s, pd, idx, Zero())
      else (s, e.frame)
  }

  /** The kernel's table below entry idx of another. */
  function KernelBelow(m: Memory, k: Option<nat>, idx: nat): (r: Option<nat>)
    requires idx < ENTRIES
  {
    if k.Some? && k.value in m && m[k.value][idx].flags.present then Some(m[k.value][idx].frame) else None
  }

  /** The kernel's page directory on the way to v. */
  function KernelDirectory(m: Memory, kroot: nat, v: nat): (r: Option<nat>) {
    KernelBelow(m, KernelBelow(m, Some(kroot), Index(v, 0)), Index(v, 1))
  }

  /** The descent to the page directory of v. */
  function Directory(s: Space, kroot: nat, root: nat, v: nat): (r: (Space, nat))
    requires root in s.m
    ensures s.m.Keys <= r.0.m.Keys
  {
    var kpdpt := KernelBelow(s.m, Some(kroot), Index(v, 0));
    var (s1, pdpt) := NextLevel(s, root, Index(v, 0), Some(kroot));
    if pdpt == 0 || pdpt !in s1.m then (s1, 0) else NextLevel(s1, pdpt, Index(v, 1), kpdpt)
  }

  /** And to its page table. */
  function Descent(s: Space, kroot: nat, root: nat, v: nat): (r: (Space, nat))
    requires root in s.m
    ensures s.m.Keys <= r.0.m.Keys
  {
    var (t, pd) := Directory(s, kroot, root, v);
    if pd == 0 || pd !in t.m then (t, 0) else TableFor(t, pd, Index(v, 2), KernelDirectory(s.m, kroot, v))
  }

  /** paging_map_page_to. */
  function MapPage(s: Space, kroot: nat, root: nat, v: nat, e: Pte): (r: Space)
    requires root in s.m
    ensures s.m.Keys <= r.m.Keys
  {
    var (t, pt) := Descent(s, kroot, root, v);
    if pt == 0 || pt !in t.m then t else t.(m := t.m[pt := t.m[pt][Index(v, 3) := e]])
  }

  // ---- One lemma for each branch ----

  lemma {:induction false} LowestIs(used: seq<bool>, i: nat, p: nat)
    requires i <= |used| && |used| > 0 && used[0]
    requires p == 0 ==> forall j :: i <= j < |used| ==> used[j]
    requires p != 0 ==> i <= p < |used| && !used[p] && forall j :: i <= j < p ==> used[j]
    ensures Lowest(used, i) == p
    decreases |used| - i
  {
    if i < |used| && used[i] { LowestIs(used, i + 1, p); }
  }

  lemma HookNone(s: Space, table: nat, idx: nat, t: Table)
    requires table in s.m && idx < ENTRIES && Lowest(s.used, 0) == 0
    ensures Hook(s, table, idx, t) == (s, 0)
  {}

  lemma HookOne(s: Space, table: nat, idx: nat, t: Table, c: nat, z: Memory)
    requires table in s.m && idx < ENTRIES && c == Lowest(s.used, 0) != 0 && c !in s.m && z == s.m[c := Zero()]
    ensures Hook(s, table, idx, t) == (Space(Hooked(z, table, idx, c, t), s.used[c := true]), c)
  {
    assert Hooked(z, table, idx, c, t) == Hooked(s.m, table, idx, c, t);
  }

  lemma NextAbsent(s: Space, table: nat, idx: nat, k: Option<nat>)
    requires table in s.m && idx < ENTRIES && !s.m[table][idx].flags.present
    ensures NextLevel(s, table, idx, k) == Hook(s, table, idx, Zero())
  {}

  lemma NextPresent(s: Space, table: nat, idx: nat, k: Option<nat>)
    requires table in s.m && idx < ENTRIES && s.m[table][idx].flags.present && (k.Some? ==> k.value in s.m)
    ensures var e := s.m[table][idx];
            NextLevel(s, table, idx, k) ==
            if k.Some? && s.m[k.value][idx].flags.present && e.frame == s.m[k.value][idx].frame
            then (if e.frame in s.m then Hook(s, table, idx, s.m[e.frame]) else (s, 0)) else (s, e.frame)
  {}

  lemma TableIs(s: Space, pd: nat, idx: nat, k: Option<nat>)
    requires pd in s.m && idx < ENTRIES && (k.Some? ==> k.value in s.m)
    ensures var e := s.m[pd][idx];
            TableFor(s, pd, idx, k) ==
            if !e.flags.present || e.flags.ps
                || (k.Some? && s.m[k.value][idx].flags.present && e.frame == s.m[k.value][idx].frame)
            then Hook(s, pd, idx, Zero()) else (s, e.frame)
  {}

  lemma DirectoryIs(s: Space, kroot: nat, root: nat, v: nat, kpdpt: Option<nat>, s1: Space, pdpt: nat)
    requires root in s.m && kpdpt == KernelBelow(s.m, Some(kroot), Index(v, 0))
    requires NextLevel(s, root, Index(v, 0), Some(kroot)) == (s1, pdpt)
    ensures pdpt == 0 ==> Directory(s, kroot, root, v) == (s1, 0)
    ensures pdpt != 0 && pdpt in s1.m ==> Directory(s, kroot, root, v) == NextLevel(s1, pdpt, Index(v, 1), kpdpt)
  {}

  lemma DescentIs(s: Space, kroot: nat, root: nat, v: nat, t: Space, pd: nat)
    requires root in s.m && Directory(s, kroot, root, v) == (t, pd)
    ensures pd == 0 ==> Descent(s, kroot, root, v) == (t, 0)
    ensures pd != 0 && pd in t.m ==>
              Descent(s, kroot, root, v) == TableFor(t, pd, Index(v, 2), KernelDirectory(s.m, kroot, v))
  {}

  /** What the source keeps in kpdpt and kpd. */
  lemma KernelWayIs(m: Memory, kroot: nat, v: nat)
    requires kroot in m
    ensures var kpdpt := if m[kroot][Index(v, 0)].flags.present then Some(m[kroot][Index(v, 0)].frame) else None;
            && kpdpt == KernelBelow(m, Some(kroot), Index(v, 0))
            && ((kpdpt.Some? ==> kpdpt.value in m) ==>
                  KernelDirectory(m, kroot, v) == if kpdpt.Some? && m[kpdpt.value][Index(v, 1)].flags.present
                                                  then Some(m[kpdpt.value][Index(v, 1)].frame) else None)
  {}

  lemma MapPageIs(s: Space, kroot: nat, root: nat, v: nat, e: Pte, t: Space, pt: nat)
    requires root in s.m && Descent(s, kroot, root, v) == (t, pt)
    ensures pt == 0 ==> MapPage(s, kroot, root, v, e) == t
    ensures pt != 0 && pt in t.m ==>
              MapPage(s, kroot, root, v, e) == Space(t.m[pt := t.m[pt][Index(v, 3) := e]], t.used)
  {}
}
