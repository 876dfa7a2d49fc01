/** The round-robin scheduler: picking, killing on a signal, waking waiters, recycling slots. */
module Scheduler {

  const MAX_TASKS: nat := 16
  const KILL_MASK: bv32 := 0x204                  // 1 << SIGINT | 1 << SIGKILL

  datatype TaskState = Running | Ready | Blocked | Dead

  datatype Task = Task(id: nat, state: TaskState, waitPid: nat, pending: bv32, ignored: bv32)

  predicate Runnable(t: Task) { t.state == Ready || t.state == Running }

  predicate Doomed(t: Task) { t.pending & !t.ignored & KILL_MASK != 0 }

  /** The task table, num_tasks, current_task_index and next_task_id. */
  datatype Table = Table(tasks: seq<Task>, n: nat, cur: nat, nextId: nat) {
    predicate Sized() { |tasks| == MAX_TASKS && cur < n <= MAX_TASKS }
  }

  /** x % n for an x that went round at most once. */
  function Wrap(x: nat, n: nat): (r: nat)
    requires x < 2 * n
    ensures r < n
  {
    if x < n then x else x - n
  }

  lemma WrapIsMod(x: nat, n: nat)
    requires 0 < n && x < 2 * n
    ensures x % n == Wrap(x, n)
  {
    if x >= n { assert x == n * 1 + (x - n); }
  }

  /** schedule's search, from its i-th step on. */
  function Search(s: Table, i: nat): (k: nat)
    requires s.Sized() && i < s.n
    ensures k < s.n
    decreases s.n - i
  {
    var k := Wrap(s.cur + 1 + i, s.n);
    if Runnable(s.tasks[k]) || i + 1 == s.n then k else Search(s, i + 1)
  }

  /** Tasks that wait for pid go on. */
  function Wake(ts: seq<Task>, n: nat, pid: nat): (r: seq<Task>)
    requires n <= |ts|
    ensures |r| == |ts|
    ensures forall w :: 0 <= w < |ts| ==> r[w] == if w < n then Woken(ts[w], pid) else ts[w]
  {
    seq(|ts|, w requires 0 <= w < |ts| => if w < n then Woken(ts[w], pid) else ts[w])
  }

  function Woken(t: Task, pid: nat): Task {
    if t.state == Blocked && t.waitPid == pid then t.(state := Ready, waitPid := 0) else t
  }

  /** A task dies of a signal. */
  function Killed(ts: seq<Task>, n: nat, k: nat): (r: seq<Task>)
    requires k < n <= |ts|
    ensures |r| == |ts|
  {
    Wake(ts[k := ts[k].(state := Dead, pending := 0)], n, ts[k].id)
  }

  function Preempted(s: Table): (t: Table)
    requires s.Sized()
    ensures t.Sized() && t.n == s.n && t.cur == s.cur
  {
    if s.tasks[s.cur].state == Running then s.(tasks := s.tasks[s.cur := s.tasks[s.cur].(state := Ready)]) else s
  }

  function Alive(ts: seq<Task>): (n: nat) {
    if ts == [] then 0 else Alive(ts[..|ts| - 1]) + if ts[|ts| - 1].state == Dead then 0 else 1
  }

  lemma {:induction false} AliveLess(a: seq<Task>, b: seq<Task>, k: nat)
    requires |a| == |b| && k < |a| && a[k].state != Dead && b[k].state == Dead
    requires forall i :: 0 <= i < |a| && a[i].state == Dead ==> b[i].state == Dead
    ensures Alive(b) < Alive(a)
    decreases |a|
  {
    var x, y, last := a[..|a| - 1], b[..|b| - 1], |a| - 1;
    if k < last { AliveLess(x, y, k); } else { AliveNoMore(x, y); }
  }

  lemma {:induction false} AliveNoMore(a: seq<Task>, b: seq<Task>)
    requires |a| == |b| && forall i :: 0 <= i < |a| && a[i].state == Dead ==> b[i].state == Dead
    ensures Alive(b) <= Alive(a)
    decreases |a|
  {
    if a != [] { AliveNoMore(a[..|a| - 1], b[..|b| - 1]); }
  }

  /** A kill leaves fewer tasks alive: the recursion of schedule ends. */
  lemma KillLess(s: Table, k: nat)
    requires s.Sized() && k < s.n && Runnable(s.tasks[k])
    ensures Alive(Killed(Preempted(s).tasks, s.n, k)) < Alive(s.tasks)
  {
    AliveLess(s.tasks, Killed(Preempted(s).tasks, s.n, k), k);
  }

  /** schedule. */
  function Schedule(s: Table): (t: Table)
    requires s.Sized()
    ensures t.Sized() && t.n == s.n
    decreases Alive(s.tasks)
  {
    if s.n <= 1 then s
    else
      var k := Search(s, 0);
      if k == s.cur then s
      else
        var p := Preempted(s);
        SearchFinds(s, 0);
        if Doomed(p.tasks[k]) then
          KillLess(s, k);
          Schedule(p.(tasks := Killed(p.tasks, p.n, k)))
        else p.(tasks := p.tasks[k := p.tasks[k].(state := Running)], cur := k)
  }

  // ---- Which task is picked ----

  /** How far slot j lies ahead of slot c, on the full table. */
  function Ahead(c: nat, j: nat): (d: nat)
    requires c < MAX_TASKS && j < MAX_TASKS
    ensures 1 <= d <= MAX_TASKS && (j != c ==> d < MAX_TASKS)
  {
    if j > c then j - c else j + MAX_TASKS - c
  }

  lemma {:induction false} SearchFinds(s: Table, i: nat)
    requires s.Sized() && i < s.n
    ensures Search(s, i) != s.cur ==> Runnable(s.tasks[Search(s, i)])
    decreases s.n - i
  {
    if i + 1 < s.n && !Runnable(s.tasks[Wrap(s.cur + 1 + i, s.n)]) {
      SearchFinds(s, i + 1);
    }
  }

  /** The search stops at its first runnable slot. */
  lemma {:induction false} SearchStops(s: Table, i: nat, m: nat) returns (j: nat)
    requires s.Sized() && i <= m < s.n && Runnable(s.tasks[Wrap(s.cur + 1 + m, s.n)])
    ensures i <= j <= m && Search(s, i) == Wrap(s.cur + 1 + j, s.n) && Runnable(s.tasks[Search(s, i)])
    decreases m - i
  {
    if Runnable(s.tasks[Wrap(s.cur + 1 + i, s.n)]) { j := i; } else { j := SearchStops(s, i + 1, m); }
  }

  /** The search takes the first runnable slot cyclically after the current one, and the current one only if there is
      no other. */
  lemma PickedIsFirst(s: Table, j: nat)
    requires s.Sized() && j < s.n && j != s.cur && Runnable(s.tasks[j])
    ensures var k := Search(s, 0); k != s.cur && Runnable(s.tasks[k]) && Ahead(s.cur, k) <= Ahead(s.cur, j)
  {
    var m := if j > s.cur then j - s.cur - 1 else j + s.n - s.cur - 1;
    assert Wrap(s.cur + 1 + m, s.n) == j;
    var i := SearchStops(s, 0, m);
  }

  /** One call of schedule: a task that is ready is picked, or dies of a signal, or is nearer its turn. */
  lemma {:induction false} ScheduleProgress(s: Table, j: nat)
    requires s.Sized() && j < s.n && j != s.cur && s.tasks[j].state == Ready
    ensures var t := Schedule(s);
            || (t.cur == j && t.tasks[j].state == Running)
            || t.tasks[j].state == Dead
            || (t.cur != j && t.tasks[j] == s.tasks[j] && Ahead(t.cur, j) < Ahead(s.cur, j))
    decreases Alive(s.tasks)
  {
    PickedIsFirst(s, j);
    var k, p := Search(s, 0), Preempted(s);
    if Doomed(p.tasks[k]) {
      KillLess(s, k);
      var q := p.(tasks := Killed(p.tasks, p.n, k));
      if k == j {
        ScheduleKeepsDead(q, j);
      } else {
        ScheduleProgress(q, j);
      }
    }
  }

  lemma {:induction false} ScheduleKeepsDead(s: Table, j: nat)
    requires s.Sized() && j < s.n && s.tasks[j].state == Dead
    ensures Schedule(s).tasks[j].state == Dead
    decreases Alive(s.tasks)
  {
    if s.n > 1 {
      var k, p := Search(s, 0), Preempted(s);
      if k != s.cur {
        SearchFinds(s, 0);
        if Doomed(p.tasks[k]) {
          KillLess(s, k);
          ScheduleKeepsDead(p.(tasks := Killed(p.tasks, p.n, k)), j);
        }
      }
    }
  }

  function AfterKill(s: Table, k: nat): (q: Table)
    requires s.Sized() && k < s.n
    ensures q.Sized() && q.n == s.n && q.cur == s.cur && q.nextId == s.nextId
  {
    Preempted(s).(tasks := Killed(Preempted(s).tasks, s.n, k))
  }

  /** The table after a kill, task by task. */
  lemma KilledTask(s: Table, k: nat, j: nat)
    requires s.Sized() && k < s.n && k != s.cur && j < s.n
    ensures var (a, b) := (s.tasks[j], AfterKill(s, k).tasks[j]);
            && b.id == a.id && b.ignored == a.ignored
            && if j == k then b.state == Dead && b.pending == 0
               else
                 && b.pending == a.pending
                 && (if a.state == Blocked && a.waitPid == s.tasks[k].id then b.state == Ready
                     else
                       && b.waitPid == a.waitPid
                       && (b.state == a.state || (j == s.cur && a.state == Running && b.state == Ready)))
  {}

  lemma DoomedBy(a: Task, b: Task)
    requires a.pending == b.pending && a.ignored == b.ignored
    ensures Doomed(a) == Doomed(b)
  {}

  /** schedule, case by case. */
  lemma ScheduleCases(s: Table)
    requires s.Sized()
    ensures var k := if s.n > 1 then Search(s, 0) else s.cur;
            && (k == s.cur ==> Schedule(s) == s)
            && (k != s.cur ==>
                 && Runnable(s.tasks[k])
                 && (Doomed(s.tasks[k]) ==>
                      Alive(AfterKill(s, k).tasks) < Alive(s.tasks) && Schedule(s) == Schedule(AfterKill(s, k)))
                 && (!Doomed(s.tasks[k]) ==> Schedule(s) == Switched(s, k)))
  {
    hide Search, Alive, Doomed, Killed;
    if s.n > 1 && Search(s, 0) != s.cur {
      var k := Search(s, 0);
      SearchFinds(s, 0);
      KillLess(s, k);
      DoomedBy(s.tasks[k], Preempted(s).tasks[k]);
    }
  }

  function Switched(s: Table, k: nat): (t: Table)
    requires s.Sized() && k < s.n
    ensures t.Sized() && t.n == s.n
  {
    var p := Preempted(s);
    p.(tasks := p.tasks[k := p.tasks[k].(state := Running)], cur := k)
  }

  /** What one call does to a task: its id stays, it dies only of a deadly signal that it does not ignore, and a waiter
      goes on only if a task that it waits for died. */
  lemma {:induction false} ScheduleFates(s: Table, j: nat)
    requires s.Sized() && j < s.n
    ensures var t := Schedule(s);
            var a, b := s.tasks[j], t.tasks[j];
            && b.id == a.id && b.ignored == a.ignored
            && (b.state == Dead && a.state != Dead ==> j != s.cur && Doomed(a) && b.pending == 0)
            && (b.state != Dead || a.state == Dead ==> b.pending == a.pending)
            && (a.state == Blocked && b.state != Blocked ==>
                 exists i :: 0 <= i < s.n && Died(s, t, i) && s.tasks[i].id == a.waitPid)
    decreases Alive(s.tasks)
  {
    hide Doomed, Search, Schedule, AfterKill, Alive;
    ScheduleCases(s);
    var k := if s.n > 1 then Search(s, 0) else s.cur;
    if k != s.cur && Doomed(s.tasks[k]) {
      var q := AfterKill(s, k);
      var t := Schedule(q);
      ScheduleFates(q, j);
      KilledTask(s, k, j);
      KilledTask(s, k, k);
      ScheduleStaysDead(q, k);
      assert Died(s, t, k);
      if j != k { DoomedBy(s.tasks[j], q.tasks[j]); }
      if s.tasks[j].state == Blocked && q.tasks[j].state == Blocked && t.tasks[j].state != Blocked {
        var i :| 0 <= i < q.n && Died(q, t, i) && q.tasks[i].id == q.tasks[j].waitPid;
        KilledTask(s, k, i);
        assert Died(s, t, i);
      }
    }
  }

  lemma ScheduleStaysDead(s: Table, k: nat)
    requires s.Sized() && k < s.n && s.tasks[k].state == Dead
    ensures Schedule(s).tasks[k].state == Dead
  {
    ScheduleKeepsDead(s, k);
  }

  ghost predicate Died(s: Table, t: Table, i: nat)
    requires s.Sized() && t.Sized() && i < s.n && i < t.n
  {
    s.tasks[i].state != Dead && t.tasks[i].state == Dead
  }

  /** The call ends with the picked task marked running, and free of deadly signals, and the one before it ready again
      if it ran. If nobody is picked, no other task is runnable. */
  lemma {:induction false} SchedulePicks(s: Table)
    requires s.Sized()
    ensures var t := Schedule(s);
            && t.nextId == s.nextId
            && (t.cur != s.cur ==> t.tasks[t.cur].state == Running && !Doomed(t.tasks[t.cur]))
            && (t.cur != s.cur && Runnable(s.tasks[s.cur]) ==> t.tasks[s.cur].state == Ready)
            && (t.cur == s.cur ==> forall j :: 0 <= j < s.n && j != s.cur ==> !Runnable(t.tasks[j]))
    decreases Alive(s.tasks)
  {
    hide Doomed, Schedule, AfterKill, Alive, Search;
    ScheduleCases(s);
    var k := if s.n > 1 then Search(s, 0) else s.cur;
    if k == s.cur {
      forall j | 0 <= j < s.n && j != s.cur ensures !Runnable(s.tasks[j]) {
        if Runnable(s.tasks[j]) { PickedIsFirst(s, j); }
      }
    } else if Doomed(s.tasks[k]) {
      KilledTask(s, k, s.cur);
      SchedulePicks(AfterKill(s, k));
    } else {
      DoomedBy(s.tasks[k], Switched(s, k).tasks[k]);
    }
  }

  /** At most the current task is marked running. */
  ghost predicate OneRunning(s: Table)
    requires s.Sized()
  {
    forall i :: 0 <= i < s.n && i != s.cur ==> s.tasks[i].state != Running
  }

  lemma {:induction false} ScheduleOneRunning(s: Table)
    requires s.Sized() && OneRunning(s)
    ensures OneRunning(Schedule(s))
    decreases Alive(s.tasks)
  {
    if s.n > 1 {
      var k, p := Search(s, 0), Preempted(s);
      if k != s.cur {
        SearchFinds(s, 0);
        if Doomed(p.tasks[k]) {
          KillLess(s, k);
          ScheduleOneRunning(p.(tasks := Killed(p.tasks, p.n, k)));
        }
      }
    }
  }

  // ---- What happens between two calls ----

  datatype Move =
    | Tick                        // a quantum ends, or a task gives up the CPU: schedule
    | Exit                        // the current task ends, by SYS_EXIT, a fault, the menu or attract mode
    | WaitFor(pid: nat)           // SYS_WAIT
    | Signal(sig: nat)            // task_kill_foreground
    | Create                      // create_kernel_thread

  function Bit(sig: nat): bv32 { if sig < 32 then 1 << sig else 0 }

  /** The first slot whose task has that id and is not dead. */
  function LiveSlot(s: Table, pid: nat, i: nat): (k: nat)
    requires s.Sized() && i <= s.n
    ensures i <= k <= s.n && (k < s.n ==> s.tasks[k].id == pid && s.tasks[k].state != Dead)
    decreases s.n - i
  {
    if i == s.n || (s.tasks[i].id == pid && s.tasks[i].state != Dead) then i else LiveSlot(s, pid, i + 1)
  }

  /** task_kill_foreground: the task that task 0 waits for. */
  function Signalled(s: Table, sig: nat): (t: Table)
    requires s.Sized()
    ensures t.Sized()
  {
    if s.n <= 1 || s.tasks[0].state != Blocked || s.tasks[0].waitPid == 0 then s
    else
      var k := LiveSlot(s, s.tasks[0].waitPid, 0);
      if k == s.n then s else s.(tasks := s.tasks[k := s.tasks[k].(pending := s.tasks[k].pending | Bit(sig))])
  }

  /** The first dead slot from i on; never slot 0. */
  function DeadSlot(s: Table, i: nat): (k: nat)
    requires s.Sized() && 1 <= i <= s.n
    ensures i <= k <= s.n && (k < s.n ==> s.tasks[k].state == Dead)
    decreases s.n - i
  {
    if i == s.n || s.tasks[i].state == Dead then i else DeadSlot(s, i + 1)
  }

  /** create_kernel_thread: a dead slot is used again, or a new one taken. */
  function Created(s: Table): (t: Table)
    requires s.Sized()
    ensures t.Sized()
  {
    var k := DeadSlot(s, 1);
    if k == MAX_TASKS then s
    else Table(s.tasks[k := Task(s.nextId, Ready, 0, 0, 0)], if k == s.n then s.n + 1 else s.n, s.cur, s.nextId + 1)
  }

  function Step(s: Table, mv: Move): (t: Table)
    requires s.Sized()
    ensures t.Sized()
  {
    match mv
    case Tick => Schedule(s)
    case Exit => s.(tasks := Wake(s.tasks[s.cur := s.tasks[s.cur].(state := Dead)], s.n, s.tasks[s.cur].id))
    case WaitFor(pid) => s.(tasks := s.tasks[s.cur := s.tasks[s.cur].(state := Blocked, waitPid := pid)])
    case Signal(sig) => Signalled(s, sig)
    case Create => if s.tasks[s.cur].state == Dead then s else Created(s)
  }

  /** A signal is deadly if it is SIGINT or SIGKILL, pending and not ignored. */
  lemma DoomedIs(t: Task)
    ensures Doomed(t) <==>
              (t.pending & 0x4 != 0 && t.ignored & 0x4 == 0) || (t.pending & 0x200 != 0 && t.ignored & 0x200 == 0)
  {}

  lemma {:induction false} LiveSlotIs(s: Table, pid: nat, i: nat, k: nat)
    requires s.Sized() && i <= k < s.n
    ensures LiveSlot(s, pid, i) == k <==>
              && s.tasks[k].id == pid && s.tasks[k].state != Dead
              && forall j :: i <= j < k ==> !(s.tasks[j].id == pid && s.tasks[j].state != Dead)
    decreases k - i
  {
    if i < k { LiveSlotIs(s, pid, i + 1, k); }
  }

  /** Who gets a signal: while task 0 waits, the first live task with the id that it waits for, and nobody else. */
  lemma SignalReaches(s: Table, sig: nat, k: nat)
    requires s.Sized() && s.n > 1 && s.tasks[0].state == Blocked && s.tasks[0].waitPid != 0 && k < s.n && sig < 32
    requires s.tasks[k].id == s.tasks[0].waitPid && s.tasks[k].state != Dead
    requires forall j :: 0 <= j < k ==> !(s.tasks[j].id == s.tasks[0].waitPid && s.tasks[j].state != Dead)
    ensures var t := Signalled(s, sig);
            && t == s.(tasks := t.tasks) && |t.tasks| == |s.tasks|
            && (forall j :: 0 <= j < |s.tasks| && j != k ==> t.tasks[j] == s.tasks[j])
            && t.tasks[k] == s.tasks[k].(pending := t.tasks[k].pending)
            && t.tasks[k].pending == s.tasks[k].pending | (1 << sig)
    ensures (sig == 2 || sig == 9) && s.tasks[k].ignored & (1 << sig) == 0 ==> Doomed(Signalled(s, sig).tasks[k])
  {
    hide LiveSlot;
    LiveSlotIs(s, s.tasks[0].waitPid, 0, k);
    DoomedIs(Signalled(s, sig).tasks[k]);
    BitSet(s.tasks[k].pending);
  }

  lemma BitSet(p: bv32)
    ensures (p | 0x4) & 0x4 != 0 && (p | 0x200) & 0x200 != 0
    ensures (1 as bv32) << 2 == 0x4 && (1 as bv32) << 9 == 0x200
  {}

  /** ... and nobody at all if task 0 waits for no live task. */
  lemma SignalLost(s: Table, sig: nat)
    requires s.Sized()
    requires s.n <= 1 || s.tasks[0].state != Blocked || s.tasks[0].waitPid == 0
             || forall j :: 0 <= j < s.n ==> !(s.tasks[j].id == s.tasks[0].waitPid && s.tasks[j].state != Dead)
    ensures Signalled(s, sig) == s
  {}

  /** The current task ends: it is dead, who waited for it goes on, and all others stay as they are. */
  lemma ExitEnds(s: Table)
    requires s.Sized()
    ensures var t := Step(s, Exit);
            && t == s.(tasks := t.tasks) && |t.tasks| == |s.tasks| && t.tasks[s.cur] == s.tasks[s.cur].(state := Dead)
            && forall j :: 0 <= j < s.n && j != s.cur ==>
                 var (a, b) := (s.tasks[j], t.tasks[j]);
                 if a.state == Blocked && a.waitPid == s.tasks[s.cur].id then b == a.(state := Ready, waitPid := 0)
                   else b == a
  {}

  /** A new task is in slot k: the first dead one, or one more, never slot 0; ready, under the next id, with no signals.
      */
  ghost predicate AddedAt(s: Table, t: Table, k: nat)
    requires s.Sized() && t.Sized()
  {
    && 1 <= k < t.n && (if k < s.n then s.tasks[k].state == Dead && t.n == s.n else k == s.n && t.n == s.n + 1)
    && (forall j :: 1 <= j < k ==> s.tasks[j].state != Dead)
    && t.tasks == s.tasks[k := Task(s.nextId, Ready, 0, 0, 0)] && t.cur == s.cur && t.nextId == s.nextId + 1
  }

  /** It is created unless all slots are taken. */
  lemma CreateAdds(s: Table)
    requires s.Sized()
    ensures if s.n == MAX_TASKS && forall j :: 1 <= j < s.n ==> s.tasks[j].state != Dead then Created(s) == s
            else exists k :: AddedAt(s, Created(s), k)
  {
    DeadSlotFirst(s, 1);
    if DeadSlot(s, 1) < MAX_TASKS {
      assert AddedAt(s, Created(s), DeadSlot(s, 1));
    }
  }

  lemma {:induction false} DeadSlotFirst(s: Table, i: nat)
    requires s.Sized() && 1 <= i <= s.n
    ensures forall j :: i <= j < DeadSlot(s, i) ==> s.tasks[j].state != Dead
    decreases s.n - i
  {
    if i < s.n && s.tasks[i].state != Dead { DeadSlotFirst(s, i + 1); }
  }

  function Steps(s: Table, mvs: seq<Move>): (t: Table)
    requires s.Sized()
    ensures t.Sized()
    decreases |mvs|
  {
    if mvs == [] then s else Step(Steps(s, mvs[..|mvs| - 1]), mvs[|mvs| - 1])
  }

  function Ticks(mvs: seq<Move>): (n: nat) {
    if mvs == [] then 0 else Ticks(mvs[..|mvs| - 1]) + if mvs[|mvs| - 1].Tick? then 1 else 0
  }

  predicate ReadyAt(s: Table, j: nat)
    requires s.Sized()
  {
    j < s.n && j != s.cur && s.tasks[j].state == Ready
  }

  /** Slot j is ready, and not current, before and after every move. */
  predicate StaysReady(s: Table, mvs: seq<Move>, j: nat)
    requires s.Sized()
    decreases |mvs|
  {
    ReadyAt(Steps(s, mvs), j) && (mvs != [] ==> StaysReady(s, mvs[..|mvs| - 1], j))
  }

  lemma StepDistance(s: Table, mv: Move, j: nat)
    requires s.Sized() && ReadyAt(s, j) && ReadyAt(Step(s, mv), j)
    ensures var t := Step(s, mv); if mv.Tick? then Ahead(t.cur, j) < Ahead(s.cur, j) else t.cur == s.cur
  {
    if mv.Tick? { ScheduleProgress(s, j); }
  }

  lemma {:induction false} StaysBefore(s: Table, mvs: seq<Move>, j: nat)
    requires s.Sized() && StaysReady(s, mvs, j)
    ensures ReadyAt(s, j) && ReadyAt(Steps(s, mvs), j)
    decreases |mvs|
  {
    if mvs != [] { StaysBefore(s, mvs[..|mvs| - 1], j); }
  }

  /** Nobody starves: a task that stays ready sees fewer than 16 calls of schedule go by, however many tasks come, go,
      wait or wake in between. At the latest then it is picked, or dies of a signal. */
  lemma {:induction false} ReadyWaitsLess(s: Table, mvs: seq<Move>, j: nat)
    requires s.Sized() && StaysReady(s, mvs, j)
    ensures j < MAX_TASKS && Ticks(mvs) + Ahead(Steps(s, mvs).cur, j) <= Ahead(s.cur, j) && Ticks(mvs) < MAX_TASKS - 1
    decreases |mvs|
  {
    hide Step;
    StaysBefore(s, mvs, j);
    if mvs != [] {
      var front := mvs[..|mvs| - 1];
      ReadyWaitsLess(s, front, j);
      StaysBefore(s, front, j);
      StepDistance(Steps(s, front), mvs[|mvs| - 1], j);
    }
  }

  // ---- Waiters ----

  ghost predicate LiveId(s: Table, pid: nat)
    requires s.Sized()
  {
    exists i :: 0 <= i < s.n && s.tasks[i].id == pid && s.tasks[i].state != Dead
  }

  /** Every blocked task waits for a live one, but for those in late: they began to wait when it was gone already. */
  ghost predicate NoOrphan(s: Table, late: set<nat>)
    requires s.Sized()
  {
    forall w :: 0 <= w < s.n && s.tasks[w].state == Blocked && w !in late ==> LiveId(s, s.tasks[w].waitPid)
  }

  /** Who began to wait too late; no other move adds to them. */
  ghost function Late(s: Table, mv: Move, late: set<nat>): set<nat>
    requires s.Sized()
  {
    if mv.WaitFor? then (if LiveId(Step(s, mv), mv.pid) then late - {s.cur} else late + {s.cur}) else late
  }

  /** Whoever dies in a way that wakes: the waiters left all wait for others. */
  lemma DeathWakes(s: Table, k: nat, late: set<nat>, dead: Task, ts: seq<Task>)
    requires s.Sized() && NoOrphan(s, late) && k < s.n && ts == Wake(s.tasks[k := dead], s.n, s.tasks[k].id)
    requires dead.state == Dead && dead.id == s.tasks[k].id
    ensures NoOrphan(s.(tasks := ts), late)
  {
    var t := s.(tasks := ts);
    forall w | 0 <= w < t.n && t.tasks[w].state == Blocked && w !in late ensures LiveId(t, t.tasks[w].waitPid) {
      assert s.tasks[w].state == Blocked && LiveId(s, s.tasks[w].waitPid);
      var i :| 0 <= i < s.n && s.tasks[i].id == s.tasks[w].waitPid && s.tasks[i].state != Dead;
      assert t.tasks[i].id == t.tasks[w].waitPid && t.tasks[i].state != Dead;
    }
  }

  lemma {:induction false} ScheduleNoOrphan(s: Table, late: set<nat>)
    requires s.Sized() && NoOrphan(s, late)
    ensures NoOrphan(Schedule(s), late)
    decreases Alive(s.tasks)
  {
    hide NoOrphan, Wake, Doomed;
    if s.n > 1 && Search(s, 0) != s.cur {
      var k, p := Search(s, 0), Preempted(s);
      SearchFinds(s, 0);
      SameWaits(s, p, late);
      if Doomed(p.tasks[k]) {
        KillLess(s, k);
        var dead := p.tasks[k].(state := Dead, pending := 0);
        var q := p.(tasks := Killed(p.tasks, p.n, k));
        DeathWakes(p, k, late, dead, q.tasks);
        ScheduleNoOrphan(q, late);
      } else {
        SameWaits(p, p.(tasks := p.tasks[k := p.tasks[k].(state := Running)], cur := k), late);
      }
    }
  }

  /** Changes that neither kill nor block anybody. */
  lemma SameWaits(s: Table, t: Table, late: set<nat>)
    requires s.Sized() && t.Sized() && NoOrphan(s, late) && s.n <= t.n
    requires forall i :: 0 <= i < s.n && s.tasks[i].state != Dead ==>
               t.tasks[i].id == s.tasks[i].id && t.tasks[i].state != Dead
    requires forall i :: 0 <= i < t.n && t.tasks[i].state == Blocked ==>
               i < s.n && s.tasks[i].state == Blocked && t.tasks[i].waitPid == s.tasks[i].waitPid
    ensures NoOrphan(t, late)
  {
    forall w | 0 <= w < t.n && t.tasks[w].state == Blocked && w !in late ensures LiveId(t, t.tasks[w].waitPid) {
      assert LiveId(s, s.tasks[w].waitPid);
      var i :| 0 <= i < s.n && s.tasks[i].id == s.tasks[w].waitPid && s.tasks[i].state != Dead;
      assert t.tasks[i].id == t.tasks[w].waitPid && t.tasks[i].state != Dead;
    }
  }

  lemma WaitNoOrphan(s: Table, pid: nat, late: set<nat>)
    requires s.Sized() && NoOrphan(s, late) && s.tasks[s.cur].state != Dead
    ensures NoOrphan(Step(s, WaitFor(pid)), Late(s, WaitFor(pid), late))
  {
    var t := Step(s, WaitFor(pid));
    forall w | 0 <= w < t.n && t.tasks[w].state == Blocked && w !in Late(s, WaitFor(pid), late)
      ensures LiveId(t, t.tasks[w].waitPid) {
      if w != s.cur {
        assert LiveId(s, s.tasks[w].waitPid);
        var i :| 0 <= i < s.n && s.tasks[i].id == s.tasks[w].waitPid && s.tasks[i].state != Dead;
        assert t.tasks[i].id == t.tasks[w].waitPid && t.tasks[i].state != Dead;
      }
    }
  }

  /** Only a task that runs makes the moves of a task. */
  predicate Enabled(s: Table, mv: Move)
    requires s.Sized()
  {
    mv.WaitFor? || mv.Exit? || mv.Create? ==> s.tasks[s.cur].state != Dead
  }

  /** Nobody is left waiting for a task that was ended, however it was ended, after the wait began. */
  lemma StepNoOrphan(s: Table, mv: Move, late: set<nat>)
    requires s.Sized() && NoOrphan(s, late) && Enabled(s, mv)
    ensures NoOrphan(Step(s, mv), Late(s, mv, late))
  {
    hide NoOrphan, Wake, LiveId, Schedule;
    match mv
    case Tick => ScheduleNoOrphan(s, late);
    case Exit =>
      var dead := s.tasks[s.cur].(state := Dead);
      DeathWakes(s, s.cur, late, dead, Step(s, mv).tasks);
    case WaitFor(pid) => WaitNoOrphan(s, pid, late);
    case Signal(sig) => SameWaits(s, Signalled(s, sig), late);
    case Create => SameWaits(s, Created(s), late);
  }

  predicate AllEnabled(s: Table, mvs: seq<Move>)
    requires s.Sized()
    decreases |mvs|
  {
    mvs != [] ==> AllEnabled(s, mvs[..|mvs| - 1]) && Enabled(Steps(s, mvs[..|mvs| - 1]), mvs[|mvs| - 1])
  }

  ghost function LateAfter(s: Table, mvs: seq<Move>, late: set<nat>): set<nat>
    requires s.Sized()
    decreases |mvs|
  {
    if mvs == [] then late
    else Late(Steps(s, mvs[..|mvs| - 1]), mvs[|mvs| - 1], LateAfter(s, mvs[..|mvs| - 1], late))
  }

  lemma {:induction false} StepsNoOrphan(s: Table, mvs: seq<Move>, late: set<nat>)
    requires s.Sized() && NoOrphan(s, late) && AllEnabled(s, mvs)
    ensures NoOrphan(Steps(s, mvs), LateAfter(s, mvs, late))
    decreases |mvs|
  {
    hide NoOrphan, Step, Late, Enabled;
    if mvs != [] {
      StepsNoOrphan(s, mvs[..|mvs| - 1], late);
      StepNoOrphan(Steps(s, mvs[..|mvs| - 1]), mvs[|mvs| - 1], LateAfter(s, mvs[..|mvs| - 1], late));
    }
  }

  /** The one way to end that wakes nobody: a kernel thread's entry function returns (task_bootstrap). */
  function Returned(s: Table): (t: Table)
    requires s.Sized()
    ensures t.Sized()
  {
    s.(tasks := s.tasks[s.cur := s.tasks[s.cur].(state := Dead)])
  }

  /** Another live task has the id of the current one: ids are not unique, the first thread gets task 0's. */
  ghost predicate SharedId(s: Table)
    requires s.Sized()
  {
    exists i :: 0 <= i < s.n && i != s.cur && s.tasks[i].id == s.tasks[s.cur].id && s.tasks[i].state != Dead
  }

  ghost predicate WaitedFor(s: Table, late: set<nat>, pid: nat)
    requires s.Sized()
  {
    exists w :: 0 <= w < s.n && s.tasks[w].state == Blocked && w !in late && s.tasks[w].waitPid == pid
  }

  /** It leaves no waiter behind exactly if another live task has the same id, or nobody waits for it. */
  lemma ReturnOrphans(s: Table, late: set<nat>)
    requires s.Sized() && NoOrphan(s, late) && Runnable(s.tasks[s.cur])
    ensures NoOrphan(Returned(s), late) <==> SharedId(s) || !WaitedFor(s, late, s.tasks[s.cur].id)
  {
    var t, p := Returned(s), s.tasks[s.cur].id;
    ReturnedLives(s);
    if NoOrphan(t, late) && WaitedFor(s, late, p) {
      var w :| 0 <= w < s.n && s.tasks[w].state == Blocked && w !in late && s.tasks[w].waitPid == p;
      assert t.tasks[w] == s.tasks[w] && LiveId(t, p);
    }
    if SharedId(s) || !WaitedFor(s, late, p) {
      hide SharedId;
      forall w | 0 <= w < t.n && t.tasks[w].state == Blocked && w !in late ensures LiveId(t, t.tasks[w].waitPid) {
        assert w != s.cur && t.tasks[w] == s.tasks[w];
        assert LiveId(s, s.tasks[w].waitPid);
        var i :| 0 <= i < s.n && s.tasks[i].id == s.tasks[w].waitPid && s.tasks[i].state != Dead;
        assert i != s.cur ==> t.tasks[i] == s.tasks[i];
      }
    }
  }

  lemma ReturnedLives(s: Table)
    requires s.Sized() && Runnable(s.tasks[s.cur])
    ensures LiveId(Returned(s), s.tasks[s.cur].id) <==> SharedId(s)
  {
    var t, p := Returned(s), s.tasks[s.cur].id;
    if i :| 0 <= i < s.n && i != s.cur && s.tasks[i].id == p && s.tasks[i].state != Dead {
      assert t.tasks[i] == s.tasks[i];
    }
    if LiveId(t, p) {
      var i :| 0 <= i < t.n && t.tasks[i].id == p && t.tasks[i].state != Dead;
      assert i != s.cur && s.tasks[i] == t.tasks[i];
    }
  }

  /** What scheduler_init leaves. */
  function Boot(): (s: Table)
    ensures s.Sized()
  {
    Table(seq(MAX_TASKS, i => Task(0, if i == 0 then Running else Dead, 0, 0, 0)), 1, 0, 0)
  }

  /** From boot on: two threads are created, task 0 waits for the second one, and that runs. */
  const WAITING: seq<Move> := [Create, Create, WaitFor(1), Tick, Tick]

  lemma {:induction false} OneMore(s: Table, mvs: seq<Move>, mv: Move, late: set<nat>)
    requires s.Sized() && AllEnabled(s, mvs) && Enabled(Steps(s, mvs), mv)
    ensures AllEnabled(s, mvs + [mv]) && Steps(s, mvs + [mv]) == Step(Steps(s, mvs), mv)
    ensures LateAfter(s, mvs + [mv], late) == Late(Steps(s, mvs), mv, LateAfter(s, mvs, late))
  {
    assert (mvs + [mv])[..|mvs|] == mvs;
  }

  /** The table after each of its moves. */
  function Waiting(j: nat): (s: Table)
    requires j <= 5
    ensures s.Sized()
  {
    var t0, t1, t2 := Task(0, Running, 0, 0, 0), Task(0, Ready, 0, 0, 0), Task(1, Ready, 0, 0, 0);
    var b0 := t0.(state := Blocked, waitPid := 1);
    var rest := Boot().tasks[3..];
    var dead := Boot().tasks[1];
    if j == 0 then Boot()
    else if j == 1 then Table([t0, t1, dead] + rest, 2, 0, 1)
    else if j == 2 then Table([t0, t1, t2] + rest, 3, 0, 2)
    else if j == 3 then Table([b0, t1, t2] + rest, 3, 0, 2)
    else if j == 4 then Table([b0, t1.(state := Running), t2] + rest, 3, 1, 2)
    else Table([b0, t1, t2.(state := Running)] + rest, 3, 2, 2)
  }

  lemma WaitingCreates()
    ensures Step(Waiting(0), Create) == Waiting(1) && Step(Waiting(1), Create) == Waiting(2)
    ensures Step(Waiting(2), WaitFor(1)) == Waiting(3)
  {
    assert DeadSlot(Waiting(1), 2) == 2;
  }

  lemma WaitingTicks()
    ensures Step(Waiting(3), Tick) == Waiting(4) && Step(Waiting(4), Tick) == Waiting(5)
  {
    assert 0 & !0 & KILL_MASK == 0;
    assert Search(Waiting(3), 0) == 1 && Search(Waiting(4), 0) == 2;
    assert Preempted(Waiting(3)) == Waiting(3);
  }

  lemma WaitingStep(j: nat)
    requires j < 5
    ensures Step(Waiting(j), WAITING[j]) == Waiting(j + 1)
  {
    hide Step, Waiting;
    WaitingCreates();
    WaitingTicks();
    assert j == 0 || j == 1 || j == 2 || j == 3 || j == 4;
  }

  lemma {:induction false} WaitingRun(j: nat)
    requires j <= 5
    ensures AllEnabled(Boot(), WAITING[..j]) && Steps(Boot(), WAITING[..j]) == Waiting(j)
    ensures LateAfter(Boot(), WAITING[..j], {}) == {}
  {
    if j > 0 {
      hide *;
      WaitingRun(j - 1);
      WaitingStep(j - 1);
      WaitingLives(j - 1);
      assert WAITING[..j] == WAITING[..j - 1] + [WAITING[j - 1]];
      OneMore(Boot(), WAITING[..j - 1], WAITING[j - 1], {});
    }
  }

  lemma WaitingLives(j: nat)
    requires j < 5
    ensures Enabled(Waiting(j), WAITING[j]) && Late(Waiting(j), WAITING[j], {}) == {}
  {
    if j == 2 {
      WaitingCreates();
      assert Waiting(3).tasks[2].id == 1 && LiveId(Waiting(3), 1);
    }
  }

  /** From boot on, a thread whose entry function returned leaves task 0 waiting for good. */
  lemma ReturnLeavesWaiter()
    ensures AllEnabled(Boot(), WAITING)
    ensures var (s, late) := (Steps(Boot(), WAITING), LateAfter(Boot(), WAITING, {}));
            Runnable(s.tasks[s.cur]) && NoOrphan(s, late) && !NoOrphan(Returned(s), late)
  {
    hide Steps, AllEnabled, LateAfter, Waiting, Boot, NoOrphan;
    assert WAITING[..5] == WAITING;
    WaitingRun(5);
    WaitingLast();
    ReturnOrphans(Waiting(5), {});
  }

  lemma WaitingLast()
    ensures var s := Waiting(5);
            NoOrphan(s, {}) && Runnable(s.tasks[s.cur]) && !SharedId(s) && WaitedFor(s, {}, s.tasks[s.cur].id)
  {
    var s := Waiting(5);
    assert s.tasks[0].state == Blocked && s.tasks[0].waitPid == 1 && s.tasks[1].id == 0 && s.tasks[2].id == 1;
  }
}
