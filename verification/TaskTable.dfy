/** The task table and the routines that change it in place. */
module TaskTable {
  import opened Scheduler

  class Tasks {
    const tasks: array<Task>
    var numTasks: nat
    var current: nat
    var nextId: nat

    constructor ()
      ensures Valid() && fresh(tasks) && Value() == Boot()
    {
      numTasks, current, nextId := 1, 0, 0;
      tasks := new Task[MAX_TASKS](i => Task(0, if i == 0 then Running else Dead, 0, 0, 0));
    }

    ghost predicate Valid()
      reads this
    {
      tasks.Length == MAX_TASKS && current < numTasks <= MAX_TASKS
    }

    ghost function Value(): (s: Table)
      reads this, tasks
      requires Valid()
      ensures s.Sized()
    {
      Table(tasks[..], numTasks, current, nextId)
    }

    /** The loop that wakes whoever waits for pid. */
    method WakeWaiters(pid: nat)
      requires Valid()
      modifies tasks
      ensures tasks[..] == Wake(old(tasks[..]), numTasks, pid)
    {
      var w := 0;
      while w < numTasks
        invariant w <= numTasks
        invariant forall i :: 0 <= i < MAX_TASKS ==>
                    tasks[i] == if i < w then Woken(old(tasks[i]), pid) else old(tasks[i])
      {
        if tasks[w].state == Blocked && tasks[w].waitPid == pid {
          tasks[w] := tasks[w].(state := Ready, waitPid := 0);
        }
        w := w + 1;
      }
    }

    /** schedule's search loop. */
    method FindNext() returns (next: nat)
      requires Valid()
      ensures next == Search(Value(), 0)
    {
      var i := 0;
      next := current;
      while i < numTasks
        invariant i <= numTasks && (i < numTasks ==> Search(Value(), 0) == Search(Value(), i))
        invariant i == numTasks ==> Search(Value(), 0) == next
      {
        next := (current + 1 + i) % numTasks;
        WrapIsMod(current + 1 + i, numTasks);
        if tasks[next].state == Ready || tasks[next].state == Running {
          return;
        }
        i := i + 1;
      }
    }

    /** schedule. A picked task with a deadly signal is ended, its waiters go on, and the search starts over; each time
        round there is one task less alive. */
    method DoSchedule()
      requires Valid()
      modifies this, tasks
      ensures Valid() && Value() == Schedule(old(Value()))
      decreases Alive(Value().tasks)
    {
      hide Search, Alive, Doomed;
      ghost var s := Value();
      if numTasks <= 1 {
        return;
      }
      var next := FindNext();
      if next == current {
        return;
      }
      SearchFinds(s, 0);
      if tasks[current].state == Running {
        tasks[current] := tasks[current].(state := Ready);
      }
      assert Value() == Preempted(s);
      if Doomed(tasks[next]) {
        KillLess(s, next);
        var pid := tasks[next].id;
        tasks[next] := tasks[next].(state := Dead, pending := 0);
        WakeWaiters(pid);
        DoSchedule();
        return;
      }
      tasks[next] := tasks[next].(state := Running);
      current := next;
    }

    /** SYS_EXIT up to its schedule loop; faults, the menu's QUIT and the end of a demo do the same. */
    method ExitCurrent()
      requires Valid()
      modifies tasks
      ensures Valid() && Value() == Step(old(Value()), Exit)
    {
      tasks[current] := tasks[current].(state := Dead);
      WakeWaiters(tasks[current].id);
    }

    /** SYS_WAIT up to its schedule call. */
    method BlockCurrent(pid: nat)
      requires Valid()
      modifies tasks
      ensures Valid() && Value() == Step(old(Value()), WaitFor(pid))
    {
      tasks[current] := tasks[current].(state := Blocked, waitPid := pid);
    }

    /** task_kill_foreground. */
    method KillForeground(sig: nat)
      requires Valid()
      modifies tasks
      ensures Valid() && Value() == Signalled(old(Value()), sig)
    {
      if numTasks <= 1 || tasks[0].state != Blocked || tasks[0].waitPid == 0 {
        return;
      }
      var i := FindLive(tasks[0].waitPid);
      if i < numTasks {
        hide LiveSlot, Bit;
        tasks[i] := tasks[i].(pending := tasks[i].pending | Bit(sig));
      }
    }

    /** Its search loop. */
    method FindLive(pid: nat) returns (i: nat)
      requires Valid()
      ensures i == LiveSlot(Value(), pid, 0)
    {
      i := 0;
      while i < numTasks && !(tasks[i].id == pid && tasks[i].state != Dead)
        invariant i <= numTasks && LiveSlot(Value(), pid, 0) == LiveSlot(Value(), pid, i)
      {
        i := i + 1;
      }
    }

    /** create_kernel_thread, as far as the table goes. */
    method CreateThread() returns (idx: int)
      requires Valid()
      modifies this, tasks
      ensures Valid() && Value() == Created(old(Value()))
      ensures if DeadSlot(old(Value()), 1) == MAX_TASKS then idx == -1 else idx == DeadSlot(old(Value()), 1)
    {
      var i := 1;
      while i < numTasks && tasks[i].state != Dead
        invariant 1 <= i <= numTasks && DeadSlot(Value(), 1) == DeadSlot(Value(), i)
      {
        i := i + 1;
      }
      if i == numTasks {
        if numTasks >= MAX_TASKS {
          return -1;
        }
        numTasks := numTasks + 1;
      }
      tasks[i] := Task(nextId, Ready, 0, 0, 0);
      nextId := nextId + 1;
      idx := i;
    }
  }
}
