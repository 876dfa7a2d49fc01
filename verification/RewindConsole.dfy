/** The rewind code over its static arrays and counters. */
module RewindConsole {
  import opened Rewind

  /** present_counter, presents_since_snap, and the virtual clock. */
  datatype Place = Place(pc: nat, since: nat, offset: int, clock: nat)

  /** A restore asked for in the system menu. */
  datatype Menu = Menu(requested: bool, popN: nat)

  class Recorder<Mem> {
    var base: nat
    var count: nat
    const slots: array<Slot<Mem>>
    const recs: array<Rec>
    var at: Place
    var menu: Menu
    var mem: Mem

    constructor (mem: Mem)
      ensures Valid() && fresh(slots) && fresh(recs) && count == 0
    {
      this.mem, base, count, at, menu := mem, 0, 0, Place(0, 0, 0, 0), Menu(false, 1);
      slots := new Slot<Mem>[SLOTS](i => Slot(mem, 0, 0));
      recs := new Rec[RECORDS](i => Rec(seq(PAD_BYTES, j => 0), seq(PAD_BYTES, j => 0), 0));
    }

    ghost predicate Valid()
      reads this
    {
      base < SLOTS && count <= SLOTS && slots.Length == SLOTS && recs.Length == RECORDS && menu.popN > 0
    }

    ghost function Value(): (s: State<Mem>)
      reads this, slots, recs
      requires Valid()
      ensures s.Sized()
    {
      State(base, count, slots[..], recs[..], at.pc, at.since, at.offset, menu.requested, menu.popN, at.clock, mem)
    }

    /** take_snapshot. */
    method TakeSnapshot()
      requires Valid()
      modifies this, slots
      ensures Valid() && Value() == Snapshot(old(Value()))
    {
      var slot := (base + count) % SLOTS;
      if count == SLOTS {
        slot := base;
        base := (base + 1) % SLOTS;
        count := count - 1;
      }
      slots[slot] := Slot(mem, at.clock - at.offset, at.pc);
      count := count + 1;
    }

    /** rewind_request_restore. */
    method RequestRestore(i: int)
      requires Valid()
      modifies this`menu
      ensures Valid() && Value() == Request(old(Value()), i)
    {
      if count == 0 {
        return;
      }
      var k := if i < 0 then 0 else i;
      if k >= count {
        k := count - 1;
      }
      menu := Menu(true, k + 1);
    }

    /** do_menu_restore. */
    method MenuRestore()
      requires Valid()
      modifies this
      ensures Valid() && Value() == Restore(old(Value()))
    {
      hide Ix;
      if count == 0 {
        return;
      }
      var n := if menu.popN < count then count - menu.popN else 0;
      var slot := (base + n) % SLOTS;
      mem := slots[slot].mem;
      at := Place(slots[slot].frame, 0, at.clock - slots[slot].vticks, at.clock);
      menu := Menu(menu.requested, 1);
      count := n + 1;
    }

    /** rewind_feed_pad, live: the game gets the pad as it is, and the log gets a copy. */
    method Feed(index: nat, st: Pad)
      requires Valid() && index < 2
      modifies recs
      ensures Valid() && Value() == FeedPad(old(Value()), index, st)
    {
      recs[at.pc % RECORDS] := recs[at.pc % RECORDS].WithPad(index, st);
    }

    /** rewind_on_present, live, at real time now. */
    method OnPresent(now: nat)
      requires Valid() && at.clock <= now
      modifies this, slots, recs
      ensures Valid() && Value() == Settled(Counted(old(Value()), now))
    {
      hide Snapshot, Restore;
      at := at.(clock := now, pc := at.pc + 1);
      recs[at.pc % RECORDS] := recs[at.pc % RECORDS].(vticks := now - at.offset);
      if menu.requested {
        menu := menu.(requested := false);
        MenuRestore();
        return;
      }
      at := at.(since := at.since + 1);
      if at.since >= INTERVAL {
        at := at.(since := 0);
        TakeSnapshot();
      }
    }

    /** rewind_on_present for a new process with memory m. */
    method OnFirstPresent(m: Mem, now: nat)
      requires Valid()
      modifies this, slots, recs
      ensures Valid() && Value() == Start(old(Value()), m, now)
    {
      hide Snapshot;
      base, count, mem := 0, 0, m;
      menu := menu.(requested := false);
      at := Place(0, 0, 0, now);
      recs[0] := recs[0].(vticks := now);
      TakeSnapshot();
    }

    /** A frame of the game and the present that ends it; h is the timeline so far, and g the timeline after it. */
    method PlayFrame(step: (Mem, Rec) -> Mem, pad0: Pad, pad1: Pad, now: nat, ghost h: Timeline<Mem>)
        returns (ghost g: Timeline<Mem>)
      requires Valid() && at.clock <= now && Inv(step, Value(), h)
      modifies this, slots, recs
      ensures Valid() && Value() == Frame(step, old(Value()), pad0, pad1, now) && Inv(step, Value(), g)
      ensures at.pc <= |h.mems| == |h.ticks|
      ensures g == Extend(h, step(old(mem), Rec(pad0, pad1, old(at.clock - at.offset))), now - old(at.offset), at.pc)
    {
      hide Inv, FeedPad, Settled, Counted;
      ghost var s := Value();
      InvSize(step, s, h);
      FrameKeeps(step, s, h, pad0, pad1, now);
      Feed(0, pad0);
      Feed(1, pad1);
      FeedLeaves(s, pad0, pad1);
      mem := step(mem, Rec(pad0, pad1, at.clock - at.offset));
      OnPresent(now);
      g := Extend(h, step(s.mem, Rec(pad0, pad1, s.Now())), now - s.offset, at.pc);
    }

    lemma FeedLeaves(s: State<Mem>, pad0: Pad, pad1: Pad)
      requires s.Sized()
      ensures var u := FeedPad(FeedPad(s, 0, pad0), 1, pad1);
              u.mem == s.mem && u.clock == s.clock && u.offset == s.offset
    {}
  }
}
