/** The snapshot ring and the observation log, over games that are a deterministic function of what they read. */
module Rewind {
  import opened Bytes

  const SLOTS: nat := 6
  const INTERVAL: nat := 120
  const RECORDS: nat := 1024

  const PAD_BYTES: nat := 14

  /** A pad_state_t, as the bytes that are copied. */
  type Pad = s: seq<byte> | |s| == PAD_BYTES witness seq(PAD_BYTES, i => 0)

  /** What a game observes between one present and the next. */
  datatype Rec = Rec(pad0: Pad, pad1: Pad, vticks: int) {
    function WithPad(index: nat, st: Pad): Rec
      requires index < 2
    {
      if index == 0 then this.(pad0 := st) else this.(pad1 := st)
    }
  }

  datatype Slot<Mem> = Slot(mem: Mem, vticks: int, frame: nat)

  /** The kernel's rewind variables, the clock, and the memory of the game they belong to. */
  datatype State<Mem> = State(
    base: nat, count: nat, slots: seq<Slot<Mem>>, recs: seq<Rec>,
    pc: nat, since: nat, offset: int, requested: bool, popN: nat, clock: nat, mem: Mem)
  {
    predicate Sized() { base < SLOTS && count <= SLOTS && |slots| == SLOTS && |recs| == RECORDS && popN > 0 }

    /** The i-th snapshot held, the oldest first. */
    function At(i: nat): Slot<Mem>
      requires Sized() && i < SLOTS
    {
      slots[Wrap(base, i)]
    }

    /** The clock the game sees. */
    function Now(): int { clock - offset }
  }

  function Wrap(base: nat, i: nat): (j: nat)
    requires base < SLOTS && i <= SLOTS
    ensures j < SLOTS
  {
    (base + i) % SLOTS
  }

  function Ix(frame: nat): (j: nat)
    ensures j < RECORDS
  {
    frame % RECORDS
  }

  // ---- The kernel's steps ----

  /** take_snapshot. */
  function Snapshot<Mem>(s: State<Mem>): (t: State<Mem>)
    requires s.Sized()
    ensures t.Sized()
  {
    var base := if s.count == SLOTS then Wrap(s.base, 1) else s.base;
    var slot := if s.count == SLOTS then s.base else Wrap(s.base, s.count);
    s.(base := base, count := (if s.count == SLOTS then SLOTS - 1 else s.count) + 1,
       slots := s.slots[slot := Slot(s.mem, s.Now(), s.pc)])
  }

  /** rewind_request_restore. */
  function Request<Mem>(s: State<Mem>, i: int): (t: State<Mem>)
    requires s.Sized()
    ensures t.Sized()
  {
    if s.count == 0 then s
    else s.(popN := (if i < 0 then 0 else if i >= s.count then s.count - 1 else i) + 1, requested := true)
  }

  /** do_menu_restore. */
  function Restore<Mem>(s: State<Mem>): (t: State<Mem>)
    requires s.Sized()
    ensures t.Sized()
  {
    if s.count == 0 then s
    else
      var n := if s.popN < s.count then s.count - s.popN else 0;
      var slot := s.At(n);
      s.(count := n + 1, popN := 1, mem := slot.mem, pc := slot.frame, offset := s.clock - slot.vticks, since := 0)
  }

  /** rewind_feed_pad in live play: what the game is about to read is written down. */
  function FeedPad<Mem>(s: State<Mem>, index: nat, st: Pad): (t: State<Mem>)
    requires s.Sized() && index < 2
    ensures t.Sized()
  {
    s.(recs := s.recs[Ix(s.pc) := s.recs[Ix(s.pc)].WithPad(index, st)])
  }

  /** rewind_on_present in live play, first half: the frame is counted and its clock written down. */
  function Counted<Mem>(s: State<Mem>, now: nat): (t: State<Mem>)
    requires s.Sized()
    ensures t.Sized()
  {
    s.(clock := now, pc := s.pc + 1,
       recs := s.recs[Ix(s.pc + 1) := s.recs[Ix(s.pc + 1)].(vticks := now - s.offset)])
  }

  /** Second half: a requested restore, or a snapshot when it is time. */
  function Settled<Mem>(s: State<Mem>): (t: State<Mem>)
    requires s.Sized()
    ensures t.Sized()
  {
    if s.requested then Restore(s.(requested := false))
    else if s.since + 1 >= INTERVAL then Snapshot(s.(since := 0))
    else s.(since := s.since + 1)
  }

  /** rewind_on_present for a new process. */
  function Start<Mem>(s: State<Mem>, mem: Mem, now: nat): (t: State<Mem>)
    requires s.Sized()
    ensures t.Sized()
  {
    Snapshot(s.(base := 0, count := 0, since := 0, requested := false, pc := 0, offset := 0, clock := now, mem := mem,
                recs := s.recs[0 := s.recs[0].(vticks := now)]))
  }

  /** One frame of the game: it reads both pads and the clock, and computes. */
  function Computed<Mem>(step: (Mem, Rec) -> Mem, s: State<Mem>, pad0: Pad, pad1: Pad): (t: State<Mem>)
    requires s.Sized()
    ensures t.Sized()
  {
    FeedPad(FeedPad(s, 0, pad0), 1, pad1).(mem := step(s.mem, Rec(pad0, pad1, s.Now())))
  }

  /** ... and presents, at real time now. */
  function Frame<Mem>(step: (Mem, Rec) -> Mem, s: State<Mem>, pad0: Pad, pad1: Pad, now: nat): (t: State<Mem>)
    requires s.Sized() && s.clock <= now
    ensures t.Sized()
  {
    Settled(Counted(Computed(step, s, pad0, pad1), now))
  }

  // ---- The invariant ----

  /** The timeline the player is on: the game's memory, and the clock it saw, at every frame. */
  datatype Timeline<Mem> = Timeline(mems: seq<Mem>, ticks: seq<int>)

  /** Snapshots exactly INTERVAL frames apart, the newest less than INTERVAL frames old. */
  ghost predicate Spaced<Mem>(s: State<Mem>)
    requires s.Sized() && s.count > 0
  {
    && (forall i :: 0 <= i < s.count ==> s.At(i).frame == s.At(0).frame + INTERVAL * i)
    && s.At(s.count - 1).frame + s.since == s.pc && s.since < INTERVAL
  }

  ghost predicate Held<Mem>(s: State<Mem>, h: Timeline<Mem>)
    requires s.Sized()
  {
    forall i :: 0 <= i < s.count ==>
      s.At(i).frame < |h.mems| == |h.ticks| && s.At(i).mem == h.mems[s.At(i).frame]
          && s.At(i).vticks == h.ticks[s.At(i).frame]
  }

  /** The log explains every frame from frame f on. */
  ghost predicate Logged<Mem>(step: (Mem, Rec) -> Mem, s: State<Mem>, h: Timeline<Mem>, f: nat)
    requires s.Sized()
  {
    && |h.mems| == |h.ticks| == s.pc + 1
    && (forall k :: f <= k <= s.pc ==> s.recs[Ix(k)].vticks == h.ticks[k])
    && (forall k :: f <= k < s.pc ==> h.mems[k + 1] == step(h.mems[k], s.recs[Ix(k)]))
  }

  ghost predicate Ordered(ticks: seq<int>) {
    forall j, k :: 0 <= j <= k < |ticks| ==> ticks[j] <= ticks[k]
  }

  ghost predicate Inv<Mem>(step: (Mem, Rec) -> Mem, s: State<Mem>, h: Timeline<Mem>) {
    && s.Sized() && s.count > 0 && Spaced(s) && Held(s, h) && Logged(step, s, h, s.At(0).frame)
    && Ordered(h.ticks) && h.ticks[0] >= 0 && h.mems[s.pc] == s.mem && h.ticks[s.pc] == s.Now() && s.offset >= 0
  }

  // ---- Replaying from the log ----

  /** A fold of the game over the log, from snapshot memory m of frame f up to frame t. */
  function Replay<Mem>(step: (Mem, Rec) -> Mem, m: Mem, recs: seq<Rec>, f: nat, t: nat): Mem
    requires f <= t && |recs| == RECORDS
    decreases t
  {
    if t == f then m else step(Replay(step, m, recs, f, t - 1), recs[Ix(t - 1)])
  }

  lemma {:induction false} ReplayFollows<Mem>(step: (Mem, Rec) -> Mem, s: State<Mem>, h: Timeline<Mem>, f: nat,
                                              g: nat, t: nat)
    requires s.Sized() && Logged(step, s, h, f) && f <= g <= t <= s.pc
    ensures Replay(step, h.mems[g], s.recs, g, t) == h.mems[t]
    decreases t
  {
    if t > g {
      ReplayFollows(step, s, h, f, g, t - 1);
    }
  }

  /** The log suffices: from any snapshot held, the game can be brought to any later frame of the timeline, and that
      is the frame the player saw; the ring and the frame counter never outrun the log. */
  lemma LogSuffices<Mem>(step: (Mem, Rec) -> Mem, s: State<Mem>, h: Timeline<Mem>, i: nat, t: nat)
    requires Inv(step, s, h) && i < s.count && s.At(i).frame <= t <= s.pc
    ensures Replay(step, s.At(i).mem, s.recs, s.At(i).frame, t) == h.mems[t]
    ensures s.recs[Ix(t)].vticks == h.ticks[t]
  {
    assert s.At(0).frame <= s.At(i).frame;
    ReplayFollows(step, s, h, s.At(0).frame, s.At(i).frame, t);
  }

  lemma Span<Mem>(s: State<Mem>)
    requires s.Sized() && s.count > 0 && Spaced(s)
    ensures s.pc - s.At(0).frame <= (SLOTS - 1) * INTERVAL + INTERVAL - 1 == 719
  {
    assert s.At(s.count - 1).frame == s.At(0).frame + INTERVAL * (s.count - 1);
  }

  // ---- Every step keeps it ----

  /** Log positions less than RECORDS frames apart are different. */
  lemma IxApart(a: nat, b: nat)
    requires a < b < a + RECORDS
    ensures Ix(a) != Ix(b)
  {}

  /** What the player is on after a present: the new frame, or the timeline cut back to the frame restored. */
  function Extend<Mem>(h: Timeline<Mem>, mem: Mem, tick: int, pc: nat): Timeline<Mem>
    requires pc <= |h.mems| == |h.ticks|
  {
    Timeline((h.mems + [mem])[..pc + 1], (h.ticks + [tick])[..pc + 1])
  }

  /** The reads of the running frame go where no finished frame is logged. */
  lemma FeedKeeps<Mem>(step: (Mem, Rec) -> Mem, s: State<Mem>, h: Timeline<Mem>, f: nat, index: nat, st: Pad)
    requires s.Sized() && Logged(step, s, h, f) && f <= s.pc < f + RECORDS && index < 2
    ensures Logged(step, FeedPad(s, index, st), h, f)
  {
    var t := FeedPad(s, index, st);
    forall k | f <= k <= s.pc
      ensures t.recs[Ix(k)].vticks == h.ticks[k] && (k < s.pc ==> t.recs[Ix(k)] == s.recs[Ix(k)]) {
      if k < s.pc { IxApart(k, s.pc); }
    }
  }

  lemma CountedKeeps<Mem>(step: (Mem, Rec) -> Mem, s: State<Mem>, h: Timeline<Mem>, f: nat, now: nat)
    requires s.Sized() && Logged(step, s, h, f) && f <= s.pc && s.pc + 1 < f + RECORDS
    requires s.mem == step(h.mems[s.pc], s.recs[Ix(s.pc)])
    ensures Logged(step, Counted(s, now), Extend(h, s.mem, now - s.offset, s.pc + 1), f)
  {
    var t, g := Counted(s, now), Extend(h, s.mem, now - s.offset, s.pc + 1);
    assert g.mems == h.mems + [s.mem] && g.ticks == h.ticks + [now - s.offset];
    forall k | f <= k <= s.pc ensures t.recs[Ix(k)] == s.recs[Ix(k)] {
      IxApart(k, s.pc + 1);
    }
  }

  lemma OrderedMore(ticks: seq<int>, tick: int)
    requires Ordered(ticks) && (ticks != [] ==> ticks[|ticks| - 1] <= tick)
    ensures Ordered(ticks + [tick])
  {}

  lemma OrderedLess(ticks: seq<int>, n: nat)
    requires Ordered(ticks) && n <= |ticks|
    ensures Ordered(ticks[..n])
  {}

  /** Between the halves of rewind_on_present: one frame further than the snapshots account for. */
  ghost predicate Mid<Mem>(step: (Mem, Rec) -> Mem, s: State<Mem>, h: Timeline<Mem>) {
    && s.Sized() && s.count > 0 && Held(s, h) && Logged(step, s, h, s.At(0).frame)
    && (forall i :: 0 <= i < s.count ==> s.At(i).frame == s.At(0).frame + INTERVAL * i)
    && s.At(s.count - 1).frame + s.since + 1 == s.pc && s.since < INTERVAL
    && Ordered(h.ticks) && h.ticks[0] >= 0 && h.mems[s.pc] == s.mem && h.ticks[s.pc] == s.Now() && s.offset >= 0
  }

  function Cut<Mem>(h: Timeline<Mem>, pc: nat): Timeline<Mem>
    requires pc < |h.mems| == |h.ticks|
  {
    Timeline(h.mems[..pc + 1], h.ticks[..pc + 1])
  }

  /** Two states with the same ring hold the same snapshots. */
  lemma SameRing<Mem>(s: State<Mem>, t: State<Mem>)
    requires s.Sized() && t.Sized() && t.base == s.base && t.slots == s.slots
    ensures forall i :: 0 <= i < SLOTS ==> t.At(i) == s.At(i)
  {}

  /** A snapshot at the newest frame; the oldest one makes room if the ring is full. */
  lemma SnapshotKeeps<Mem>(step: (Mem, Rec) -> Mem, s: State<Mem>, h: Timeline<Mem>)
    requires Mid(step, s, h) && s.since + 1 >= INTERVAL
    ensures Inv(step, Snapshot(s.(since := 0)), h)
  {
    hide Wrap, Ix, Ordered, State.At;
    var u := s.(since := 0);
    SameRing(s, u);
    SnapshotSlots(u);
  }

  /** The ring after a snapshot: the old ones in order, at most the oldest dropped, then the new one. */
  lemma SnapshotSlots<Mem>(s: State<Mem>)
    requires s.Sized()
    ensures var t, d := Snapshot(s), if s.count == SLOTS then 1 else 0;
            && t.count == s.count + 1 - d
            && (forall i :: 0 <= i < t.count - 1 ==> t.At(i) == s.At(i + d))
            && t.At(t.count - 1) == Slot(s.mem, s.Now(), s.pc)
  {
    var t, d := Snapshot(s), if s.count == SLOTS then 1 else 0;
    forall i | 0 <= i < t.count - 1 ensures t.At(i) == s.At(i + d) {
      assert Wrap(t.base, i) == Wrap(s.base, i + d);
    }
  }

  /** A menu restore: the timeline is cut back to the snapshot's frame. */
  lemma RestoreKeeps<Mem>(step: (Mem, Rec) -> Mem, s: State<Mem>, h: Timeline<Mem>)
    requires Mid(step, s, h)
    ensures var t := Restore(s.(requested := false)); t.pc <= s.pc && Inv(step, t, Cut(h, t.pc))
  {
    hide Wrap, Ix, State.At;
    var t := Restore(s.(requested := false));
    SameRing(s, s.(requested := false));
    SameRing(s, t);
    assert t.pc == s.At(t.count - 1).frame && t.pc <= s.pc;
    OrderedLess(h.ticks, t.pc + 1);
    assert h.ticks[t.pc] <= h.ticks[s.pc];
  }

  lemma SettledKeeps<Mem>(step: (Mem, Rec) -> Mem, s: State<Mem>, h: Timeline<Mem>)
    requires Mid(step, s, h)
    ensures var t := Settled(s); t.pc <= s.pc && Inv(step, t, Cut(h, t.pc))
  {
    hide Wrap, Ix, Restore, Ordered, State.At;
    var t := Settled(s);
    if s.requested {
      RestoreKeeps(step, s, h);
    } else {
      assert Cut(h, s.pc) == h;
      if s.since + 1 >= INTERVAL {
        SnapshotKeeps(step, s, h);
      } else {
        SameRing(s, t);
      }
    }
  }

  /** The place of snapshot i in the menu, where 0 is the newest: cut to those held. */
  function Chosen(i: int, count: nat): (k: nat)
    requires count > 0
    ensures k < count && (0 <= i < count ==> k == i) && (i < 0 ==> k == 0) && (i >= count ==> k == count - 1)
  {
    if i < 0 then 0 else if i >= count then count - 1 else i
  }

  /** Which snapshot a menu restore goes back to: the one asked for, counted from the newest. It and the older ones
      stay; memory, frame and clock are those of its moment. */
  lemma RestoreExactly<Mem>(step: (Mem, Rec) -> Mem, s: State<Mem>, h: Timeline<Mem>, i: int, pad0: Pad, pad1: Pad,
                            now: nat)
    requires Inv(step, s, h) && s.clock <= now
    ensures var t, k := Frame(step, Request(s, i), pad0, pad1, now), Chosen(i, s.count);
            && t.count == s.count - k && (forall j :: 0 <= j < t.count ==> t.At(j) == s.At(j))
            && t.pc == s.At(s.count - 1).frame - INTERVAL * k && t.pc < |h.mems| == |h.ticks|
            && t.mem == h.mems[t.pc] && t.Now() == h.ticks[t.pc] && !t.requested && t.since == 0
  {
    hide Wrap, Ix, State.At, Ordered, Logged;
    var q := Request(s, i);
    SameRing(s, q);
    var m := Counted(Computed(step, q, pad0, pad1), now).(requested := false);
    SameRing(s, m);
    var t := Frame(step, q, pad0, pad1, now);
    assert t == Restore(m);
    SameRing(s, t);
    assert s.At(s.count - 1 - Chosen(i, s.count)).frame ==
           s.At(0).frame + INTERVAL * (s.count - 1 - Chosen(i, s.count));
  }

  /** Adding a frame leaves the snapshots' frames where they were. */
  lemma HeldMore<Mem>(s: State<Mem>, t: State<Mem>, h: Timeline<Mem>, mem: Mem, tick: int)
    requires s.Sized() && t.Sized() && t.base == s.base && t.slots == s.slots && t.count == s.count
    requires Held(s, h) && |h.mems| == |h.ticks|
    ensures Held(t, Extend(h, mem, tick, |h.mems|))
  {
    hide State.At;
    SameRing(s, t);
  }

  lemma FedKeeps<Mem>(step: (Mem, Rec) -> Mem, s: State<Mem>, h: Timeline<Mem>, f: nat, pad0: Pad, pad1: Pad)
    requires s.Sized() && Logged(step, s, h, f) && f <= s.pc < f + RECORDS && h.mems[s.pc] == s.mem
             && h.ticks[s.pc] == s.Now()
    ensures var c := Computed(step, s, pad0, pad1);
            Logged(step, c, h, f) && c.mem == step(h.mems[s.pc], c.recs[Ix(s.pc)])
  {
    hide Ix;
    var a := FeedPad(s, 0, pad0);
    FeedKeeps(step, s, h, f, 0, pad0);
    FeedKeeps(step, a, h, f, 1, pad1);
    assert FeedPad(a, 1, pad1).recs[Ix(s.pc)] == Rec(pad0, pad1, s.Now());
  }

  lemma ComputedMid<Mem>(step: (Mem, Rec) -> Mem, s: State<Mem>, h: Timeline<Mem>, pad0: Pad, pad1: Pad, now: nat)
    requires Inv(step, s, h) && s.clock <= now
    ensures var c := Computed(step, s, pad0, pad1);
            Mid(step, Counted(c, now), Extend(h, c.mem, now - s.offset, s.pc + 1))
  {
    hide Wrap, Ordered, Ix, State.At, Logged, Held;
    Span(s);
    var f := s.At(0).frame;
    var c := Computed(step, s, pad0, pad1);
    var t := Counted(c, now);
    InvSize(step, s, h);
    FedKeeps(step, s, h, f, pad0, pad1);
    CountedKeeps(step, c, h, f, now);
    OrderedMore(h.ticks, now - s.offset);
    SameRing(s, t);
    HeldMore(s, t, h, c.mem, now - s.offset);
    assert h.mems + [c.mem] == Extend(h, c.mem, now - s.offset, s.pc + 1).mems;
    assert h.ticks + [now - s.offset] == Extend(h, c.mem, now - s.offset, s.pc + 1).ticks;
  }

  /** Every frame of the game keeps the invariant, whether it ends in a snapshot, in a restore or in neither. */
  lemma FrameKeeps<Mem>(step: (Mem, Rec) -> Mem, s: State<Mem>, h: Timeline<Mem>, pad0: Pad, pad1: Pad, now: nat)
    requires Inv(step, s, h) && s.clock <= now
    ensures var t := Frame(step, s, pad0, pad1, now);
            t.pc <= s.pc + 1 && Inv(step, t, Extend(h, step(s.mem, Rec(pad0, pad1, s.Now())), now - s.offset, t.pc))
  {
    hide Inv, Mid, Settled;
    InvSize(step, s, h);
    var c := Computed(step, s, pad0, pad1);
    var g := Extend(h, c.mem, now - s.offset, s.pc + 1);
    ComputedMid(step, s, h, pad0, pad1, now);
    SettledKeeps(step, Counted(c, now), g);
    var t := Frame(step, s, pad0, pad1, now);
    assert Cut(g, t.pc) == Extend(h, c.mem, now - s.offset, t.pc);
  }

  lemma InvSize<Mem>(step: (Mem, Rec) -> Mem, s: State<Mem>, h: Timeline<Mem>)
    requires Inv(step, s, h)
    ensures s.Sized() && |h.mems| == |h.ticks| == s.pc + 1
  {}

  lemma StartKeeps<Mem>(step: (Mem, Rec) -> Mem, s: State<Mem>, mem: Mem, now: nat)
    requires s.Sized()
    ensures Inv(step, Start(s, mem, now), Timeline([mem], [now]))
  {}

  // ---- Whole runs ----

  /** What the player and the games do to the console: run a game, play a frame, ask for a restore in the menu. */
  datatype Event<Mem> = Run(mem: Mem, at: nat) | Play(pad0: Pad, pad1: Pad, at: nat) | Ask(i: int)

  /** Real time never goes back. */
  function Next<Mem>(step: (Mem, Rec) -> Mem, s: State<Mem>, e: Event<Mem>): (t: State<Mem>)
    requires s.Sized()
    ensures t.Sized()
  {
    match e
    case Run(mem, at) => if s.clock <= at then Start(s, mem, at) else s
    case Play(pad0, pad1, at) => if s.clock <= at then Frame(step, s, pad0, pad1, at) else s
    case Ask(i) => Request(s, i)
  }

  /** The timeline the player sees: a frame is added, and a restore cuts it back to the frame it restores. */
  function Sees<Mem>(step: (Mem, Rec) -> Mem, s: State<Mem>, h: Timeline<Mem>, e: Event<Mem>): (g: Timeline<Mem>)
    requires s.Sized()
  {
    match e
    case Run(mem, at) => if s.clock <= at then Timeline([mem], [at]) else h
    case Play(pad0, pad1, at) =>
      if s.clock <= at && Frame(step, s, pad0, pad1, at).pc <= |h.mems| == |h.ticks| then
        Extend(h, step(s.mem, Rec(pad0, pad1, s.Now())), at - s.offset, Frame(step, s, pad0, pad1, at).pc)
      else h
    case Ask(i) => h
  }

  lemma RequestKeeps<Mem>(step: (Mem, Rec) -> Mem, s: State<Mem>, h: Timeline<Mem>, i: int)
    requires Inv(step, s, h)
    ensures Inv(step, Request(s, i), h)
  {
    hide Wrap, Ix, Ordered;
    var t := Request(s, i);
    assert forall j :: 0 <= j < SLOTS ==> t.At(j) == s.At(j);
  }

  lemma NextKeeps<Mem>(step: (Mem, Rec) -> Mem, s: State<Mem>, h: Timeline<Mem>, e: Event<Mem>)
    requires Inv(step, s, h)
    ensures Inv(step, Next(step, s, e), Sees(step, s, h, e))
  {
    hide Inv, Frame, Start, Request, Extend;
    InvSize(step, s, h);
    match e
    case Run(mem, at) => StartKeeps(step, s, mem, at);
    case Play(pad0, pad1, at) => if s.clock <= at { FrameKeeps(step, s, h, pad0, pad1, at); }
    case Ask(i) => RequestKeeps(step, s, h, i);
  }

  /** The console and the timeline after a list of events. */
  function After<Mem>(step: (Mem, Rec) -> Mem, s: State<Mem>, h: Timeline<Mem>,
                      es: seq<Event<Mem>>): (r: (State<Mem>, Timeline<Mem>))
    requires s.Sized()
    ensures r.0.Sized()
    decreases |es|
  {
    if es == [] then (s, h)
    else
      var (t, g) := After(step, s, h, es[..|es| - 1]);
      (Next(step, t, es[|es| - 1]), Sees(step, t, g, es[|es| - 1]))
  }

  lemma {:induction false} AfterKeeps<Mem>(step: (Mem, Rec) -> Mem, s: State<Mem>, h: Timeline<Mem>,
                                           es: seq<Event<Mem>>)
    requires Inv(step, s, h)
    ensures Inv(step, After(step, s, h, es).0, After(step, s, h, es).1)
    decreases |es|
  {
    hide Inv, Next, Sees;
    InvSize(step, s, h);
    if es != [] {
      var front := es[..|es| - 1];
      AfterKeeps(step, s, h, front);
      var r := After(step, s, h, front);
      NextKeeps(step, r.0, r.1, es[|es| - 1]);
    }
  }

  /** The log is sufficient over every run of a game: from each snapshot that is held, folding the game over the log
      reaches every later frame of the timeline the player is on, that timeline's clock never goes back, snapshots are
      INTERVAL frames apart and reach at most 719 frames back. */
  lemma RunsReplay<Mem>(step: (Mem, Rec) -> Mem, s: State<Mem>, mem: Mem, at: nat, es: seq<Event<Mem>>, i: nat, t: nat)
    requires s.Sized() && var r := After(step, Start(s, mem, at), Timeline([mem], [at]), es);
             i < r.0.count && r.0.At(i).frame <= t <= r.0.pc
    ensures var (u, h) := After(step, Start(s, mem, at), Timeline([mem], [at]), es);
            && |h.mems| == |h.ticks| == u.pc + 1 && Ordered(h.ticks)
            && Replay(step, u.At(i).mem, u.recs, u.At(i).frame, t) == h.mems[t] && u.recs[Ix(t)].vticks == h.ticks[t]
            && u.At(i).frame == u.At(0).frame + INTERVAL * i && u.pc - u.At(0).frame <= 719
  {
    hide After, Start, Wrap, Ix, Replay;
    StartKeeps(step, s, mem, at);
    AfterKeeps(step, Start(s, mem, at), Timeline([mem], [at]), es);
    var (u, h) := After(step, Start(s, mem, at), Timeline([mem], [at]), es);
    LogSuffices(step, u, h, i, t);
    Span(u);
  }
}
