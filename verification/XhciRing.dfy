/** xHCI rings: the driver's producer side with its link TRB, a controller that follows cycle bits, and the event ring
    the other way round (xHCI specification, sections 4.9.2 to 4.9.4). */
module XhciRing {
  import opened Wrappers

  datatype Trb = Trb(d0: bv32, d1: bv32, d2: bv32, d3: bv32)

  const TRB_CYCLE: bv32 := 1
  const TRB_TOGGLE: bv32 := 2
  const TRB_LINK: bv32 := 6

  predicate Cycle(t: Trb) { t.d3 & TRB_CYCLE != 0 }

  predicate Toggles(t: Trb) { t.d3 & TRB_TOGGLE != 0 }

  /** Bit 0 of the last word is the cycle bit, bit 1 the toggle bit of a link. */
  lemma BitsAre(t: Trb)
    ensures Cycle(t) <==> t.d3 & 1 == 1
    ensures Toggles(t) <==> t.d3 & 2 == 2
  {}

  /** (d3 & ~TRB_CYCLE) | cycle. */
  function Stamp(t: Trb, c: bool): (s: Trb)
    ensures Cycle(s) == c && Toggles(s) == Toggles(t)
  {
    t.(d3 := (t.d3 & !TRB_CYCLE) | (if c then 1 else 0))
  }

  // ---- Laps ----

  /** Where the k-th TRB of an endless run goes in a ring of m places, and in which lap. */
  datatype Place = Place(lap: nat, at: nat)

  function PlaceOf(m: nat, k: nat): (p: Place)
    requires m > 0
    ensures p.at < m
  {
    if k == 0 then Place(0, 0) else Onward(m, PlaceOf(m, k - 1))
  }

  function Onward(m: nat, p: Place): (q: Place)
    requires p.at < m
    ensures q.at < m
  {
    if p.at + 1 == m then Place(p.lap + 1, 0) else Place(p.lap, p.at + 1)
  }

  /** The cycle bit of a lap: 1 in the first. */
  predicate LapBit(lap: nat) { lap % 2 == 0 }

  lemma {:induction false} PlaceAhead(m: nat, k: nat, d: nat)
    requires 0 < m && d <= m
    ensures var p := PlaceOf(m, k);
            PlaceOf(m, k + d) == if p.at + d < m then Place(p.lap, p.at + d) else Place(p.lap + 1, p.at + d - m)
  {
    if d > 0 { PlaceAhead(m, k, d - 1); }
  }

  /** Less than a ring apart: different places. */
  lemma PlacesApart(m: nat, k: nat, j: nat)
    requires 0 < m && k < j < k + m
    ensures PlaceOf(m, k).at != PlaceOf(m, j).at
  {
    PlaceAhead(m, k, j - k);
  }

  /** In the first lap, TRB k is at place k. */
  lemma FirstLap(m: nat, k: nat)
    requires k < m
    ensures PlaceOf(m, k) == Place(0, k)
  {
    PlaceAhead(m, 0, k);
  }

  /** The m places hold the latest TRBs of log, stamped with the bit of their lap; places never used are blank. */
  ghost predicate Written(ts: seq<Trb>, m: nat, log: seq<Trb>) {
    && 0 < m <= |ts|
    && (forall k :: 0 <= k < |log| < k + m + 1 ==> ts[PlaceOf(m, k).at] == Stamp(log[k], LapBit(PlaceOf(m, k).lap)))
    && (forall k :: |log| <= k < m ==> !Cycle(ts[k]))
  }

  /** Writing the next TRB at its place. */
  lemma WrittenMore(ts: seq<Trb>, m: nat, log: seq<Trb>, t: Trb)
    requires Written(ts, m, log)
    ensures var p := PlaceOf(m, |log|); Written(ts[p.at := Stamp(t, LapBit(p.lap))], m, log + [t])
  {
    var p, more := PlaceOf(m, |log|), log + [t];
    var n := ts[p.at := Stamp(t, LapBit(p.lap))];
    forall k | 0 <= k < |more| < k + m + 1 ensures n[PlaceOf(m, k).at] == Stamp(more[k], LapBit(PlaceOf(m, k).lap)) {
      if k < |log| { PlacesApart(m, k, |log|); }
    }
    if |log| < m { FirstLap(m, |log|); }
  }

  /** What a reader finds at the place of TRB k: the TRB if it is there, else something with the wrong cycle bit. */
  lemma Reads(ts: seq<Trb>, m: nat, log: seq<Trb>, k: nat)
    requires Written(ts, m, log) && k <= |log| <= k + m
    ensures var p := PlaceOf(m, k);
            if k < |log| then ts[p.at] == Stamp(log[k], LapBit(p.lap)) else Cycle(ts[p.at]) != LapBit(p.lap)
  {
    if k == |log| {
      if k < m {
        FirstLap(m, k);
      } else {
        PlaceAhead(m, k - m, m);
      }
    }
  }

  // ---- The driver's rings ----

  /** xhci_ring_t. The last TRB is the link. */
  datatype Ring = Ring(trbs: seq<Trb>, enq: nat, cycle: bool) {
    predicate Sized() { |trbs| >= 2 && enq < |trbs| - 1 }
  }

  /** ring_push. */
  function Push(r: Ring, t: Trb): (q: Ring)
    requires r.Sized()
    ensures q.Sized() && |q.trbs| == |r.trbs|
  {
    var ts := r.trbs[r.enq := Stamp(t, r.cycle)];
    if r.enq + 1 == |ts| - 1
    then Ring(ts[r.enq + 1 := Stamp(ts[r.enq + 1], r.cycle)], 0, !r.cycle)
    else Ring(ts, r.enq + 1, r.cycle)
  }

  /** The ring after log was pushed: the link carries the bit of the lap that was finished last. */
  ghost predicate RingInv(r: Ring, log: seq<Trb>) {
    && r.Sized() && Written(r.trbs, |r.trbs| - 1, log)
    && var m := |r.trbs| - 1;
       var p := PlaceOf(m, |log|);
       && r.enq == p.at && r.cycle == LapBit(p.lap)
       && Toggles(r.trbs[m]) && Cycle(r.trbs[m]) == (p.lap > 0 && LapBit(p.lap - 1))
  }

  lemma PushKeeps(r: Ring, log: seq<Trb>, t: Trb)
    requires RingInv(r, log)
    ensures RingInv(Push(r, t), log + [t])
  {
    hide Stamp, Cycle, Toggles, Written, LapBit, PlaceOf;
    var m := |r.trbs| - 1;
    WrittenMore(r.trbs, m, log, t);
    OnwardIs(m, |log|);
    var p, q := PlaceOf(m, |log|), Push(r, t);
    var ts := r.trbs[p.at := Stamp(t, LapBit(p.lap))];
    assert |log + [t]| == |log| + 1;
    if p.at + 1 == m {
      LinkOnly(ts, q.trbs, m, log + [t]);
    }
  }

  lemma OnwardIs(m: nat, k: nat)
    requires m > 0
    ensures PlaceOf(m, k + 1) == Onward(m, PlaceOf(m, k))
    ensures LapBit(PlaceOf(m, k).lap + 1) == !LapBit(PlaceOf(m, k).lap)
  {}

  /** The link is no place for TRBs. */
  lemma LinkOnly(ts: seq<Trb>, us: seq<Trb>, m: nat, log: seq<Trb>)
    requires Written(ts, m, log) && |us| == |ts| && forall i :: 0 <= i < m ==> us[i] == ts[i]
    ensures Written(us, m, log)
  {}

  // ---- The controller as consumer ----

  /** A dequeue position and the consumer cycle state. The position may rest on the link. */
  datatype Consumer = Consumer(deq: nat, ccs: bool)

  /** The link is followed if its cycle bit says it is valid. */
  function Follow(ts: seq<Trb>, c: Consumer): (d: Consumer)
    requires |ts| >= 2 && c.deq < |ts|
    ensures d.deq < |ts|
  {
    if c.deq == |ts| - 1 && Cycle(ts[c.deq]) == c.ccs then Consumer(0, if Toggles(ts[c.deq]) then !c.ccs else c.ccs)
      else c
  }

  /** The next TRB, if its cycle bit says it is valid. */
  function Fetch(ts: seq<Trb>, c: Consumer): (r: (Consumer, Option<Trb>))
    requires |ts| >= 2 && c.deq < |ts|
    ensures r.0.deq < |ts|
  {
    var d := Follow(ts, c);
    if d.deq == |ts| - 1 || Cycle(ts[d.deq]) != d.ccs then (d, None)
    else (Consumer(d.deq + 1, d.ccs), Some(ts[d.deq]))
  }

  /** The consumer has taken k TRBs: it stands at the place of the next, or still on the link before it. */
  ghost predicate StandsAt(c: Consumer, m: nat, k: nat)
    requires m > 0
  {
    var p := PlaceOf(m, k);
    (c.deq == p.at && c.ccs == LapBit(p.lap)) || (p.at == 0 && p.lap > 0 && c.deq == m && c.ccs == LapBit(p.lap - 1))
  }

  /** The link can be followed exactly if the producer has not been all the way round again. */
  lemma FollowsLink(r: Ring, log: seq<Trb>, c: Consumer, k: nat)
    requires RingInv(r, log) && StandsAt(c, |r.trbs| - 1, k) && k <= |log| <= k + |r.trbs| - 1
    ensures var d := Follow(r.trbs, c);
            StandsAt(d, |r.trbs| - 1, k)
                && (d.deq == |r.trbs| - 1 <==> c.deq == |r.trbs| - 1 && |log| == k + |r.trbs| - 1)
  {
    hide Written, PlaceOf, Stamp, Cycle, Toggles;
    var m := |r.trbs| - 1;
    PlaceAhead(m, k, |log| - k);
  }

  /** A consumer that lags behind by no more than the ring sees exactly the next TRB, and nothing past the last one.
      The single exception: it rests on the link with the ring full to the last place. */
  lemma FetchSees(r: Ring, log: seq<Trb>, c: Consumer, k: nat)
    requires RingInv(r, log) && StandsAt(c, |r.trbs| - 1, k) && k <= |log| <= k + |r.trbs| - 1
    ensures var (d, t) := Fetch(r.trbs, c);
            if k < |log| && !(c.deq == |r.trbs| - 1 && |log| == k + |r.trbs| - 1)
            then t == Some(Stamp(log[k], LapBit(PlaceOf(|r.trbs| - 1, k).lap))) && StandsAt(d, |r.trbs| - 1, k + 1)
            else t == None && StandsAt(d, |r.trbs| - 1, k)
  {
    hide Stamp, Follow;
    var m := |r.trbs| - 1;
    FollowsLink(r, log, c, k);
    var d := Follow(r.trbs, c);
    if d.deq != m {
      Reads(r.trbs, m, log, k);
    }
  }

  /** A TRB as a consumer understands it: without the cycle bit. */
  function Plain(t: Trb): Trb { Stamp(t, false) }

  datatype Event = Pushes(t: Trb) | Fetches

  /** A run of driver and controller side by side. */
  datatype World = World(ring: Ring, controller: Consumer, log: seq<Trb>, seen: seq<Trb>)

  predicate WorldSized(w: World) { w.ring.Sized() && w.controller.deq < |w.ring.trbs| }

  /** The driver waits while limit TRBs are outstanding. With eager, the controller leaves the link at once. */
  function Next(w: World, e: Event, limit: nat, eager: bool): (v: World)
    requires WorldSized(w)
    ensures WorldSized(v)
  {
    match e
    case Pushes(t) => if |w.log| < |w.seen| + limit then w.(ring := Push(w.ring, t), log := w.log + [t]) else w
    case Fetches =>
      var (c, t) := Fetch(w.ring.trbs, w.controller);
      w.(controller := if eager then Follow(w.ring.trbs, c) else c,
         seen := w.seen + if t.Some? then [t.value] else [])
  }

  ghost predicate WorldInv(w: World, limit: nat, eager: bool) {
    && RingInv(w.ring, w.log) && StandsAt(w.controller, |w.ring.trbs| - 1, |w.seen|)
    && |w.seen| <= |w.log| <= |w.seen| + limit && (eager ==> w.controller.deq < |w.ring.trbs| - 1)
    && forall i :: 0 <= i < |w.seen| ==> Plain(w.seen[i]) == Plain(w.log[i])
  }

  lemma StampTwice(t: Trb, c: bool)
    ensures Plain(Stamp(t, c)) == Plain(t)
  {}

  /** The controller rests on the link, and the driver has filled the ring once more. */
  predicate Stalled(w: World) {
    w.controller.deq == |w.ring.trbs| - 1 && |w.log| == |w.seen| + |w.ring.trbs| - 1
  }

  /** Each step keeps the order; and a controller with TRBs outstanding finds the next exactly if it is not stalled. */
  lemma NextKeeps(w: World, e: Event, limit: nat, eager: bool)
    requires WorldInv(w, limit, eager) && limit <= |w.ring.trbs| - 1
    ensures WorldInv(Next(w, e, limit, eager), limit, eager)
    ensures e.Fetches? && |w.seen| < |w.log| ==> (|Next(w, e, limit, eager).seen| == |w.seen| + 1 <==> !Stalled(w))
  {
    hide RingInv, Stamp, Fetch, Follow, StandsAt, Plain;
    WorldFacts(w, limit, eager);
    match e
    case Pushes(t) => if |w.log| < |w.seen| + limit { PushKeeps(w.ring, w.log, t); RingSize(w.ring, w.log);
    RingSize(Push(w.ring, t), w.log + [t]); }
    case Fetches =>
      RingSize(w.ring, w.log);
      var k := |w.seen|;
      FetchSees(w.ring, w.log, w.controller, k);
      var (c, t) := Fetch(w.ring.trbs, w.controller);
      if t.Some? {
        StampTwice(w.log[k], LapBit(PlaceOf(|w.ring.trbs| - 1, k).lap));
        if eager { FollowsLink(w.ring, w.log, c, k + 1); }
      } else if eager {
        FollowsLink(w.ring, w.log, c, k);
      }
  }

  lemma RingSize(r: Ring, log: seq<Trb>)
    requires RingInv(r, log)
    ensures r.Sized()
  {}

  function Run(w: World, es: seq<Event>, limit: nat, eager: bool): (v: World)
    requires WorldSized(w)
    ensures WorldSized(v) && |v.ring.trbs| == |w.ring.trbs|
    decreases |es|
  {
    if es == [] then w else Next(Run(w, es[..|es| - 1], limit, eager), es[|es| - 1], limit, eager)
  }

  lemma {:induction false} RunKeeps(w: World, es: seq<Event>, limit: nat, eager: bool)
    requires WorldInv(w, limit, eager) && limit <= |w.ring.trbs| - 1
    ensures WorldInv(Run(w, es, limit, eager), limit, eager)
    decreases |es|
  {
    hide WorldInv, Next;
    WorldFacts(w, limit, eager);
    if es != [] {
      RunKeeps(w, es[..|es| - 1], limit, eager);
      NextKeeps(Run(w, es[..|es| - 1], limit, eager), es[|es| - 1], limit, eager);
    }
  }

  lemma WorldFacts(w: World, limit: nat, eager: bool)
    requires WorldInv(w, limit, eager)
    ensures WorldSized(w) && w.controller.deq < |w.ring.trbs|
  {}

  // ---- From ring_init on ----

  /** What ring_init leaves: blank places, and a link that toggles and is not yet valid. */
  ghost predicate Fresh(ts: seq<Trb>) {
    |ts| >= 2 && (forall i :: 0 <= i < |ts| ==> !Cycle(ts[i])) && Toggles(ts[|ts| - 1])
  }

  function Begin(ts: seq<Trb>): (w: World)
    requires |ts| >= 2
    ensures WorldSized(w)
  {
    World(Ring(ts, 0, true), Consumer(0, true), [], [])
  }

  lemma FreshRing(ts: seq<Trb>, limit: nat, eager: bool)
    requires Fresh(ts)
    ensures WorldInv(Begin(ts), limit, eager)
  {}

  /** Over any number of laps, the controller sees the TRBs that were pushed, each once, in order, and never a stale
      one. While TRBs are outstanding it finds the next unless it is stalled; and it is never stalled if it leaves the
      link at once, or if the driver keeps one more place empty: ntrbs - 2 outstanding at most, instead of ntrbs - 1. */
  lemma RunSees(ts: seq<Trb>, es: seq<Event>, limit: nat, eager: bool)
    requires Fresh(ts) && limit <= |ts| - 1
    ensures var w := Run(Begin(ts), es, limit, eager);
            && |w.seen| <= |w.log| && (forall i :: 0 <= i < |w.seen| ==> Plain(w.seen[i]) == Plain(w.log[i]))
            && (|w.seen| < |w.log| ==> (|Next(w, Fetches, limit, eager).seen| == |w.seen| + 1 <==> !Stalled(w)))
            && (eager || limit <= |ts| - 2 ==> !Stalled(w))
  {
    hide Plain, RingInv, StandsAt, Next, Run;
    FreshRing(ts, limit, eager);
    RunKeeps(Begin(ts), es, limit, eager);
    NextKeeps(Run(Begin(ts), es, limit, eager), Fetches, limit, eager);
  }

  /** A stalled controller never moves again, whatever it and the driver do. */
  lemma {:induction false} StalledForGood(w: World, es: seq<Event>)
    requires WorldSized(w) && WorldInv(w, |w.ring.trbs| - 1, false) && Stalled(w)
    ensures Run(w, es, |w.ring.trbs| - 1, false) == w
    decreases |es|
  {
    hide RingInv, StandsAt, Plain;
    RingSize(w.ring, w.log);
    if es != [] {
      StalledForGood(w, es[..|es| - 1]);
      FollowsLink(w.ring, w.log, w.controller, |w.seen|);
    }
  }

  function Repeat(e: Event, n: nat): (es: seq<Event>)
    ensures |es| == n
  {
    seq(n, i => e)
  }

  /** n TRBs are pushed if they fit. */
  lemma {:induction false} PushesAll(w: World, n: nat, t: Trb, limit: nat)
    requires WorldSized(w) && |w.log| + n <= |w.seen| + limit
    ensures var v := Run(w, Repeat(Pushes(t), n), limit, false);
            |v.log| == |w.log| + n && v.seen == w.seen && v.controller == w.controller
    decreases n
  {
    hide Push;
    if n > 0 {
      assert Repeat(Pushes(t), n)[..n - 1] == Repeat(Pushes(t), n - 1);
      PushesAll(w, n - 1, t, limit);
    }
  }

  /** n TRBs are fetched if they are there, unless the controller stalls. */
  lemma {:induction false} FetchesAll(w: World, n: nat, limit: nat)
    requires WorldInv(w, limit, false) && limit <= |w.ring.trbs| - 1 && |w.seen| + n <= |w.log|
             && w.controller.deq < |w.ring.trbs| - 1
    requires w.controller.deq + n <= |w.ring.trbs| - 1
    ensures WorldSized(w)
    ensures var v := Run(w, Repeat(Fetches, n), limit, false);
            v.log == w.log && |v.seen| == |w.seen| + n && v.controller.deq == w.controller.deq + n
    decreases n
  {
    hide WorldInv, Stamp, Plain;
    WorldFacts(w, limit, false);
    if n > 0 {
      var front := Repeat(Fetches, n - 1);
      assert Repeat(Fetches, n)[..n - 1] == front;
      FetchesAll(w, n - 1, limit);
      RunKeeps(w, front, limit, false);
      NextKeeps(Run(w, front, limit, false), Fetches, limit, false);
    }
  }

  lemma {:induction false} RunsOn(w: World, es: seq<Event>, fs: seq<Event>, limit: nat, eager: bool)
    requires WorldSized(w)
    ensures Run(w, es + fs, limit, eager) == Run(Run(w, es, limit, eager), fs, limit, eager)
    decreases |fs|
  {
    if fs == [] {
      assert es + fs == es;
    } else {
      assert (es + fs)[..|es + fs| - 1] == es + fs[..|fs| - 1];
      RunsOn(w, es, fs[..|fs| - 1], limit, eager);
    }
  }

  /** With ntrbs - 1 TRBs outstanding, a controller that rests on the link can come to a stall: the driver fills the
      ring, the controller empties it, the driver fills it again. From then on the last ring of TRBs is never seen. */
  lemma CanStall(ts: seq<Trb>, t: Trb, more: seq<Event>)
    requires Fresh(ts)
    ensures var m := |ts| - 1;
            var es := Repeat(Pushes(t), m) + Repeat(Fetches, m) + Repeat(Pushes(t), m);
            && Stalled(Run(Begin(ts), es, m, false))
            && Run(Begin(ts), es + more, m, false).seen == Run(Begin(ts), es, m, false).seen
            && |Run(Begin(ts), es, m, false).seen| == m && |Run(Begin(ts), es, m, false).log| == 2 * m
  {
    hide Run, Repeat, WorldInv, Cycle, Toggles;
    var m := |ts| - 1;
    var a, b := Repeat(Pushes(t), m), Repeat(Fetches, m);
    FreshRing(ts, m, false);
    var w1 := Run(Begin(ts), a, m, false);
    PushesAll(Begin(ts), m, t, m);
    RunKeeps(Begin(ts), a, m, false);
    var w2 := Run(w1, b, m, false);
    FetchesAll(w1, m, m);
    RunKeeps(w1, b, m, false);
    var w3 := Run(w2, a, m, false);
    PushesAll(w2, m, t, m);
    RunKeeps(w2, a, m, false);
    RunsOn(Begin(ts), a, b, m, false);
    RunsOn(Begin(ts), a + b, a, m, false);
    RunsOn(Begin(ts), a + b + a, more, m, false);
    StalledForGood(w3, more);
  }

  // ---- The event ring: the controller produces, the driver polls ----

  /** event_poll's position. */
  datatype Poller = Poller(deq: nat, cycle: bool)

  function Poll(ts: seq<Trb>, p: Poller): (r: (Poller, Option<Trb>))
    requires p.deq < |ts|
    ensures r.0.deq < |ts|
  {
    if Cycle(ts[p.deq]) != p.cycle then (p, None)
    else (if p.deq + 1 == |ts| then Poller(0, !p.cycle) else Poller(p.deq + 1, p.cycle), Some(ts[p.deq]))
  }

  ghost predicate PollsAt(p: Poller, m: nat, k: nat)
    requires m > 0
  {
    p.deq == PlaceOf(m, k).at && p.cycle == LapBit(PlaceOf(m, k).lap)
  }

  /** Every event once, in order, and none that is not there: while the controller leaves unread events alone. */
  lemma PollSees(ts: seq<Trb>, log: seq<Trb>, p: Poller, k: nat)
    requires Written(ts, |ts|, log) && PollsAt(p, |ts|, k) && k <= |log| <= k + |ts|
    ensures var (q, t) := Poll(ts, p);
            if k < |log| then t == Some(Stamp(log[k], p.cycle)) && PollsAt(q, |ts|, k + 1) else t == None && q == p
  {
    hide Stamp;
    Reads(ts, |ts|, log, k);
  }

  datatype EventStep = Posts(t: Trb) | Polls

  /** The event ring, the events posted so far, the driver's position, and the events it has got. */
  datatype EventWorld = EventWorld(ts: seq<Trb>, log: seq<Trb>, poller: Poller, seen: seq<Trb>)

  /** The controller posts an event unless the ring is full of unread ones. */
  function EventNext(w: EventWorld, e: EventStep): (v: EventWorld)
    requires w.poller.deq < |w.ts|
    ensures v.poller.deq < |v.ts| == |w.ts|
  {
    match e
    case Posts(t) =>
      var p := PlaceOf(|w.ts|, |w.log|);
      if |w.log| < |w.seen| + |w.ts| then w.(ts := w.ts[p.at := Stamp(t, LapBit(p.lap))], log := w.log + [t]) else w
    case Polls =>
      var (p, t) := Poll(w.ts, w.poller);
      w.(poller := p, seen := w.seen + if t.Some? then [t.value] else [])
  }

  ghost predicate EventInv(w: EventWorld) {
    && Written(w.ts, |w.ts|, w.log) && PollsAt(w.poller, |w.ts|, |w.seen|)
    && |w.seen| <= |w.log| <= |w.seen| + |w.ts|
    && forall i :: 0 <= i < |w.seen| ==> Plain(w.seen[i]) == Plain(w.log[i])
  }

  lemma EventKeeps(w: EventWorld, e: EventStep)
    requires EventInv(w)
    ensures EventInv(EventNext(w, e))
    ensures e.Polls? && |w.seen| < |w.log| ==> |EventNext(w, e).seen| == |w.seen| + 1
  {
    hide Written, Stamp, Plain, LapBit, PlaceOf, Poll, Cycle;
    match e
    case Posts(t) => WrittenMore(w.ts, |w.ts|, w.log, t);
    case Polls =>
      PollSees(w.ts, w.log, w.poller, |w.seen|);
      if |w.seen| < |w.log| { StampTwice(w.log[|w.seen|], w.poller.cycle); }
  }

  function EventRun(w: EventWorld, es: seq<EventStep>): (v: EventWorld)
    requires w.poller.deq < |w.ts|
    ensures v.poller.deq < |v.ts| == |w.ts|
    decreases |es|
  {
    if es == [] then w else EventNext(EventRun(w, es[..|es| - 1]), es[|es| - 1])
  }

  lemma {:induction false} EventRunKeeps(w: EventWorld, es: seq<EventStep>)
    requires EventInv(w)
    ensures EventInv(EventRun(w, es))
    decreases |es|
  {
    hide Written, EventNext;
    if es != [] {
      EventRunKeeps(w, es[..|es| - 1]);
      EventKeeps(EventRun(w, es[..|es| - 1]), es[|es| - 1]);
    }
  }

  lemma FreshEvents(ts: seq<Trb>)
    requires |ts| > 0 && forall i :: 0 <= i < |ts| ==> !Cycle(ts[i])
    ensures EventInv(EventWorld(ts, [], Poller(0, true), []))
  {}

  /** From a blank ring on, over any number of laps, event_poll gets the controller's events, each once, in order, and
      always the next if there is one. */
  lemma EventsSeen(ts: seq<Trb>, es: seq<EventStep>)
    requires |ts| > 0 && forall i :: 0 <= i < |ts| ==> !Cycle(ts[i])
    ensures var w := EventRun(EventWorld(ts, [], Poller(0, true), []), es);
            && |w.seen| <= |w.log| && (forall i :: 0 <= i < |w.seen| ==> Plain(w.seen[i]) == Plain(w.log[i]))
            && |EventNext(w, Polls).seen| == if |w.seen| < |w.log| then |w.seen| + 1 else |w.seen|
  {
    hide Plain, Written, EventRun;
    var w0 := EventWorld(ts, [], Poller(0, true), []);
    FreshEvents(ts);
    EventRunKeeps(w0, es);
    var w := EventRun(w0, es);
    PollSees(w.ts, w.log, w.poller, |w.seen|);
  }
}
