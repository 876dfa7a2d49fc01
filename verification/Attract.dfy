/** Attract mode: the first frames of live play are captured, saved as a demo, loaded, and played back. */
module Attract {
  import opened Wrappers
  import opened Bytes
  import opened Rewind

  const DEMO_FRAMES: nat := 1024
  const DEMO_MIN: nat := 180
  const MAGIC: nat := 0x4445_4D31
  const HEADER: nat := 12
  const FRAME_BYTES: nat := 32          // two pads and the clock

  /** demo_cap, demo_cap_n and demo_seed. */
  datatype Capture = Capture(frames: seq<Rec>, n: nat, seed: nat) {
    predicate Sized() { |frames| == DEMO_FRAMES && 0 < n <= DEMO_FRAMES }
  }

  /** At a new game's first present: it has just read the clock as seed. */
  function CaptureStart(c: Capture, now: nat, seed: nat): (d: Capture)
    requires c.Sized()
    ensures d.Sized()
  {
    Capture(c.frames[0 := c.frames[0].(vticks := now)], 1, seed)
  }

  /** rewind_feed_pad's share. */
  function CapturePad(c: Capture, pc: nat, index: nat, st: Pad): (d: Capture)
    requires c.Sized() && index < 2
    ensures d.Sized()
  {
    if pc < DEMO_FRAMES then c.(frames := c.frames[pc := c.frames[pc].WithPad(index, st)]) else c
  }

  /** rewind_on_present's share, pc being the frame just counted. */
  function CaptureFrame(c: Capture, pc: nat, vticks: int): (d: Capture)
    requires c.Sized()
    ensures d.Sized()
  {
    if pc < DEMO_FRAMES then c.(frames := c.frames[pc := c.frames[pc].(vticks := vticks)], n := pc + 1) else c
  }

  /** What an event adds to the capture; s is the state before it. */
  function CaptureNext<Mem>(s: State<Mem>, c: Capture, e: Event<Mem>, seed: nat): (d: Capture)
    requires c.Sized()
    ensures d.Sized()
  {
    match e
    case Run(_, at) => if s.clock <= at then CaptureStart(c, at, seed) else c
    case Play(pad0, pad1, at) =>
      if s.clock <= at
        then CaptureFrame(CapturePad(CapturePad(c, s.pc, 0, pad0), s.pc, 1, pad1), s.pc + 1, at - s.offset) else c
    case Ask(_) => c
  }

  /** The capture explains the timeline's first frames. */
  ghost predicate Captured<Mem>(step: (Mem, Rec) -> Mem, pc: nat, h: Timeline<Mem>, c: Capture) {
    && c.Sized() && |h.mems| == |h.ticks| == pc + 1
    && (forall k :: 0 <= k <= pc && k < DEMO_FRAMES ==> c.frames[k].vticks == h.ticks[k])
    && (forall k :: 0 <= k < pc && k < DEMO_FRAMES ==> h.mems[k + 1] == step(h.mems[k], c.frames[k]))
  }

  lemma CapturedStart<Mem>(step: (Mem, Rec) -> Mem, c: Capture, mem: Mem, now: nat, seed: nat)
    requires c.Sized()
    ensures Captured(step, 0, Timeline([mem], [now]), CaptureStart(c, now, seed))
  {}

  /** A frame more, or, after a restore, some frames less: the capture follows. */
  lemma CapturedFrame<Mem>(step: (Mem, Rec) -> Mem, s: State<Mem>, h: Timeline<Mem>, c: Capture, pad0: Pad, pad1: Pad,
                           at: nat, pc: nat)
    requires Inv(step, s, h) && Captured(step, s.pc, h, c) && pc <= s.pc + 1
    ensures var d := CaptureFrame(CapturePad(CapturePad(c, s.pc, 0, pad0), s.pc, 1, pad1), s.pc + 1, at - s.offset);
            Captured(step, pc, Extend(h, step(s.mem, Rec(pad0, pad1, s.Now())), at - s.offset, pc), d)
  {
    var d := CaptureFrame(CapturePad(CapturePad(c, s.pc, 0, pad0), s.pc, 1, pad1), s.pc + 1, at - s.offset);
    if s.pc < DEMO_FRAMES {
      assert d.frames[s.pc] == Rec(pad0, pad1, s.Now());
    }
    assert forall k :: 0 <= k < s.pc && k < DEMO_FRAMES ==> d.frames[k] == c.frames[k];
  }

  lemma CapturedNext<Mem>(step: (Mem, Rec) -> Mem, s: State<Mem>, h: Timeline<Mem>, c: Capture, e: Event<Mem>,
                          seed: nat)
    requires Inv(step, s, h) && Captured(step, s.pc, h, c)
    ensures Captured(step, Next(step, s, e).pc, Sees(step, s, h, e), CaptureNext(s, c, e, seed))
  {
    hide Inv, Captured, Frame, Extend, CaptureStart, CaptureFrame, CapturePad;
    InvSize(step, s, h);
    CapturedSize(step, s.pc, h, c);
    match e
    case Run(mem, at) =>
      if s.clock <= at {
        CapturedStart(step, c, mem, at, seed);
        StartKeeps(step, s, mem, at);
        InvSize(step, Start(s, mem, at), Timeline([mem], [at]));
      }
    case Play(pad0, pad1, at) =>
      if s.clock <= at {
        FrameKeeps(step, s, h, pad0, pad1, at);
        CapturedFrame(step, s, h, c, pad0, pad1, at, Frame(step, s, pad0, pad1, at).pc);
      }
    case Ask(i) =>
  }

  /** The capture after a list of events. */
  function CaptureAfter<Mem>(step: (Mem, Rec) -> Mem, s: State<Mem>, h: Timeline<Mem>, c: Capture,
                             es: seq<Event<Mem>>, seed: nat): (d: Capture)
    requires s.Sized() && c.Sized()
    ensures d.Sized()
    decreases |es|
  {
    if es == [] then c
    else
      var front := es[..|es| - 1];
      CaptureNext(After(step, s, h, front).0, CaptureAfter(step, s, h, c, front, seed), es[|es| - 1], seed)
  }

  lemma {:induction false} CapturedAfter<Mem>(step: (Mem, Rec) -> Mem, s: State<Mem>, h: Timeline<Mem>, c: Capture,
                                              es: seq<Event<Mem>>, seed: nat)
    requires Inv(step, s, h) && Captured(step, s.pc, h, c)
    ensures var r := After(step, s, h, es); Captured(step, r.0.pc, r.1, CaptureAfter(step, s, h, c, es, seed))
    decreases |es|
  {
    hide Inv, Captured, Next, Sees, CaptureNext;
    InvSize(step, s, h);
    CapturedSize(step, s.pc, h, c);
    if es != [] {
      var front := es[..|es| - 1];
      CapturedAfter(step, s, h, c, front, seed);
      AfterKeeps(step, s, h, front);
      var r := After(step, s, h, front);
      CapturedNext(step, r.0, r.1, CaptureAfter(step, s, h, c, front, seed), es[|es| - 1], seed);
    }
  }

  lemma CapturedSize<Mem>(step: (Mem, Rec) -> Mem, pc: nat, h: Timeline<Mem>, c: Capture)
    requires Captured(step, pc, h, c)
    ensures c.Sized()
  {}

  // ---- The demo file ----

  datatype Demo = Demo(seed: nat, frames: seq<Rec>)

  function FrameBytes(r: Rec): (bs: seq<byte>)
    ensures |bs| == FRAME_BYTES
  {
    r.pad0 + r.pad1 + Le32(r.vticks % WORD)
  }

  function FramesBytes(rs: seq<Rec>): (bs: seq<byte>)
    ensures |bs| == FRAME_BYTES * |rs|
  {
    if rs == [] then [] else FramesBytes(rs[..|rs| - 1]) + FrameBytes(rs[|rs| - 1])
  }

  /** What rewind_demo_save puts together: the header, then the frames. */
  function Encode(d: Demo): (bs: seq<byte>)
    requires d.seed < WORD && |d.frames| <= DEMO_FRAMES
    ensures |bs| == HEADER + FRAME_BYTES * |d.frames|
  {
    Le32(MAGIC) + Le32(d.seed) + Le32(|d.frames|) + FramesBytes(d.frames)
  }

  function FrameOf(bs: seq<byte>): (r: Rec)
    requires |bs| == FRAME_BYTES
  {
    Rec(bs[..PAD_BYTES], bs[PAD_BYTES..2 * PAD_BYTES], U32(bs, 2 * PAD_BYTES))
  }

  /** rewind_arm_attract's checks and copies, on the bytes that were loaded. */
  function Decode(bs: seq<byte>): (d: Option<Demo>)
    ensures d.Some? ==> 0 < |d.value.frames| <= DEMO_FRAMES
  {
    if |bs| < HEADER then None
    else
      var n := U32(bs, 8);
      if U32(bs, 0) != MAGIC || n == 0 || n > DEMO_FRAMES || |bs| < HEADER + FRAME_BYTES * n then None
      else
        var frames := seq(n, k requires 0 <= k < n =>
          FrameOf(bs[HEADER + FRAME_BYTES * k..HEADER + FRAME_BYTES * k + FRAME_BYTES]));
        Some(Demo(U32(bs, 4), frames))
  }

  lemma {:induction false} FrameAt(rs: seq<Rec>, k: nat)
    requires k < |rs|
    ensures FramesBytes(rs)[FRAME_BYTES * k..FRAME_BYTES * k + FRAME_BYTES] == FrameBytes(rs[k])
  {
    var front := rs[..|rs| - 1];
    if k < |rs| - 1 {
      FrameAt(front, k);
      assert FramesBytes(rs)[FRAME_BYTES * k..FRAME_BYTES * k + FRAME_BYTES] ==
             FramesBytes(front)[FRAME_BYTES * k..FRAME_BYTES * k + FRAME_BYTES];
    }
  }

  lemma FrameRoundTrip(r: Rec)
    requires 0 <= r.vticks < WORD
    ensures FrameOf(FrameBytes(r)) == r
  {
    var bs := FrameBytes(r);
    assert bs[..PAD_BYTES] == r.pad0 && bs[PAD_BYTES..2 * PAD_BYTES] == r.pad1;
    var w := Le32(r.vticks);
    assert bs[28] == w[0] && bs[29] == w[1] && bs[30] == w[2] && bs[31] == w[3];
  }

  lemma HeaderFields(a: nat, b: nat, c: nat, rest: seq<byte>)
    requires a < WORD && b < WORD && c < WORD
    ensures var bs := Le32(a) + Le32(b) + Le32(c) + rest;
            U32(bs, 0) == a && U32(bs, 4) == b && U32(bs, 8) == c && bs[HEADER..] == rest
  {
    var x, y, z := Le32(a), Le32(b), Le32(c);
    var bs := x + y + z + rest;
    assert forall i :: 0 <= i < 4 ==> bs[i] == x[i];
    assert forall i :: 0 <= i < 4 ==> bs[4 + i] == y[i];
    assert forall i :: 0 <= i < 4 ==> bs[8 + i] == z[i];
  }

  /** A demo survives the file. */
  lemma DemoRoundTrip(d: Demo)
    requires d.seed < WORD && 0 < |d.frames| <= DEMO_FRAMES
             && forall k :: 0 <= k < |d.frames| ==> 0 <= d.frames[k].vticks < WORD
    ensures Decode(Encode(d)) == Some(d)
  {
    hide FrameOf, FrameBytes, Le32, U32;
    var bs, n := Encode(d), |d.frames|;
    HeaderFields(MAGIC, d.seed, n, FramesBytes(d.frames));
    forall k | 0 <= k < n
      ensures FrameOf(bs[HEADER + FRAME_BYTES * k..HEADER + FRAME_BYTES * k + FRAME_BYTES]) == d.frames[k] {
      var at := FRAME_BYTES * k;
      assert bs[HEADER + at..HEADER + at + FRAME_BYTES] == bs[HEADER..][at..at + FRAME_BYTES];
      FrameAt(d.frames, k);
      FrameRoundTrip(d.frames[k]);
    }
    assert U32(bs, 8) == n && |bs| == HEADER + FRAME_BYTES * n;
    assert Decode(bs).value.frames == d.frames;
  }

  /** Where everything is in the file. */
  lemma EncodedAt(d: Demo, k: nat)
    requires d.seed < WORD && |d.frames| <= DEMO_FRAMES && k < |d.frames| && 0 <= d.frames[k].vticks < WORD
    ensures var (bs, at) := (Encode(d), HEADER + FRAME_BYTES * k);
            && U32(bs, 0) == 0x4445_4D31 && U32(bs, 4) == d.seed && U32(bs, 8) == |d.frames|
            && bs[at..at + PAD_BYTES] == d.frames[k].pad0 && bs[at + PAD_BYTES..at + 2 * PAD_BYTES] == d.frames[k].pad1
            && U32(bs[at..at + FRAME_BYTES], 2 * PAD_BYTES) == d.frames[k].vticks
  {
    hide Le32, U32;
    var bs, at := Encode(d), FRAME_BYTES * k;
    HeaderFields(MAGIC, d.seed, |d.frames|, FramesBytes(d.frames));
    FrameAt(d.frames, k);
    FrameRoundTrip(d.frames[k]);
    var fs := bs[HEADER..][at..at + FRAME_BYTES];
    assert fs == FrameBytes(d.frames[k]) == bs[HEADER + at..HEADER + at + FRAME_BYTES];
    assert FrameOf(fs) == d.frames[k];
    assert bs[HEADER + at..HEADER + at + PAD_BYTES] == fs[..PAD_BYTES];
    assert bs[HEADER + at + PAD_BYTES..HEADER + at + 2 * PAD_BYTES] == fs[PAD_BYTES..2 * PAD_BYTES];
  }

  // ---- Playback ----

  /** A replayed game: attract_cursor, its memory, and whether attract_end has been reached. */
  datatype Player<Mem> = Player(cursor: nat, mem: Mem, ended: bool)

  /** Between two presents the game reads the demo at the cursor; the present moves on, or ends the demo: at its last
      frame, at a real button, at the deadline. */
  function PlayerFrame<Mem>(step: (Mem, Rec) -> Mem, demo: Demo, p: Player<Mem>, stop: bool): (q: Player<Mem>)
    requires p.ended || p.cursor < |demo.frames|
    ensures q.ended || q.cursor < |demo.frames|
  {
    if p.ended then p
    else Player(p.cursor + 1, step(p.mem, demo.frames[p.cursor]), p.cursor + 1 >= |demo.frames| || stop)
  }

  /** stops[i] tells whether a button or the deadline stops frame i. */
  function PlayerAfter<Mem>(step: (Mem, Rec) -> Mem, demo: Demo, mem: Mem, stops: seq<bool>): (q: Player<Mem>)
    requires |demo.frames| > 0
    ensures q.ended || q.cursor < |demo.frames|
  {
    if stops == [] then Player(0, mem, false)
    else PlayerFrame(step, demo, PlayerAfter(step, demo, mem, stops[..|stops| - 1]), stops[|stops| - 1])
  }

  /** Every frame that the demo presents is the frame of the session it was captured from. */
  lemma {:induction false} PlaybackFollows<Mem>(step: (Mem, Rec) -> Mem, demo: Demo, h: Timeline<Mem>, pc: nat,
                                                c: Capture, stops: seq<bool>)
    requires Captured(step, pc, h, c) && c.n <= pc + 1 && demo.frames == c.frames[..c.n]
    ensures var q := PlayerAfter(step, demo, h.mems[0], stops);
            !q.ended ==> q.cursor == |stops| < c.n && q.mem == h.mems[|stops|]
    decreases |stops|
  {
    if stops != [] {
      PlaybackFollows(step, demo, h, pc, c, stops[..|stops| - 1]);
    }
  }

  /** The demo ends exactly at its last frame, or at a present that a button or the deadline stops. */
  lemma {:induction false} PlaybackEnds<Mem>(step: (Mem, Rec) -> Mem, demo: Demo, mem: Mem, stops: seq<bool>)
    requires |demo.frames| > 0
    ensures var q := PlayerAfter(step, demo, mem, stops);
            && (q.ended <==> |stops| >= |demo.frames| || true in stops)
            && (!q.ended ==> q.cursor == |stops|)
    decreases |stops|
  {
    if stops != [] {
      var front := stops[..|stops| - 1];
      assert stops == front + [stops[|stops| - 1]];
      PlaybackEnds(step, demo, mem, front);
    }
  }

  /** Nothing but the end of the demo ends it when nothing stops it: all n frames are shown. */
  lemma {:induction false} PlaybackIsWhole<Mem>(step: (Mem, Rec) -> Mem, demo: Demo, mem: Mem, stops: seq<bool>)
    requires |stops| < |demo.frames| && forall i :: 0 <= i < |stops| ==> !stops[i]
    ensures !PlayerAfter(step, demo, mem, stops).ended && PlayerAfter(step, demo, mem, stops).cursor == |stops|
    decreases |stops|
  {
    if stops != [] {
      PlaybackIsWhole(step, demo, mem, stops[..|stops| - 1]);
    }
  }

  /** The demo shows frames of the timeline, each in its place, exactly if the capture is not ahead of the timeline. */
  lemma PlaybackExactly<Mem>(step: (Mem, Rec) -> Mem, demo: Demo, h: Timeline<Mem>, pc: nat, c: Capture)
    requires Captured(step, pc, h, c) && demo.frames == c.frames[..c.n]
    ensures (forall stops: seq<bool> :: Shows(step, demo, h, stops)) <==> c.n <= pc + 1
  {
    hide PlayerAfter;
    if c.n <= pc + 1 {
      forall stops: seq<bool> ensures Shows(step, demo, h, stops) {
        PlaybackFollows(step, demo, h, pc, c, stops);
      }
    } else {
      var stops := seq(pc + 1, i => false);
      PlaybackIsWhole(step, demo, h.mems[0], stops);
      assert !Shows(step, demo, h, stops);
    }
  }

  /** After |stops| frames that did not end it, the demo stands at that frame of the timeline. */
  ghost predicate Shows<Mem>(step: (Mem, Rec) -> Mem, demo: Demo, h: Timeline<Mem>, stops: seq<bool>)
    requires |h.mems| > 0 && |demo.frames| > 0
  {
    var p := PlayerAfter(step, demo, h.mems[0], stops);
    !p.ended ==> |stops| < |h.mems| && p.mem == h.mems[|stops|]
  }

  /** A game that depends on the clock it reads first, and then on each frame's observations alone: its captured demo,
      saved, loaded and replayed, shows the frames of the session, one after the other, exactly if the capture is not
      ahead of the timeline when the demo is saved. */
  lemma AttractIsExact<Mem>(init: (nat, Pad, Pad) -> Mem, step: (Mem, Rec) -> Mem, s: State<Mem>, c: Capture, seed: nat,
                            pad0: Pad, pad1: Pad, at: nat, es: seq<Event<Mem>>, u: State<Mem>, h: Timeline<Mem>,
                            d: Capture)
    requires s.Sized() && c.Sized() && seed < WORD && forall i :: 0 <= i < |es| ==> !es[i].Run?
    requires (u, h) == After(step, Start(s, init(seed, pad0, pad1), at), Timeline([init(seed, pad0, pad1)], [at]), es)
    requires d ==
             CaptureAfter(step, Start(s, init(seed, pad0, pad1), at), Timeline([init(seed, pad0, pad1)], [at]),
                 CaptureStart(c, at, seed), es, seed)
    requires d.frames[0].pad0 == pad0 && d.frames[0].pad1 == pad1 && u.clock < WORD
    ensures |h.mems| > 0 && Decode(Encode(Demo(seed, d.frames[..d.n]))) == Some(Demo(d.seed, d.frames[..d.n]))
    ensures var demo := Demo(d.seed, d.frames[..d.n]);
            && init(demo.seed, demo.frames[0].pad0, demo.frames[0].pad1) == h.mems[0]
            && ((forall stops: seq<bool> :: Shows(step, demo, h, stops)) <==> d.n <= u.pc + 1)
  {
    hide After, CaptureAfter, Start, CaptureStart, Captured, Encode, Decode, PlayerAfter, Shows;
    SessionCaptured(init, step, s, c, seed, pad0, pad1, at, es, u, h, d);
    DemoRoundTrip(Demo(seed, d.frames[..d.n]));
    PlaybackExactly(step, Demo(seed, d.frames[..d.n]), h, u.pc, d);
  }

  // ---- A demo saved in between ----

  /** k frames played. */
  function Plays<Mem>(k: nat, pad: Pad, at: nat): (es: seq<Event<Mem>>) {
    if k == 0 then [] else Plays(k - 1, pad, at) + [Play(pad, pad, at)]
  }

  /** Any session with a restore from the menu leaves the capture ahead of the timeline until the next present: a demo
      saved then goes on behind the session's last frame. */
  lemma RestoreLeavesStale<Mem>(step: (Mem, Rec) -> Mem, s: State<Mem>, c: Capture, mem: Mem, seed: nat, pad: Pad,
                                at: nat, k: nat, i: int)
    requires s.Sized() && c.Sized() && k + 2 <= DEMO_FRAMES
    ensures var (s0, h0, c0) := (Start(s, mem, at), Timeline([mem], [at]), CaptureStart(c, at, seed));
            var es := Plays(k, pad, at) + [Ask(i), Play(pad, pad, at)];
            var (u, d) := (After(step, s0, h0, es).0, CaptureAfter(step, s0, h0, c0, es, seed));
            d.n == k + 2 && d.n > u.pc + 1
  {
    hide After, CaptureAfter, Start, CaptureStart, Inv, Frame, Next, CaptureNext, Sees;
    var (s0, h0, c0) := (Start(s, mem, at), Timeline([mem], [at]), CaptureStart(c, at, seed));
    var e1: seq<Event<Mem>> := Plays(k, pad, at);
    var e2 := e1 + [Ask(i)];
    var es := e1 + [Ask(i), Play(pad, pad, at)];
    assert e2[..|e2| - 1] == e1 && es[..|es| - 1] == e2;
    StartKeeps(step, s, mem, at);
    PlaysOn(step, s, c, mem, seed, pad, at, k);
    var r1 := After(step, s0, h0, e1);
    AfterKeeps(step, s0, h0, e1);
    RestoresBack(step, r1.0, r1.1, CaptureAfter(step, s0, h0, c0, e1, seed), pad, i, seed);
    assert After(step, s0, h0, e2).0 == Next(step, r1.0, Ask(i)) by { LastEvent(step, s0, h0, c0, e2, seed); }
    LastEvent(step, s0, h0, c0, e2, seed);
    LastEvent(step, s0, h0, c0, es, seed);
  }

  lemma LastEvent<Mem>(step: (Mem, Rec) -> Mem, s: State<Mem>, h: Timeline<Mem>, c: Capture, es: seq<Event<Mem>>,
                       seed: nat)
    requires s.Sized() && c.Sized() && es != []
    ensures var front, e := es[..|es| - 1], es[|es| - 1];
            && After(step, s, h, es).0 == Next(step, After(step, s, h, front).0, e)
            && CaptureAfter(step, s, h, c, es, seed) ==
                 CaptureNext(After(step, s, h, front).0, CaptureAfter(step, s, h, c, front, seed), e, seed)
  {}

  lemma {:induction false} PlaysOn<Mem>(step: (Mem, Rec) -> Mem, s: State<Mem>, c: Capture, mem: Mem, seed: nat,
                                        pad: Pad, at: nat, k: nat)
    requires s.Sized() && c.Sized() && k < DEMO_FRAMES
    ensures var (s0, h0, c0, es) :=
            (Start(s, mem, at), Timeline([mem], [at]), CaptureStart(c, at, seed), Plays(k, pad, at));
            var u := After(step, s0, h0, es).0;
            u.pc == k && u.clock == at && !u.requested && CaptureAfter(step, s0, h0, c0, es, seed).n == k + 1
  {
    hide After, CaptureAfter, Frame, FeedPad;
    var (s0, h0, c0, es) :=
        (Start(s, mem, at), Timeline([mem], [at]), CaptureStart(c, at, seed), Plays<Mem>(k, pad, at));
    if k == 0 {
      assert After(step, s0, h0, []) == (s0, h0) && CaptureAfter(step, s0, h0, c0, [], seed) == c0 by {
        NoEvent(step, s0, h0, c0, seed);
      }
    } else {
      PlaysOn(step, s, c, mem, seed, pad, at, k - 1);
      assert es[..|es| - 1] == Plays<Mem>(k - 1, pad, at);
      LastEvent(step, s0, h0, c0, es, seed);
      PlayCounts(step, After(step, s0, h0, Plays(k - 1, pad, at)).0, Play(pad, pad, at));
    }
  }

  lemma NoEvent<Mem>(step: (Mem, Rec) -> Mem, s: State<Mem>, h: Timeline<Mem>, c: Capture, seed: nat)
    requires s.Sized() && c.Sized()
    ensures After(step, s, h, []) == (s, h) && CaptureAfter(step, s, h, c, [], seed) == c
  {}

  lemma RestoresBack<Mem>(step: (Mem, Rec) -> Mem, s: State<Mem>, h: Timeline<Mem>, c: Capture, pad: Pad, i: int,
                          seed: nat)
    requires Inv(step, s, h) && c.Sized() && c.n == s.pc + 1 && s.pc + 1 < DEMO_FRAMES
    ensures var t := Next(step, s, Ask(i));
            && Next(step, t, Play(pad, pad, s.clock)).pc <= s.pc
            && CaptureNext(t, CaptureNext(s, c, Ask(i), seed), Play(pad, pad, s.clock), seed).n == s.pc + 2
  {
    hide Frame, State.At;
    var t := Next(step, s, Ask(i));
    SameRing(s, t);
    FrameBack(step, t, pad);
  }

  /** A present with a restore requested goes back to a snapshot held before. */
  lemma FrameBack<Mem>(step: (Mem, Rec) -> Mem, s: State<Mem>, pad: Pad)
    requires s.Sized() && s.requested && s.count > 0 && forall j :: 0 <= j < s.count ==> s.At(j).frame <= s.pc
    ensures Frame(step, s, pad, pad, s.clock).pc <= s.pc
  {
    hide Ix, Wrap, State.At;
    var m := Counted(Computed(step, s, pad, pad), s.clock);
    SameRing(s, m.(requested := false));
  }

  /** What was captured by the end of a session. */
  lemma SessionCaptured<Mem>(init: (nat, Pad, Pad) -> Mem, step: (Mem, Rec) -> Mem, s: State<Mem>, c: Capture,
                             seed: nat,
                             pad0: Pad, pad1: Pad, at: nat, es: seq<Event<Mem>>, u: State<Mem>, h: Timeline<Mem>,
                             d: Capture)
    requires s.Sized() && c.Sized() && forall i :: 0 <= i < |es| ==> !es[i].Run?
    requires (u, h) == After(step, Start(s, init(seed, pad0, pad1), at), Timeline([init(seed, pad0, pad1)], [at]), es)
    requires d ==
             CaptureAfter(step, Start(s, init(seed, pad0, pad1), at), Timeline([init(seed, pad0, pad1)], [at]),
                 CaptureStart(c, at, seed), es, seed)
    ensures Captured(step, u.pc, h, d) && d.seed == seed && d.Sized()
    ensures |h.mems| == u.pc + 1 && h.mems[0] == init(seed, pad0, pad1)
    ensures forall k :: 0 <= k < d.n ==> 0 <= d.frames[k].vticks <= u.clock
  {
    hide After, CaptureAfter, Start, CaptureStart, Inv, Captured;
    var m0 := init(seed, pad0, pad1);
    var h0, s0, c0 := Timeline([m0], [at]), Start(s, m0, at), CaptureStart(c, at, seed);
    StartKeeps(step, s, m0, at);
    CapturedStart(step, c, m0, at, seed);
    StartFrame(s, m0, at);
    CapturedAfter(step, s0, h0, c0, es, seed);
    AfterKeeps(step, s0, h0, es);
    SeedKept(step, s0, h0, c, at, es, seed);
    FirstKept(step, s0, h0, es);
    CapturedSize(step, u.pc, h, d);
    assert |h.mems| == u.pc + 1 by { InvSize(step, u, h); }
    StartTicks(s, c, m0, at, seed);
    TicksBounded(step, s0, h0, c0, es, seed);
  }

  lemma StartTicks<Mem>(s: State<Mem>, c: Capture, mem: Mem, now: nat, seed: nat)
    requires s.Sized() && c.Sized()
    ensures Bounded(CaptureStart(c, now, seed), Start(s, mem, now).clock)
  {}

  /** No clock value captured lies in the future, stale ones included. */
  ghost predicate Bounded(c: Capture, clock: nat) {
    c.Sized() && forall k :: 0 <= k < c.n ==> 0 <= c.frames[k].vticks <= clock
  }

  lemma {:induction false} TicksBounded<Mem>(step: (Mem, Rec) -> Mem, s: State<Mem>, h: Timeline<Mem>, c: Capture,
                                             es: seq<Event<Mem>>, seed: nat)
    requires Inv(step, s, h) && Captured(step, s.pc, h, c) && Bounded(c, s.clock)
    ensures Bounded(CaptureAfter(step, s, h, c, es, seed), After(step, s, h, es).0.clock)
    decreases |es|
  {
    hide Inv, Captured, Next, Sees, CaptureNext, Bounded;
    InvSize(step, s, h);
    CapturedSize(step, s.pc, h, c);
    if es != [] {
      var front := es[..|es| - 1];
      TicksBounded(step, s, h, c, front, seed);
      CapturedAfter(step, s, h, c, front, seed);
      AfterKeeps(step, s, h, front);
      var r := After(step, s, h, front);
      NextBounded(step, r.0, r.1, CaptureAfter(step, s, h, c, front, seed), es[|es| - 1], seed);
    }
  }

  lemma NextBounded<Mem>(step: (Mem, Rec) -> Mem, s: State<Mem>, h: Timeline<Mem>, c: Capture, e: Event<Mem>, seed: nat)
    requires Inv(step, s, h) && Captured(step, s.pc, h, c) && Bounded(c, s.clock)
    ensures Bounded(CaptureNext(s, c, e, seed), Next(step, s, e).clock)
  {
    hide Ix, FeedPad;
    CapturedTicks(step, s, h, c);
    if e.Play? && s.clock <= e.at {
      assert 0 <= h.ticks[0] <= h.ticks[s.pc] == s.Now() <= e.at - s.offset;
    }
  }

  lemma CapturedTicks<Mem>(step: (Mem, Rec) -> Mem, s: State<Mem>, h: Timeline<Mem>, c: Capture)
    requires Inv(step, s, h) && Captured(step, s.pc, h, c)
    ensures |h.mems| == s.pc + 1 && forall k :: 0 <= k <= s.pc && k < DEMO_FRAMES ==> 0 <= c.frames[k].vticks <= s.clock
  {
    forall k | 0 <= k <= s.pc && k < DEMO_FRAMES ensures 0 <= c.frames[k].vticks <= s.clock {
      assert h.ticks[0] <= h.ticks[k] <= h.ticks[s.pc];
    }
  }

  /** Without restores the capture is never ahead of the timeline. */
  lemma {:induction false} NoRestoreInStep<Mem>(step: (Mem, Rec) -> Mem, s: State<Mem>, h: Timeline<Mem>, c: Capture,
                                                es: seq<Event<Mem>>, seed: nat)
    requires s.Sized() && c.Sized() && !s.requested && c.n <= s.pc + 1 && forall i :: 0 <= i < |es| ==> es[i].Play?
    ensures var u := After(step, s, h, es).0; !u.requested && CaptureAfter(step, s, h, c, es, seed).n <= u.pc + 1
    decreases |es|
  {
    hide FeedPad;
    if es != [] {
      var front := es[..|es| - 1];
      NoRestoreInStep(step, s, h, c, front, seed);
      PlayCounts(step, After(step, s, h, front).0, es[|es| - 1]);
    }
  }

  lemma PlayCounts<Mem>(step: (Mem, Rec) -> Mem, s: State<Mem>, e: Event<Mem>)
    requires s.Sized() && !s.requested && e.Play?
    ensures var t := Next(step, s, e);
            !t.requested && (if s.clock <= e.at then t.pc == s.pc + 1 && t.clock == e.at else t == s)
  {}

  lemma StartFrame<Mem>(s: State<Mem>, mem: Mem, now: nat)
    requires s.Sized()
    ensures Start(s, mem, now).pc == 0
  {}

  lemma {:induction false} SeedKept<Mem>(step: (Mem, Rec) -> Mem, s: State<Mem>, h: Timeline<Mem>, c: Capture,
                                         at: nat, es: seq<Event<Mem>>, seed: nat)
    requires s.Sized() && c.Sized() && forall i :: 0 <= i < |es| ==> !es[i].Run?
    ensures CaptureAfter(step, s, h, CaptureStart(c, at, seed), es, seed).seed == seed
    decreases |es|
  {
    hide After;
    if es != [] {
      SeedKept(step, s, h, c, at, es[..|es| - 1], seed);
    }
  }

  /** Frame 0 never leaves the timeline while the game runs. */
  lemma {:induction false} FirstKept<Mem>(step: (Mem, Rec) -> Mem, s: State<Mem>, h: Timeline<Mem>, es: seq<Event<Mem>>)
    requires Inv(step, s, h) && forall i :: 0 <= i < |es| ==> !es[i].Run?
    ensures |After(step, s, h, es).1.mems| > 0 && After(step, s, h, es).1.mems[0] == h.mems[0]
    decreases |es|
  {
    hide Inv, Next, Frame;
    InvSize(step, s, h);
    if es != [] {
      var front := es[..|es| - 1];
      FirstKept(step, s, h, front);
      AfterKeeps(step, s, h, front);
      AfterKeeps(step, s, h, es);
    }
  }
}
