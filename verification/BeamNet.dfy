/** One beam between consoles over a network that loses, repeats and reorders: a sender, any number of listeners. */
module BeamNet {
  import opened Wrappers
  import opened Bytes
  import opened Beam

  const BROADCAST: Addr := 0xFFFF_FFFF

  datatype Message = Message(src: Addr, dst: Addr, packet: Packet)

  /** Where beam_send_current stands. */
  datatype Phase = Offering | Streaming(attempt: nat, next: nat) | Waiting(attempt: nat) | Over(delivered: bool)

  /** net holds every message ever sent: delivery never removes one, and no message need ever be delivered.
      committed lists the consoles where the game has resumed. */
  datatype World = World(consoles: map<Addr, Console>, phase: Phase, peer: Option<Addr>, net: set<Message>,
                         committed: set<Addr>)

  datatype Move =
    | SendOffer | GiveUp | Begin | SendChunk | SendDone | EndWait
    | Deliver(at: Addr, m: Message)
    | Present(at: Addr)
    | EndAttempt(at: Addr)
    | Expire(at: Addr)
    | Play(at: Addr, game: Game, task: Task)

  /** Timeouts may fire at any moment; a game plays on whenever its console is not inside beam_send_current or
      beam_on_present. */
  predicate Enabled(s: Addr, w: World, mv: Move)
    requires s in w.consoles
  {
    var c := w.consoles[s];
    match mv
    case SendOffer => w.phase.Offering? && !c.snd.accepted
    case GiveUp => w.phase.Offering? && !c.snd.accepted
    case Begin => w.phase.Offering? && c.snd.accepted
    case SendChunk => w.phase.Streaming? && w.peer.Some? && w.phase.next < 4 * |c.run.mem|
    case SendDone => w.phase.Streaming? && w.peer.Some? && w.phase.next == 4 * |c.run.mem|
    case EndWait => w.phase.Waiting?
    case Deliver(a, m) => a in w.consoles && w.consoles[a].Sound() && m in w.net
        && (m.dst == a || (m.dst == BROADCAST && m.src != a))
    case Present(a) => a in w.consoles && w.consoles[a].Sound()
    case EndAttempt(a) => a in w.consoles && w.consoles[a].Sound() && w.consoles[a].role == Active
        && w.consoles[a].rec.attempt < ATTEMPTS
    case Expire(a) => a in w.consoles && w.consoles[a].role == Want
    case Play(a, game, task) => a in w.consoles && w.consoles[a].role in {Idle, Want} && |game.mem| <= MAX_PAGES
  }

  function Send(w: World, src: Addr, out: Sent): (n: set<Message>) {
    if out.To? then w.net + {Message(src, out.dst, out.packet)} else w.net
  }

  function At(w: World, a: Addr, c: Console): World { w.(consoles := w.consoles[a := c]) }

  /** The end of beam_send_current. */
  function Finish(s: Addr, w: World): World
    requires s in w.consoles
  {
    At(w, s, w.consoles[s].(role := Idle)).(phase := Over(w.consoles[s].snd.ack))
  }

  function After(s: Addr, img: Image, w: World, mv: Move): (v: World)
    requires s in w.consoles && Enabled(s, w, mv)
  {
    var c := w.consoles[s];
    match mv
    case SendOffer => w.(net := Send(w, s, To(BROADCAST, Offer(|c.run.mem|, img.ticks, img.game))))
    case GiveUp => At(w, s, c.(role := Idle)).(phase := Over(false))
    case Begin =>
      if c.snd.ack then Finish(s, w).(peer := Some(c.snd.peer))
      else At(w, s, c.(snd := c.snd.(nack := false))).(phase := Streaming(0, 0), peer := Some(c.snd.peer))
    case SendChunk =>
      var k := w.phase.next;
      w.(net := Send(w, s, To(w.peer.value, Chunk(k / 4, k % 4 * PIECE, PieceAt(c.run.mem, k)))),
          phase := Streaming(w.phase.attempt, k + 1))
    case SendDone => w.(net := Send(w, s, To(w.peer.value, Done(|c.run.mem|, img.regs))),
        phase := Waiting(w.phase.attempt))
    case EndWait =>
      if c.snd.ack || w.phase.attempt + 1 == ATTEMPTS then Finish(s, w)
      else At(w, s, c.(snd := c.snd.(nack := false))).(phase := Streaming(w.phase.attempt + 1, 0))
    case Deliver(a, m) => At(w, a, Input(w.consoles[a], m.src, m.packet))
    case Present(a) => var r := Open(w.consoles[a]); At(w, a, r.0).(net := Send(w, a, r.1))
    case EndAttempt(a) =>
      var r := Close(w.consoles[a]);
      At(w, a, r.0).(net := Send(w, a, r.1), committed := w.committed + if Commits(w.consoles[a]) then {a} else {})
    case Expire(a) => At(w, a, w.consoles[a].(role := Idle))
    case Play(a, game, task) => At(w, a, w.consoles[a].(run := game, task := task))
  }

  /** beam_send_current has just frozen the game; nobody else is in a beam. */
  ghost predicate Init(s: Addr, img: Image, w: World) {
    && s in w.consoles && BROADCAST !in w.consoles && w.phase == Offering && w.peer == None && w.net == {}
    && w.committed == {}
    && 0 < |img.pages| <= MAX_PAGES
    && (var c := w.consoles[s];
        c.role == Sending && !c.snd.accepted && !c.snd.ack && !c.rec.have && c.run.mem == img.pages)
    && forall a :: a in w.consoles && a != s ==>
         w.consoles[a].role == Idle && !w.consoles[a].rec.have && |w.consoles[a].run.mem| <= MAX_PAGES
  }

  // ---- The invariant ----

  /** What a message says is true. */
  ghost predicate MessageOk(s: Addr, img: Image, keys: set<Addr>, peer: Option<Addr>, committed: set<Addr>,
                            m: Message) {
    match m.packet
    case Offer(np, vt, game) => m.src == s && m.dst == BROADCAST && np == |img.pages| && vt == img.ticks
        && game == img.game
    case Chunk(_, _, _) => peer == Some(m.dst) && m.dst in keys && Streamed(m.packet, img)
    case Done(_, _) => peer == Some(m.dst) && m.dst in keys && Streamed(m.packet, img)
    case ShortDone(_) => false
    case Accept => m.src in keys && m.src != s
    case Ack => m.src in committed
    case Nack => true
  }

  /** A listener or receiver: it waits for this sender's game, and only the peer holds any of it. */
  ghost predicate ListenerOk(s: Addr, img: Image, peer: Option<Addr>, a: Addr, c: Console) {
    && c.Sound() && c.role != Sending && (c.role != Active ==> !c.rec.have)
    && (c.role in {Want, Active} ==>
          c.rec.np == |img.pages| && c.rec.vt == img.ticks && c.rec.name == Sanitised(img.game)
          && c.rec.name in c.games)
    && (c.role == Active ==> c.task.name == c.rec.name)
    && (c.role == Active ==> Receiving(c, img) && (c.unique > 0 ==> peer == Some(a)))
  }

  /** The sender keeps the frozen game until it is over, and believes in a delivery only after one. */
  ghost predicate SenderOk(s: Addr, img: Image, w: World) {
    && s in w.consoles
    && var c := w.consoles[s];
       && c.Sound() && !c.rec.have && c.role == (if w.phase.Over? then Idle else Sending)
       && (!w.phase.Over? ==> c.run.mem == img.pages && (c.snd.ack ==> w.committed != {}))
       && (w.phase.Offering? ==> w.peer == None && (c.snd.accepted ==> c.snd.peer in w.consoles && c.snd.peer != s))
       && (w.phase.Streaming? || w.phase.Waiting? ==>
            w.peer.Some? && w.peer.value in w.consoles && w.phase.attempt < ATTEMPTS)
       && (w.phase == Over(true) ==> w.committed != {})
  }

  ghost predicate Inv(s: Addr, img: Image, w: World) {
    && BROADCAST !in w.consoles && 0 < |img.pages| <= MAX_PAGES
    && SenderOk(s, img, w)
    && (forall a :: a in w.consoles && a != s ==> ListenerOk(s, img, w.peer, a, w.consoles[a]))
    && (forall m :: m in w.net ==> MessageOk(s, img, w.consoles.Keys, w.peer, w.committed, m))
    && (forall a :: a in w.committed ==> w.peer == Some(a) && a != s)
  }

  lemma InitInv(s: Addr, img: Image, w: World)
    requires Init(s, img, w)
    ensures Inv(s, img, w)
  {}

  /** Input at a listener: it takes up only this sender's game, and only the peer gets any of it. */
  lemma ListenerHears(s: Addr, img: Image, keys: set<Addr>, peer: Option<Addr>, committed: set<Addr>, a: Addr,
                      c: Console, m: Message)
    requires ListenerOk(s, img, peer, a, c) && MessageOk(s, img, keys, peer, committed, m) && BROADCAST !in keys
    requires m.dst == a || m.dst == BROADCAST
    ensures ListenerOk(s, img, peer, a, Input(c, m.src, m.packet))
  {
    hide Streamed, Receiving;
    if c.role == Active {
      if m.packet.Chunk? || m.packet.Done? {
        ReceivingKept(c, img, m.src, m.packet);
        assert Input(c, m.src, m.packet).role == Active;
      }
    }
  }

  lemma ListenerOpens(s: Addr, img: Image, peer: Option<Addr>, a: Addr, c: Console)
    requires ListenerOk(s, img, peer, a, c)
    ensures ListenerOk(s, img, peer, a, Open(c).0)
  {
    hide Receiving;
    if c.role == Want && Open(c).0.role == Active {
      OpenReceives(c, img);
    }
  }

  lemma ListenerCloses(s: Addr, img: Image, peer: Option<Addr>, a: Addr, c: Console)
    requires ListenerOk(s, img, peer, a, c) && c.role == Active && c.rec.attempt < ATTEMPTS && 0 < |img.pages|
    ensures ListenerOk(s, img, peer, a, Close(c).0)
    ensures Commits(c) ==> peer == Some(a)
  {}

  /** What is true of a message stays true. */
  lemma MessageStays(s: Addr, img: Image, keys: set<Addr>, w: World, v: World, m: Message)
    requires MessageOk(s, img, keys, w.peer, w.committed, m)
    requires (w.peer.Some? ==> v.peer == w.peer) && w.committed <= v.committed
    ensures MessageOk(s, img, keys, v.peer, v.committed, m)
  {
    hide Streamed;
  }

  lemma ListenerStays(s: Addr, img: Image, w: World, v: World, a: Addr, c: Console)
    requires ListenerOk(s, img, w.peer, a, c) && (w.peer.Some? ==> v.peer == w.peer)
    ensures ListenerOk(s, img, v.peer, a, c)
  {
    hide Receiving;
  }

  /** The sender's own moves. */
  lemma SenderMoves(s: Addr, img: Image, w: World, mv: Move)
    requires Inv(s, img, w) && Enabled(s, w, mv)
    requires mv.SendOffer? || mv.GiveUp? || mv.Begin? || mv.SendChunk? || mv.SendDone? || mv.EndWait?
    ensures Inv(s, img, After(s, img, w, mv))
  {
    hide Receiving, Streamed, PieceAt, ListenerOk;
    var v := After(s, img, w, mv);
    forall m | m in v.net ensures MessageOk(s, img, v.consoles.Keys, v.peer, v.committed, m) {
      if m in w.net {
        MessageStays(s, img, w.consoles.Keys, w, v, m);
      } else if mv.SendChunk? {
        SentIsStreamed(img, w.phase.next);
      } else if mv.SendDone? {
        DoneIsStreamed(img);
      }
    }
    forall a | a in v.consoles && a != s ensures ListenerOk(s, img, v.peer, a, v.consoles[a]) {
      ListenerStays(s, img, w, v, a, w.consoles[a]);
    }
  }

  lemma SentIsStreamed(img: Image, k: nat)
    requires k < 4 * |img.pages|
    ensures Streamed(Chunk(k / 4, k % 4 * PIECE, PieceAt(img.pages, k)), img)
  {}

  lemma DoneIsStreamed(img: Image)
    ensures Streamed(Done(|img.pages|, img.regs), img)
  {}

  /** A message reaches a console. */
  lemma Delivers(s: Addr, img: Image, w: World, a: Addr, m: Message)
    requires Inv(s, img, w) && Enabled(s, w, Deliver(a, m))
    ensures Inv(s, img, After(s, img, w, Deliver(a, m)))
  {
    hide ListenerOk, Receiving, Streamed;
    var v := After(s, img, w, Deliver(a, m));
    if a != s {
      ListenerHears(s, img, w.consoles.Keys, w.peer, w.committed, a, w.consoles[a], m);
    }
    assert v.consoles.Keys == w.consoles.Keys;
  }

  /** One listener's step: what it says is true, and it stays a listener. */
  lemma ListenerSteps(s: Addr, img: Image, w: World, v: World, a: Addr, c: Console, out: Sent, more: set<Addr>)
    requires Inv(s, img, w) && a in w.consoles && a != s && ListenerOk(s, img, w.peer, a, c)
    requires v == At(w, a, c).(net := Send(w, a, out), committed := w.committed + more)
    requires more <= {a} && (more != {} ==> w.peer == Some(a))
    requires out.To? ==> out.packet == Accept || out.packet == Nack || (out.packet == Ack && a in more)
    ensures Inv(s, img, v)
  {
    hide Receiving, Streamed, ListenerOk;
    assert v.consoles.Keys == w.consoles.Keys;
    forall m | m in v.net ensures MessageOk(s, img, v.consoles.Keys, v.peer, v.committed, m) {
      if m in w.net {
        MessageStays(s, img, w.consoles.Keys, w, v, m);
      }
    }
  }

  lemma SenderPlays(s: Addr, img: Image, w: World, mv: Move)
    requires Inv(s, img, w) && Enabled(s, w, mv) && (mv.Present? || mv.EndAttempt? || mv.Expire? || mv.Play?)
             && mv.at == s
    ensures Inv(s, img, After(s, img, w, mv))
  {
    hide Receiving, Streamed, ListenerOk, MessageOk;
    assert After(s, img, w, mv).consoles.Keys == w.consoles.Keys;
  }

  /** A console presents a frame, ends an attempt, forgets an offer, or plays on. */
  lemma ConsoleMoves(s: Addr, img: Image, w: World, mv: Move)
    requires Inv(s, img, w) && Enabled(s, w, mv) && (mv.Present? || mv.EndAttempt? || mv.Expire? || mv.Play?)
    ensures Inv(s, img, After(s, img, w, mv))
  {
    if mv.at == s {
      SenderPlays(s, img, w, mv);
    } else {
      hide Receiving, Streamed, Inv;
      var a, v := mv.at, After(s, img, w, mv);
      var c := w.consoles[a];
      ListenerOf(s, img, w, a);
      if mv.Present? {
        ListenerOpens(s, img, w.peer, a, c);
        ListenerSteps(s, img, w, v, a, Open(c).0, Open(c).1, {});
      } else if mv.EndAttempt? {
        ListenerCloses(s, img, w.peer, a, c);
        ListenerSteps(s, img, w, v, a, Close(c).0, Close(c).1, if Commits(c) then {a} else {});
      } else {
        ListenerSteps(s, img, w, v, a, v.consoles[a], Nothing, {});
      }
    }
  }

  lemma ListenerOf(s: Addr, img: Image, w: World, a: Addr)
    requires Inv(s, img, w) && a in w.consoles && a != s
    ensures ListenerOk(s, img, w.peer, a, w.consoles[a]) && 0 < |img.pages|
  {}

  lemma StepInv(s: Addr, img: Image, w: World, mv: Move)
    requires Inv(s, img, w) && Enabled(s, w, mv)
    ensures Inv(s, img, After(s, img, w, mv))
  {
    hide Inv, After, Enabled;
    if mv.Deliver? {
      Delivers(s, img, w, mv.at, mv.m);
    } else if mv.Present? || mv.EndAttempt? || mv.Expire? || mv.Play? {
      ConsoleMoves(s, img, w, mv);
    } else {
      SenderMoves(s, img, w, mv);
    }
  }

  // ---- Whole runs ----

  /** v is reached from w by the moves mvs. */
  ghost predicate Leads(s: Addr, img: Image, w: World, mvs: seq<Move>, v: World)
    decreases |mvs|
  {
    if mvs == [] then v == w
    else s in w.consoles && Enabled(s, w, mvs[0]) && Leads(s, img, After(s, img, w, mvs[0]), mvs[1..], v)
  }

  lemma {:induction false} RunInv(s: Addr, img: Image, w: World, mvs: seq<Move>, v: World)
    requires Inv(s, img, w) && Leads(s, img, w, mvs, v)
    ensures Inv(s, img, v)
    decreases |mvs|
  {
    hide Inv, After, Enabled;
    if mvs != [] {
      StepInv(s, img, w, mvs[0]);
      RunInv(s, img, After(s, img, w, mvs[0]), mvs[1..], v);
    }
  }

  /** One console at most ever commits; the sender's copy is as frozen until it is over, and over with success only
      after a commit. */
  lemma OneCommits(s: Addr, img: Image, w: World, mvs: seq<Move>, v: World)
    requires Init(s, img, w) && Leads(s, img, w, mvs, v)
    ensures v.phase == Over(true) ==> v.committed != {}
    ensures forall a, b :: a in v.committed && b in v.committed ==> a == b
    ensures !v.phase.Over? ==> s in v.consoles && v.consoles[s].run.mem == img.pages
  {
    InitInv(s, img, w);
    RunInv(s, img, w, mvs, v);
  }

  /** Wherever the game resumes, it resumes exactly as it was frozen. */
  lemma ResumesExactly(s: Addr, img: Image, w: World, mvs: seq<Move>, v: World, a: Addr)
    requires Init(s, img, w) && Leads(s, img, w, mvs, v) && s in v.consoles
    requires Enabled(s, v, EndAttempt(a)) && Commits(v.consoles[a])
    ensures var c := After(s, img, v, EndAttempt(a)).consoles[a];
            c.run.mem == img.pages && c.run.regs.resume == img.regs.resume
                && c.run.regs.rest == v.consoles[a].run.regs.rest && c.run.ticks == img.ticks
    ensures a != s && v.peer == Some(a)
    ensures var c := v.consoles[a]; c.task.name == Sanitised(img.game) && c.task.name in c.games
  {
    hide Receiving;
    InitInv(s, img, w);
    RunInv(s, img, w, mvs, v);
    ListenerCloses(s, img, v.peer, a, v.consoles[a]);
    ResumesFrozen(v.consoles[a], img);
  }
}
