/** Runs of a beam: one that delivers the game, and how a late OFFER loses it from there on. */
module BeamLoss {
  import opened Wrappers
  import opened Bytes
  import opened Beam
  import opened BeamNet
  import opened BeamHolders

  // ---- Runs in pieces ----

  lemma {:induction false} LeadsThen(s: Addr, img: Image, w: World, mvs: seq<Move>, u: World, more: seq<Move>, v: World)
    requires Leads(s, img, w, mvs, u) && Leads(s, img, u, more, v)
    ensures Leads(s, img, w, mvs + more, v)
    decreases |mvs|
  {
    hide After, Enabled;
    if mvs == [] {
      assert mvs + more == more;
    } else {
      assert (mvs + more)[1..] == mvs[1..] + more;
      LeadsThen(s, img, After(s, img, w, mvs[0]), mvs[1..], u, more, v);
    }
  }

  lemma OneStep(s: Addr, img: Image, w: World, mvs: seq<Move>, u: World, mv: Move)
    requires Leads(s, img, w, mvs, u) && s in u.consoles && Enabled(s, u, mv)
    ensures Leads(s, img, w, mvs + [mv], After(s, img, u, mv))
  {
    hide After, Enabled;
    var v := After(s, img, u, mv);
    assert Leads(s, img, v, [mv][1..], v);
    LeadsThen(s, img, w, mvs, u, [mv], v);
  }

  lemma {:induction false} SpoiltThen(s: Addr, img: Image, w: World, was: bool, mvs: seq<Move>, u: World, mv: Move,
                                      a: Addr)
    requires Leads(s, img, w, mvs, u) && s in u.consoles && Enabled(s, u, mv) && Overwrites(u, mv, a)
    ensures Spoilt(s, img, w, was, mvs + [mv], a)
    decreases |mvs|
  {
    hide After, Enabled;
    if mvs == [] {
      assert (mvs + [mv])[1..] == [];
    } else {
      hide Overwrites, Spoils;
      assert (mvs + [mv])[1..] == mvs[1..] + [mv];
      SpoiltThen(s, img, After(s, img, w, mvs[0]), Spoils(w, was, mvs[0], a), mvs[1..], u, mv, a);
    }
  }

  // ---- What stays in the network ----

  ghost predicate OfferFor(w: World, a: Addr, games: set<string>) {
    exists m :: m in w.net && m.packet.Offer? && m.dst == BROADCAST && m.src != a && Sanitised(m.packet.game) in games
  }

  ghost predicate FirstChunkFor(w: World, a: Addr, img: Image) {
    exists m :: m in w.net && m.dst == a && |img.pages| > 0 && m.packet == ChunkPacket(img, 0)
  }

  /** A console that waits for the game has heard an OFFER of it, and one that has the first chunk was sent it. */
  ghost predicate Heard(img: Image, w: World, a: Addr) {
    a in w.consoles ==>
      && (w.consoles[a].role in {Want, Active} || a in w.committed ==> OfferFor(w, a, w.consoles[a].games))
      && ((w.consoles[a].role == Active && w.consoles[a].bits[0]) || a in w.committed ==> FirstChunkFor(w, a, img))
  }

  /** Nothing leaves the network, no game is uninstalled, no commit undone, and a success stays one. */
  lemma NetStays(s: Addr, img: Image, w: World, mv: Move, a: Addr)
    requires s in w.consoles && Enabled(s, w, mv) && a in w.consoles
    ensures var v := After(s, img, w, mv);
            && w.net <= v.net && w.committed <= v.committed && (w.phase == Over(true) ==> v.phase == Over(true))
            && a in v.consoles && v.consoles[a].games == w.consoles[a].games
            && (OfferFor(w, a, w.consoles[a].games) ==> OfferFor(v, a, w.consoles[a].games))
            && (FirstChunkFor(w, a, img) ==> FirstChunkFor(v, a, img))
  {
    hide ChunkPacket;
  }

  /** Of the packets, an OFFER alone opens a console, and the first chunk alone sets the first bit. */
  lemma HeardPacket(img: Image, w: World, a: Addr, m: Message, c: Console)
    requires c.Sound() && m in w.net && (m.dst == a || (m.dst == BROADCAST && m.src != a))
    requires m.packet.Offer? ==> m.dst == BROADCAST && m.src != a
    requires m.packet.Chunk? ==> m.dst == a && Streamed(m.packet, img)
    ensures var d := Input(c, m.src, m.packet);
            && (d.role in {Want, Active} ==> c.role in {Want, Active} || OfferFor(w, a, c.games))
            && (d.role == Active && d.bits[0] ==> (c.role == Active && c.bits[0]) || FirstChunkFor(w, a, img))
  {
    hide Sanitised;
    if m.packet.Offer? && Sanitised(m.packet.game) in c.games {
      assert OfferFor(w, a, c.games);
    }
  }

  lemma HeardStep(s: Addr, img: Image, w: World, mv: Move, a: Addr)
    requires Inv(s, img, w) && Enabled(s, w, mv) && a != s && Heard(img, w, a)
    ensures Heard(img, After(s, img, w, mv), a)
  {
    if a in w.consoles {
      NetStays(s, img, w, mv, a);
      hide Receiving, OfferFor, FirstChunkFor, Input, Streamed;
      if mv.Deliver? && mv.at == a {
        HeardPacket(img, w, a, mv.m, w.consoles[a]);
      } else if mv == EndAttempt(a) && Commits(w.consoles[a]) {
        EnoughIsAll(w.consoles[a], img);
      }
    }
  }

  lemma {:induction false} HeardRun(s: Addr, img: Image, w: World, mvs: seq<Move>, v: World, a: Addr)
    requires Inv(s, img, w) && Leads(s, img, w, mvs, v) && a != s && Heard(img, w, a)
    ensures Heard(img, v, a)
    decreases |mvs|
  {
    hide Inv, After, Enabled, Heard;
    if mvs != [] {
      StepInv(s, img, w, mvs[0]);
      HeardStep(s, img, w, mvs[0], a);
      HeardRun(s, img, After(s, img, w, mvs[0]), mvs[1..], v, a);
    }
  }

  // ---- Taking up an OFFER ----

  /** Console c after it has started the game, heard an OFFER of it and presented a frame. */
  function Taken(c: Console, src: Addr, p: Packet, game: Game): (d: Console)
    requires p.Offer?
  {
    c.(role := Active, run := game, task := Task(Sanitised(p.game), 1),
       rec := Receiver(Sanitised(p.game), src, p.npages, p.vticks, true, 1, 0, false, c.rec.regs),
       bits := seq(BITS, i => false), unique := 0)
  }

  function TakeUp(a: Addr, m: Message, game: Game): (mvs: seq<Move>)
    requires m.packet.Offer?
  {
    [Play(a, game, Task(Sanitised(m.packet.game), 1)), Deliver(a, m), Present(a)]
  }

  /** An idle console that has the game installed takes up any OFFER in the network. */
  lemma TakesUp(s: Addr, img: Image, w: World, a: Addr, m: Message, game: Game)
    requires s in w.consoles && a in w.consoles && w.consoles[a].role == Idle && !w.consoles[a].rec.have
    requires m in w.net && m.packet.Offer? && m.dst == BROADCAST && m.src != a
             && Sanitised(m.packet.game) in w.consoles[a].games
    requires |game.mem| == m.packet.npages <= MAX_PAGES
    ensures var v := At(w, a, Taken(w.consoles[a], m.src, m.packet, game)).(net := w.net + {Message(a, m.src, Accept)});
            Leads(s, img, w, TakeUp(a, m, game), v)
  {
    hide Leads, Sanitised;
    var c := w.consoles[a];
    var mvs := TakeUp(a, m, game);
    var c1 := c.(run := game, task := Task(Sanitised(m.packet.game), 1));
    var w1 := After(s, img, w, mvs[0]);
    assert w1 == At(w, a, c1);
    var c2 := Input(c1, m.src, m.packet);
    var w2 := After(s, img, w1, mvs[1]);
    assert w2 == At(w, a, c2);
    var w3 := After(s, img, w2, mvs[2]);
    assert Open(c2) == (Taken(c, m.src, m.packet, game), To(m.src, Accept));
    assert w3 == At(w, a, Taken(c, m.src, m.packet, game)).(net := w.net + {Message(a, m.src, Accept)});
    ThreeSteps(s, img, w, mvs[0], w1, mvs[1], w2, mvs[2], w3);
  }

  lemma ThreeSteps(s: Addr, img: Image, w: World, m0: Move, w1: World, m1: Move, w2: World, m2: Move, w3: World)
    requires s in w.consoles && Enabled(s, w, m0) && w1 == After(s, img, w, m0)
    requires s in w1.consoles && Enabled(s, w1, m1) && w2 == After(s, img, w1, m1)
    requires s in w2.consoles && Enabled(s, w2, m2) && w3 == After(s, img, w2, m2)
    ensures Leads(s, img, w, [m0, m1, m2], w3)
  {
    hide After, Enabled;
    assert [m0, m1, m2][1..] == [m1, m2] && [m1, m2][1..] == [m2] && [m2][1..] == [];
    assert Leads(s, img, w3, [], w3);
    assert Leads(s, img, w2, [m2], w3);
    assert Leads(s, img, w1, [m1, m2], w3);
  }

  // ---- A late OFFER ----

  /** The game has moved to console a, and the sender has given up its copy. */
  ghost predicate Moved(s: Addr, img: Image, w: World, a: Addr) {
    && Inv(s, img, w) && a != s && a in w.consoles && w.committed == {a} && w.phase == Over(true)
    && OfferFor(w, a, w.consoles[a].games) && FirstChunkFor(w, a, img)
  }

  lemma MovedStep(s: Addr, img: Image, w: World, mv: Move, a: Addr)
    requires Moved(s, img, w, a) && Enabled(s, w, mv)
    ensures Moved(s, img, After(s, img, w, mv), a)
  {
    StepInv(s, img, w, mv);
    NetStays(s, img, w, mv, a);
    hide Receiving, OfferFor, FirstChunkFor, Enabled, After, ListenerOk, MessageOk;
    assert forall b :: b in After(s, img, w, mv).committed ==> b == a;
  }

  /** A wait or an attempt of console a ends. */
  function Ending(w: World, a: Addr): (mv: Move)
    requires a in w.consoles
  {
    if w.consoles[a].role == Want then Expire(a) else EndAttempt(a)
  }

  lemma Ends(s: Addr, img: Image, w: World, a: Addr)
    requires Inv(s, img, w) && a != s && a in w.consoles && w.consoles[a].role != Idle
    ensures s in w.consoles && Enabled(s, w, Ending(w, a))
    ensures var (c, d) := (w.consoles[a], After(s, img, w, Ending(w, a)).consoles[a]);
            d.role == Idle || (d.role == Active && d.rec.attempt == c.rec.attempt + 1 < ATTEMPTS)
  {
    hide MessageOk;
    assert ListenerOk(s, img, w.peer, a, w.consoles[a]);
  }

  /** The console where the game lives comes to rest, whatever it is doing. */
  lemma {:induction false} ComesToRest(s: Addr, img: Image, w: World, a: Addr) returns (mvs: seq<Move>, v: World)
    requires Moved(s, img, w, a)
    ensures Leads(s, img, w, mvs, v) && Moved(s, img, v, a) && v.consoles[a].role == Idle
    decreases ATTEMPTS - w.consoles[a].rec.attempt
  {
    hide OfferFor, FirstChunkFor, After, Enabled, Inv;
    mvs, v := [], w;
    if w.consoles[a].role != Idle {
      var mv := Ending(w, a);
      Ends(s, img, w, a);
      MovedStep(s, img, w, mv, a);
      var u := After(s, img, w, mv);
      var more;
      if u.consoles[a].role == Idle {
        more, v := [], u;
      } else {
        more, v := ComesToRest(s, img, u, a);
      }
      mvs := [mv] + more;
      assert mvs[1..] == more;
    }
  }

  /** Pages that differ from some pages in their first chunk. */
  function Other(pages: seq<Page>): (qs: seq<Page>)
    requires pages != []
    ensures |qs| == |pages| && PieceAt(qs, 0) != PieceAt(pages, 0)
  {
    var q: Page := seq(PAGE, i => if pages[0][0] == 0 then 1 else 0);
    var qs := pages[0 := q];
    assert PieceAt(qs, 0)[0] != PieceAt(pages, 0)[0];
    qs
  }

  /** However the beam went: once the sender has given up its copy, the OFFER may come late, the console where the game
      lives may take it up, and a late chunk then spoils the only copy. */
  lemma LateOfferLoses(s: Addr, img: Image, w: World, mvs: seq<Move>, u: World) returns (more: seq<Move>, v: World)
    requires Init(s, img, w) && Leads(s, img, w, mvs, u) && u.phase == Over(true)
    ensures Leads(s, img, w, mvs + more, v) && Lost(s, img, w, mvs + more) && LateOffer(s, img, w, mvs + more)
  {
    hide After, Enabled, Leads, Inv, OfferFor, FirstChunkFor, Taken, Overwrites, Spoilt, Lost, LateOffer;
    var a := MovedAfter(s, img, w, mvs, u);
    var m1, u1 := ComesToRest(s, img, u, a);
    var m2, u2, mv := Reopens(s, img, u1, a);
    var v2 := After(s, img, u2, mv);
    LeadsThen(s, img, w, mvs, u, m1, u1);
    LeadsThen(s, img, w, mvs + m1, u1, m2, u2);
    OneStep(s, img, w, mvs + m1 + m2, u2, mv);
    SpoiltThen(s, img, w, false, mvs + m1 + m2, u2, mv, a);
    MovedStep(s, img, u2, mv, a);
    more, v := m1 + m2 + [mv], v2;
    assert mvs + more == mvs + m1 + m2 + [mv];
    LostExactly(s, img, w, mvs + more, v);
    if !LateOffer(s, img, w, mvs + more) {
      NeverLost(s, img, w, mvs + more, v);
    }
  }

  lemma MovedAfter(s: Addr, img: Image, w: World, mvs: seq<Move>, u: World) returns (a: Addr)
    requires Init(s, img, w) && Leads(s, img, w, mvs, u) && u.phase == Over(true)
    ensures Moved(s, img, u, a)
  {
    hide After, Enabled, Leads, Inv, OfferFor, FirstChunkFor;
    InitInv(s, img, w);
    RunInv(s, img, w, mvs, u);
    Committed(s, img, w, mvs, u);
    a :| u.committed == {a} && a in u.consoles && a != s;
    assert Heard(img, w, a);
    HeardRun(s, img, w, mvs, u, a);
  }

  lemma {:induction false} MovedRun(s: Addr, img: Image, w: World, mvs: seq<Move>, v: World, a: Addr)
    requires Moved(s, img, w, a) && Leads(s, img, w, mvs, v)
    ensures Moved(s, img, v, a)
    decreases |mvs|
  {
    hide Moved, After, Enabled;
    if mvs != [] {
      MovedStep(s, img, w, mvs[0], a);
      MovedRun(s, img, After(s, img, w, mvs[0]), mvs[1..], v, a);
    }
  }

  /** What may still come to console a. */
  lemma Late(s: Addr, img: Image, w: World, a: Addr) returns (m: Message, chunk: Message)
    requires Moved(s, img, w, a)
    ensures m in w.net && m.packet.Offer? && m.dst == BROADCAST && m.src != a
            && Sanitised(m.packet.game) in w.consoles[a].games
    ensures chunk in w.net && chunk.dst == a && 0 < |img.pages| <= MAX_PAGES && chunk.packet == ChunkPacket(img, 0)
    ensures m.packet.npages == |img.pages|
    ensures s in w.consoles && a in w.consoles && ListenerOk(s, img, w.peer, a, w.consoles[a])
  {
    hide ListenerOk, Sanitised, Streamed, ChunkPacket;
    m :| m in w.net && m.packet.Offer? && m.dst == BROADCAST && m.src != a
        && Sanitised(m.packet.game) in w.consoles[a].games;
    chunk :| chunk in w.net && chunk.dst == a && |img.pages| > 0 && chunk.packet == ChunkPacket(img, 0);
    assert MessageOk(s, img, w.consoles.Keys, w.peer, w.committed, m);
  }

  /** The console where the game lives, at rest: its player goes on, an OFFER comes late, a present takes it up, and the
      first chunk comes late. */
  lemma Reopens(s: Addr, img: Image, w: World, a: Addr) returns (mvs: seq<Move>, v: World, mv: Move)
    requires Moved(s, img, w, a) && w.consoles[a].role == Idle
    ensures Leads(s, img, w, mvs, v) && Moved(s, img, v, a) && s in v.consoles && Enabled(s, v, mv)
            && Overwrites(v, mv, a)
  {
    hide Leads, Inv, Sanitised, PieceAt, After, MessageOk, Receiving, Taken, Moved;
    var m, chunk := Late(s, img, w, a);
    var game := Game(Other(img.pages), w.consoles[a].run.regs, 0);
    mvs := TakeUp(a, m, game);
    v := At(w, a, Taken(w.consoles[a], m.src, m.packet, game)).(net := w.net + {Message(a, m.src, Accept)});
    TakesUp(s, img, w, a, m, game);
    MovedRun(s, img, w, mvs, v, a);
    mv := Deliver(a, chunk);
    LateChunk(s, img, v, a, w.consoles[a], m, game, chunk);
  }

  lemma LateChunk(s: Addr, img: Image, v: World, a: Addr, c: Console, m: Message, game: Game, chunk: Message)
    requires a in v.consoles && m.packet.Offer? && v.consoles[a] == Taken(c, m.src, m.packet, game) && s in v.consoles
    requires chunk in v.net && chunk.dst == a && 0 < |img.pages| <= MAX_PAGES && chunk.packet == ChunkPacket(img, 0)
    requires |game.mem| == |img.pages| == m.packet.npages && PieceAt(game.mem, 0) != PieceAt(img.pages, 0)
    ensures Enabled(s, v, Deliver(a, chunk)) && Overwrites(v, Deliver(a, chunk), a)
  {}

  // ---- A run that delivers the game ----

  /** The sender streams its first pass to console a, which has every chunk up to k. */
  ghost predicate Midway(s: Addr, img: Image, w: World, a: Addr, k: nat) {
    && Inv(s, img, w) && a != s && a in w.consoles && w.phase == Streaming(0, k) && w.peer == Some(a)
    && w.committed == {}
    && w.consoles[a].role == Active && w.consoles[a].rec.attempt == 0 && w.consoles[a].rec.peer == s
    && k <= 4 * |img.pages| && forall j :: 0 <= j < k ==> w.consoles[a].bits[j]
  }

  /** One chunk is sent and arrives. */
  lemma SendsOne(s: Addr, img: Image, w: World, a: Addr, k: nat) returns (mvs: seq<Move>, v: World)
    requires Midway(s, img, w, a, k) && k < 4 * |img.pages|
    ensures Leads(s, img, w, mvs, v) && Midway(s, img, v, a, k + 1)
  {
    hide Leads, MessageOk, Inv;
    Sending(s, img, w, a);
    var w1 := After(s, img, w, SendChunk);
    StepInv(s, img, w, SendChunk);
    var m := Message(s, a, ChunkPacket(img, k));
    v := After(s, img, w1, Deliver(a, m));
    StepInv(s, img, w1, Deliver(a, m));
    mvs := [SendChunk, Deliver(a, m)];
    TwoSteps(s, img, w, SendChunk, w1, Deliver(a, m), v);
  }

  lemma TwoSteps(s: Addr, img: Image, w: World, m0: Move, w1: World, m1: Move, w2: World)
    requires s in w.consoles && Enabled(s, w, m0) && w1 == After(s, img, w, m0)
    requires s in w1.consoles && Enabled(s, w1, m1) && w2 == After(s, img, w1, m1)
    ensures Leads(s, img, w, [m0, m1], w2)
  {
    hide After, Enabled;
    assert [m0, m1][1..] == [m1] && [m1][1..] == [];
    assert Leads(s, img, w2, [], w2);
    assert Leads(s, img, w1, [m1], w2);
  }

  lemma Sending(s: Addr, img: Image, w: World, a: Addr)
    requires Inv(s, img, w) && a in w.consoles && a != s
    ensures s in w.consoles && SenderOk(s, img, w) && ListenerOk(s, img, w.peer, a, w.consoles[a])
            && 0 < |img.pages| <= MAX_PAGES
  {}

  lemma {:induction false} SendsAll(s: Addr, img: Image, w: World, a: Addr, k: nat) returns (mvs: seq<Move>, v: World)
    requires Midway(s, img, w, a, k)
    ensures Leads(s, img, w, mvs, v) && Midway(s, img, v, a, 4 * |img.pages|)
    decreases 4 * |img.pages| - k
  {
    hide Inv, After, Enabled;
    if k == 4 * |img.pages| {
      mvs, v := [], w;
    } else {
      var m1, u := SendsOne(s, img, w, a, k);
      var m2, u2 := SendsAll(s, img, u, a, k + 1);
      LeadsThen(s, img, w, m1, u, m2, u2);
      mvs, v := m1 + m2, u2;
    }
  }

  /** The OFFER is heard, taken up and accepted. */
  lemma Starts(s: Addr, img: Image, w: World, a: Addr) returns (mvs: seq<Move>, v: World)
    requires Init(s, img, w) && a in w.consoles && a != s && Sanitised(img.game) in w.consoles[a].games
    ensures Leads(s, img, w, mvs, v) && Midway(s, img, v, a, 0)
  {
    hide Leads, Inv, Sanitised, Taken;
    InitInv(s, img, w);
    var m := Message(s, BROADCAST, Offer(|img.pages|, img.ticks, img.game));
    var w1 := After(s, img, w, SendOffer);
    assert w1 == w.(net := {m});
    var game := Game(img.pages, img.regs, 0);
    TakesUp(s, img, w1, a, m, game);
    var w2 := At(w1, a, Taken(w.consoles[a], s, m.packet, game)).(net := {m} + {Message(a, s, Accept)});
    OneMove(s, img, w, SendOffer);
    LeadsThen(s, img, w, [SendOffer], w1, TakeUp(a, m, game), w2);
    mvs := [SendOffer] + TakeUp(a, m, game);
    RunInv(s, img, w, mvs, w2);
    v := Begins(s, img, w, mvs, w2, a, w.consoles[a], m.packet, game);
    mvs := mvs + [Deliver(s, Message(a, s, Accept)), Begin];
  }

  lemma OneMove(s: Addr, img: Image, w: World, mv: Move)
    requires s in w.consoles && Enabled(s, w, mv)
    ensures Leads(s, img, w, [mv], After(s, img, w, mv))
  {
    hide After, Enabled;
    assert [mv][1..] == [] && Leads(s, img, After(s, img, w, mv), [], After(s, img, w, mv));
  }

  lemma Begins(s: Addr, img: Image, w: World, mvs: seq<Move>, u: World, a: Addr, c: Console, p: Packet, game: Game)
      returns (v: World)
    requires Leads(s, img, w, mvs, u) && Inv(s, img, u) && a != s && a in u.consoles && Message(a, s, Accept) in u.net
    requires p.Offer? && u.consoles[a] == Taken(c, s, p, game) && u.phase == Offering && u.committed == {}
    ensures Leads(s, img, w, mvs + [Deliver(s, Message(a, s, Accept)), Begin], v) && Midway(s, img, v, a, 0)
  {
    hide Leads, Inv, MessageOk, Sanitised;
    Sending(s, img, u, a);
    var m := Message(a, s, Accept);
    var u1 := After(s, img, u, Deliver(s, m));
    StepInv(s, img, u, Deliver(s, m));
    v := After(s, img, u1, Begin);
    StepInv(s, img, u1, Begin);
    TwoSteps(s, img, u, Deliver(s, m), u1, Begin, v);
    LeadsThen(s, img, w, mvs, u, [Deliver(s, m), Begin], v);
  }

  /** DONE arrives and the game resumes. */
  lemma Completes(s: Addr, img: Image, w: World, a: Addr) returns (mvs: seq<Move>, v: World)
    requires Midway(s, img, w, a, 4 * |img.pages|)
    ensures Leads(s, img, w, mvs, v) && Inv(s, img, v) && v.phase == Waiting(0) && v.committed == {a}
            && Message(a, s, Ack) in v.net
    ensures s in v.consoles && !v.consoles[s].snd.ack && NoOffer(mvs) && a in v.consoles
  {
    hide Leads, Inv, MessageOk, ListenerOk;
    var done := Message(s, a, Done(|img.pages|, img.regs));
    Sending(s, img, w, a);
    var w1 := After(s, img, w, SendDone);
    StepInv(s, img, w, SendDone);
    var w2 := After(s, img, w1, Deliver(a, done));
    ReadyToCommit(s, img, w, a);
    StepInv(s, img, w1, Deliver(a, done));
    v := After(s, img, w2, EndAttempt(a));
    StepInv(s, img, w2, EndAttempt(a));
    ThreeSteps(s, img, w, SendDone, w1, Deliver(a, done), w2, EndAttempt(a), v);
    mvs := [SendDone, Deliver(a, done), EndAttempt(a)];
    assert forall i :: 0 <= i < 3 ==> mvs[i] == SendDone || mvs[i] == Deliver(a, done) || mvs[i] == EndAttempt(a);
  }

  /** The ACK comes back. */
  lemma Finishes(s: Addr, img: Image, w: World, a: Addr) returns (mvs: seq<Move>, v: World)
    requires Inv(s, img, w) && w.phase == Waiting(0) && w.committed == {a} && a != s && Message(a, s, Ack) in w.net
    ensures Leads(s, img, w, mvs, v) && v.phase == Over(true) && v.committed == {a}
  {
    hide Leads, MessageOk, ListenerOk;
    var ack := Message(a, s, Ack);
    var w1 := After(s, img, w, Deliver(s, ack));
    v := After(s, img, w1, EndWait);
    TwoSteps(s, img, w, Deliver(s, ack), w1, EndWait, v);
    mvs := [Deliver(s, ack), EndWait];
  }

  /** A receiver with every chunk commits once it has DONE. */
  lemma ReadyToCommit(s: Addr, img: Image, w: World, a: Addr)
    requires Midway(s, img, w, a, 4 * |img.pages|)
    ensures var c := w.consoles[a]; c.Sound() && Commits(Input(c, s, Done(|img.pages|, img.regs)))
  {
    hide Leads, Inv, MessageOk, PieceAt;
    Sending(s, img, w, a);
    EnoughIsAll(w.consoles[a], img);
  }

  /** Any console that has the game installed may get it. */
  lemma Deliverable(s: Addr, img: Image, w: World, a: Addr) returns (mvs: seq<Move>, v: World)
    requires Init(s, img, w) && a in w.consoles && a != s && Sanitised(img.game) in w.consoles[a].games
    ensures Leads(s, img, w, mvs, v) && v.phase == Over(true) && v.committed == {a}
  {
    hide Init, Leads, Sanitised, Inv;
    var m1, u1 := Starts(s, img, w, a);
    var m2, u2 := SendsAll(s, img, u1, a, 0);
    var m3, u3 := Completes(s, img, u2, a);
    var m4, u4 := Finishes(s, img, u3, a);
    LeadsThen(s, img, w, m1, u1, m2, u2);
    LeadsThen(s, img, w, m1 + m2, u2, m3, u3);
    LeadsThen(s, img, w, m1 + m2 + m3, u3, m4, u4);
    mvs, v := m1 + m2 + m3 + m4, u4;
  }

  lemma Installed(s: Addr, img: Image, w: World, mvs: seq<Move>, v: World) returns (a: Addr)
    requires Init(s, img, w) && Leads(s, img, w, mvs, v) && v.phase == Over(true)
    ensures a in w.consoles && a != s && Sanitised(img.game) in w.consoles[a].games
  {
    hide After, Enabled, Leads, Inv, Sanitised, ListenerOk, Streamed;
    a := MovedAfter(s, img, w, mvs, v);
    SameGames(s, img, w, mvs, v, a);
    var m :| m in v.net && m.packet.Offer? && Sanitised(m.packet.game) in v.consoles[a].games;
    RunInv(s, img, w, mvs, v) by { InitInv(s, img, w); }
    assert MessageOk(s, img, v.consoles.Keys, v.peer, v.committed, m) by { MessageIn(s, img, v, m); }
  }

  lemma MessageIn(s: Addr, img: Image, w: World, m: Message)
    requires Inv(s, img, w) && m in w.net
    ensures MessageOk(s, img, w.consoles.Keys, w.peer, w.committed, m)
  {}

  lemma {:induction false} SameGames(s: Addr, img: Image, w: World, mvs: seq<Move>, v: World, a: Addr)
    requires Leads(s, img, w, mvs, v) && a in v.consoles && w.committed <= w.consoles.Keys
    ensures a in w.consoles && v.consoles[a].games == w.consoles[a].games
    decreases |mvs|
  {
    hide After, Enabled;
    if mvs != [] {
      StepConsoles(s, img, w, mvs[0]);
      SameGames(s, img, After(s, img, w, mvs[0]), mvs[1..], v, a);
      NetStays(s, img, w, mvs[0], a);
    }
  }

  /** The game can be lost exactly if some other console has it installed. */
  lemma CanBeLost(s: Addr, img: Image, w: World)
    requires Init(s, img, w)
    ensures (exists mvs, v :: Leads(s, img, w, mvs, v) && Lost(s, img, w, mvs)) <==>
            exists a :: a in w.consoles && a != s && Sanitised(img.game) in w.consoles[a].games
  {
    hide Init, Leads, Lost, Sanitised;
    if a :| a in w.consoles && a != s && Sanitised(img.game) in w.consoles[a].games {
      var m1, u := Deliverable(s, img, w, a);
      var m2, u2 := LateOfferLoses(s, img, w, m1, u);
      assert Leads(s, img, w, m1 + m2, u2);
    }
    if mvs, v :| Leads(s, img, w, mvs, v) && Lost(s, img, w, mvs) {
      LostExactly(s, img, w, mvs, v);
      var a := Installed(s, img, w, mvs, v);
    }
  }

  // ---- A run that leaves two copies ----

  predicate NoOffer(mvs: seq<Move>) {
    forall i :: 0 <= i < |mvs| ==> !(mvs[i].Deliver? && mvs[i].m.packet.Offer?)
  }

  lemma {:induction false} NoneLate(s: Addr, img: Image, w: World, mvs: seq<Move>)
    requires NoOffer(mvs)
    ensures !LateOffer(s, img, w, mvs)
    decreases |mvs|
  {
    hide After, Enabled;
    if mvs != [] && s in w.consoles && Enabled(s, w, mvs[0]) {
      NoneLate(s, img, After(s, img, w, mvs[0]), mvs[1..]);
    }
  }

  /** Before a commit no OFFER is late. */
  lemma {:induction false} NotYetLate(s: Addr, img: Image, w: World, mvs: seq<Move>, u: World, more: seq<Move>)
    requires Leads(s, img, w, mvs, u) && u.committed == {}
    ensures w.committed == {} && (LateOffer(s, img, w, mvs + more) <==> LateOffer(s, img, u, more))
    decreases |mvs|
  {
    hide After, Enabled;
    if mvs == [] {
      assert mvs + more == more;
    } else {
      assert (mvs + more)[1..] == mvs[1..] + more;
      NotYetLate(s, img, After(s, img, w, mvs[0]), mvs[1..], u, more);
      CommitsStay(s, img, w, mvs[0]);
    }
  }

  lemma CommitsStay(s: Addr, img: Image, w: World, mv: Move)
    requires s in w.consoles && Enabled(s, w, mv)
    ensures w.committed <= After(s, img, w, mv).committed
  {}

  /** The sender has not heard an ACK, and goes on. */
  ghost predicate Unheard(s: Addr, img: Image, w: World, a: Addr, phase: Phase) {
    Inv(s, img, w) && s in w.consoles && !w.consoles[s].snd.ack && w.committed == {a} && w.phase == phase
  }

  /** The rest of a pass over the pages, and the wait behind it: nothing arrives. */
  lemma {:induction false} PassUnheard(s: Addr, img: Image, w: World, a: Addr, k: nat, j: nat)
      returns (mvs: seq<Move>, v: World)
    requires Unheard(s, img, w, a, Streaming(k, j)) && j <= 4 * |img.pages| && k < ATTEMPTS
    ensures Leads(s, img, w, mvs, v) && NoOffer(mvs) && Unheard(s, img, v, a, Waiting(k))
    decreases 4 * |img.pages| - j
  {
    hide Inv, MessageOk, ListenerOk;
    SenderSound(s, img, w);
    var mv := if j < 4 * |img.pages| then SendChunk else SendDone;
    var u := After(s, img, w, mv);
    StepInv(s, img, w, mv);
    if j < 4 * |img.pages| {
      var more;
      more, v := PassUnheard(s, img, u, a, k, j + 1);
      mvs := [mv] + more;
      assert mvs[1..] == more;
    } else {
      mvs, v := [mv], u;
      OneMove(s, img, w, mv);
    }
  }

  lemma SenderSound(s: Addr, img: Image, w: World)
    requires Inv(s, img, w)
    ensures SenderOk(s, img, w) && 0 < |img.pages|
  {}

  /** All the attempts that are left. */
  lemma {:induction false} GivesUp(s: Addr, img: Image, w: World, a: Addr, k: nat) returns (mvs: seq<Move>, v: World)
    requires Unheard(s, img, w, a, Waiting(k)) && k < ATTEMPTS
    ensures Leads(s, img, w, mvs, v) && NoOffer(mvs) && Unheard(s, img, v, a, Over(false))
    decreases ATTEMPTS - k
  {
    hide Inv, MessageOk, ListenerOk, Leads;
    SenderSound(s, img, w);
    var u := After(s, img, w, EndWait);
    StepInv(s, img, w, EndWait);
    OneMove(s, img, w, EndWait);
    if k + 1 == ATTEMPTS {
      mvs, v := [EndWait], u;
    } else {
      var m1, u1 := PassUnheard(s, img, u, a, k + 1, 0);
      var m2, u2 := GivesUp(s, img, u1, a, k + 1);
      LeadsThen(s, img, w, [EndWait], u, m1, u1);
      LeadsThen(s, img, w, [EndWait] + m1, u1, m2, u2);
      mvs, v := [EndWait] + m1 + m2, u2;
    }
  }

  /** When every ACK is lost, the sender gives up with its own copy, and the game lives on both consoles. */
  lemma CanBeTwo(s: Addr, img: Image, w: World, a: Addr) returns (mvs: seq<Move>, v: World)
    requires Init(s, img, w) && a in w.consoles && a != s && Sanitised(img.game) in w.consoles[a].games
    ensures Leads(s, img, w, mvs, v) && v.phase == Over(false) && v.committed == {a}
    ensures HasCopy(s, img, w, true, mvs, s) && HasCopy(s, img, w, false, mvs, a)
  {
    hide Init, Leads, Sanitised, Inv, LateOffer, HasCopy, NoOffer;
    var m1, u1 := Starts(s, img, w, a);
    var m2, u2 := SendsAll(s, img, u1, a, 0);
    var m3, u3 := Completes(s, img, u2, a);
    var m4, u4 := GivesUp(s, img, u3, a, 0);
    LeadsThen(s, img, w, m1, u1, m2, u2);
    LeadsThen(s, img, w, m1 + m2, u2, m3, u3);
    LeadsThen(s, img, w, m1 + m2 + m3, u3, m4, u4);
    mvs, v := m1 + m2 + m3 + m4, u4;
    assert mvs == m1 + m2 + (m3 + m4);
    BothQuiet(m3, m4);
    NoneLate(s, img, u2, m3 + m4);
    NotYetLate(s, img, w, m1 + m2, u2, m3 + m4);
    NeverLost(s, img, w, mvs, v);
  }

  lemma BothQuiet(a: seq<Move>, b: seq<Move>)
    requires NoOffer(a) && NoOffer(b)
    ensures NoOffer(a + b)
  {}
}
