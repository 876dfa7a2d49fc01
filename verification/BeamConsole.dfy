/** The two blocking calls of a beam, as loops over the packets that arrive while they wait. */
module BeamConsole {
  import opened Bytes
  import opened Beam
  import Pmm

  /** Packets with their senders, handled in one net_poll. */
  type Batch = seq<(Addr, Packet)>

  function Poll(c: Console, batch: Batch): (d: Console)
    requires c.Sound()
    ensures d.Sound()
            && (c.role == Active ==> d.role == Active && d.rec.attempt == c.rec.attempt && d.rec.peer == c.rec.peer)
    ensures c.role == Sending ==> d.role == Sending
  {
    if batch == [] then c
    else
      var (src, p) := batch[|batch| - 1];
      Input(Poll(c, batch[..|batch| - 1]), src, p)
  }

  ghost predicate AckIn(batch: Batch) {
    exists i :: 0 <= i < |batch| && batch[i].1.Ack?
  }

  lemma {:induction false} PollAck(c: Console, batch: Batch)
    requires c.Sound() && c.role == Sending
    ensures Poll(c, batch).snd.ack <==> c.snd.ack || AckIn(batch)
    ensures Poll(c, batch).run == c.run
  {
    if batch != [] {
      var front := batch[..|batch| - 1];
      PollAck(c, front);
      assert forall i :: 0 <= i < |front| ==> front[i] == batch[i];
    }
  }

  /** Waiting for DONE: the batches after it are not polled any more. */
  function Listen(c: Console, batches: seq<Batch>): (d: Console)
    requires c.Sound()
    ensures d.Sound()
            && (c.role == Active ==> d.role == Active && d.rec.attempt == c.rec.attempt && d.rec.peer == c.rec.peer)
  {
    if batches == [] then c
    else
      var d := Listen(c, batches[..|batches| - 1]);
      if d.rec.gotDone then d else Poll(d, batches[|batches| - 1])
  }

  lemma {:induction false} ListenStops(c: Console, batches: seq<Batch>, j: nat)
    requires c.Sound() && j <= |batches| && Listen(c, batches[..j]).rec.gotDone
    ensures Listen(c, batches) == Listen(c, batches[..j])
    decreases |batches|
  {
    if j < |batches| {
      var front := batches[..|batches| - 1];
      assert front[..j] == batches[..j];
      ListenStops(c, front, j);
    } else {
      assert batches[..j] == batches;
    }
  }

  /** The attempts of beam_on_present; rounds[k] is what arrives during attempt k before its deadline. */
  function Serve(c: Console, rounds: seq<seq<Batch>>): (r: (Console, seq<Sent>))
    requires c.Sound() && (c.role == Active ==> c.rec.attempt + |rounds| <= ATTEMPTS)
    ensures r.0.Sound()
    decreases |rounds|
  {
    if c.role != Active || rounds == [] then (c, [])
    else
      var s := Close(Listen(c, rounds[0]));
      var t := Serve(s.0, rounds[1..]);
      (t.0, [s.1] + t.1)
  }

  /** beam_on_present: it listens only if it has just accepted. */
  function Present(c: Console, rounds: seq<seq<Batch>>): (r: (Console, seq<Sent>))
    requires c.Sound() && |rounds| == ATTEMPTS
    ensures r.0.Sound()
  {
    var (d, out) := Open(c);
    if out == To(c.rec.peer, Accept) then Serve(d, rounds) else (d, [])
  }

  // ---- Transfers ----

  /** Nothing but this sender's stream, and packets of other kinds. */
  ghost predicate Genuine(p: Packet, img: Image) {
    (p.Chunk? || p.Done? ==> Streamed(p, img)) && !p.ShortDone?
  }

  ghost predicate GenuineBatch(batch: Batch, img: Image) {
    forall i :: 0 <= i < |batch| ==> Genuine(batch[i].1, img)
  }

  ghost predicate GenuineRound(batches: seq<Batch>, img: Image) {
    forall i :: 0 <= i < |batches| ==> GenuineBatch(batches[i], img)
  }

  /** A chunk not marked as received is still the receiver's own. */
  ghost predicate Untouched(c: Console, own: seq<Page>) {
    |c.run.mem| == |own|
        && forall k :: 0 <= k < 4 * |own| && k < BITS && !c.bits[k] ==> PieceAt(c.run.mem, k) == PieceAt(own, k)
  }

  lemma UntouchedKept(c: Console, img: Image, own: seq<Page>, src: Addr, p: Packet)
    requires c.Sound() && c.role == Active && Untouched(c, own) && Genuine(p, img)
    ensures Untouched(Input(c, src, p), own)
  {
    if p.Chunk? && c.rec.have && p.page < |c.run.mem| {
      var o := p.off / PIECE;
      assert p.off == o * PIECE && o < 4;
      forall k | 0 <= k < 4 * |own| && k < BITS && !Input(c, src, p).bits[k]
        ensures PieceAt(Input(c, src, p).run.mem, k) == PieceAt(own, k)
      {
        PiecePut(c.run.mem, p.page, o, p.data, k);
      }
    }
  }

  lemma {:induction false} PollReceives(c: Console, img: Image, own: seq<Page>, batch: Batch)
    requires c.Sound() && Receiving(c, img) && Untouched(c, own) && GenuineBatch(batch, img)
    ensures Receiving(Poll(c, batch), img) && Untouched(Poll(c, batch), own)
  {
    hide Receiving, Untouched, Input, Streamed;
    if batch != [] {
      var front, last := batch[..|batch| - 1], batch[|batch| - 1];
      PollReceives(c, img, own, front);
      var d := Poll(c, front);
      ActiveThen(d, img);
      UntouchedKept(d, img, own, last.0, last.1);
      if Streamed(last.1, img) {
        ReceivingKept(d, img, last.0, last.1);
      } else {
        OtherPackets(d, last.0, last.1);
      }
    }
  }

  lemma ActiveThen(c: Console, img: Image)
    requires Receiving(c, img)
    ensures c.role == Active && c.rec.attempt < ATTEMPTS
  {}

  lemma {:induction false} ListenReceives(c: Console, img: Image, own: seq<Page>, batches: seq<Batch>)
    requires c.Sound() && Receiving(c, img) && Untouched(c, own) && GenuineRound(batches, img)
    ensures Receiving(Listen(c, batches), img) && Untouched(Listen(c, batches), own)
  {
    hide Receiving, Untouched, GenuineBatch, Poll;
    if batches != [] {
      var front := batches[..|batches| - 1];
      ListenReceives(c, img, own, front);
      var d := Listen(c, front);
      if !d.rec.gotDone {
        PollReceives(d, img, own, batches[|batches| - 1]);
      }
    }
  }

  /** How a whole reception ends: with the frozen game, registers and clock and an ACK, or without any of the
      sender's registers. */
  ghost predicate Outcome(c: Console, d: Console, sent: seq<Sent>, img: Image, own: seq<Page>) {
    && d.role == Idle && !d.rec.have
    && if To(c.rec.peer, Ack) in sent
       then d.run.mem == img.pages && d.run.regs.resume == img.regs.resume && d.run.regs.rest == c.run.regs.rest
           && d.run.ticks == img.ticks
       else d.run.regs == c.run.regs && d.run.ticks == c.run.ticks && Untouched(d, own) && Holds(d, img.pages)
  }

  /** beam_on_present's attempts under any loss, repetition and reordering of the stream. */
  lemma {:induction false} ServeTransfers(c: Console, img: Image, own: seq<Page>, rounds: seq<seq<Batch>>)
    requires c.Sound() && Receiving(c, img) && Untouched(c, own) && c.rec.attempt + |rounds| == ATTEMPTS
    requires forall i :: 0 <= i < |rounds| ==> GenuineRound(rounds[i], img)
    ensures var r := Serve(c, rounds); Outcome(c, r.0, r.1, img, own)
    decreases |rounds|
  {
    hide GenuineRound, Listen;
    assert |rounds| > 0;
    ListenReceives(c, img, own, rounds[0]);
    var d := Listen(c, rounds[0]);
    ListenKeepsGame(c, rounds[0]);
    if Commits(d) {
      ResumesFrozen(d, img);
      assert Serve(c, rounds).1 == [To(c.rec.peer, Ack)];
    } else if d.rec.attempt < 3 {
      var e := Close(d).0;
      ServeTransfers(e, img, own, rounds[1..]);
      AckAhead(c.rec.peer, Close(d).1, Serve(e, rounds[1..]).1);
    } else {
      assert Serve(c, rounds).1 == [Nothing];
    }
  }

  lemma AckAhead(peer: Addr, first: Sent, rest: seq<Sent>)
    requires first != To(peer, Ack)
    ensures To(peer, Ack) in [first] + rest <==> To(peer, Ack) in rest
  {
    assert forall x :: x in [first] + rest <==> x == first || x in rest;
  }

  lemma {:induction false} PollKeepsGame(c: Console, batch: Batch)
    requires c.Sound() && c.role == Active
    ensures Poll(c, batch).run.regs == c.run.regs && Poll(c, batch).run.ticks == c.run.ticks
  {
    if batch != [] { PollKeepsGame(c, batch[..|batch| - 1]); }
  }

  lemma {:induction false} ListenKeepsGame(c: Console, batches: seq<Batch>)
    requires c.Sound() && c.role == Active
    ensures Listen(c, batches).run.regs == c.run.regs && Listen(c, batches).run.ticks == c.run.ticks
  {
    if batches != [] {
      var front := batches[..|batches| - 1];
      ListenKeepsGame(c, front);
      PollKeepsGame(Listen(c, front), batches[|batches| - 1]);
    }
  }

  /** The memory is the receiver's own exactly if each chunk marked as received was its own already. */
  lemma OwnMemory(d: Console, img: Image, own: seq<Page>)
    requires Untouched(d, own) && Holds(d, img.pages) && |own| <= MAX_PAGES
    ensures d.run.mem == own <==>
              forall k :: 0 <= k < BITS && d.bits[k] ==>
                  k < 4 * |own| && k < 4 * |img.pages| && PieceAt(own, k) == PieceAt(img.pages, k)
  {
    if forall k :: 0 <= k < BITS && d.bits[k] ==>
        k < 4 * |own| && k < 4 * |img.pages| && PieceAt(own, k) == PieceAt(img.pages, k) {
      forall k | 0 <= k < 4 * |own| ensures PieceAt(d.run.mem, k) == PieceAt(own, k) {
        assert d.bits[k] || !d.bits[k];
      }
      SamePieces(d.run.mem, own);
    }
  }

  // ---- What it takes ----

  /** Chunk k is among the packets. */
  ghost predicate Brings(batch: Batch, k: nat) {
    exists i :: 0 <= i < |batch| && batch[i].1.Chunk? && batch[i].1.page * 4 + batch[i].1.off / PIECE == k
  }

  ghost predicate BringsDone(batch: Batch) {
    exists i :: 0 <= i < |batch| && batch[i].1.Done?
  }

  lemma InputMarks(c: Console, img: Image, src: Addr, p: Packet, k: nat)
    requires c.Sound() && Receiving(c, img) && Genuine(p, img) && k < BITS
    ensures Input(c, src, p).bits[k] <==> c.bits[k] || (p.Chunk? && p.page * 4 + p.off / PIECE == k)
    ensures Input(c, src, p).rec.gotDone <==> c.rec.gotDone || p.Done?
  {
    hide Holds;
  }

  lemma {:induction false} PollMarks(c: Console, img: Image, own: seq<Page>, batch: Batch, k: nat)
    requires c.Sound() && Receiving(c, img) && Untouched(c, own) && GenuineBatch(batch, img) && k < BITS
    ensures Poll(c, batch).bits[k] <==> c.bits[k] || Brings(batch, k)
    ensures Poll(c, batch).rec.gotDone <==> c.rec.gotDone || BringsDone(batch)
  {
    hide Input, Receiving, Untouched, Brings, BringsDone, Streamed;
    BringsNone(k);
    if batch != [] {
      var front, last := batch[..|batch| - 1], batch[|batch| - 1];
      PollMarks(c, img, own, front, k);
      PollReceives(c, img, own, front);
      InputMarks(Poll(c, front), img, last.0, last.1, k);
      BringsLast(batch, k);
    }
  }

  lemma BringsNone(k: nat)
    ensures !Brings([], k) && !BringsDone([])
  {}

  lemma BringsLast(batch: Batch, k: nat)
    requires batch != []
    ensures var front, last := batch[..|batch| - 1], batch[|batch| - 1];
            && (Brings(batch, k) <==> Brings(front, k) || (last.1.Chunk? && last.1.page * 4 + last.1.off / PIECE == k))
            && (BringsDone(batch) <==> BringsDone(front) || last.1.Done?)
  {
    var front := batch[..|batch| - 1];
    assert forall i :: 0 <= i < |front| ==> front[i] == batch[i];
  }

  /** A receiver is ready to resume exactly when DONE and every chunk have arrived, in whatever order. */
  lemma CommitsExactly(c: Console, img: Image, own: seq<Page>, batch: Batch)
    requires c.Sound() && Receiving(c, img) && Untouched(c, own) && GenuineBatch(batch, img)
    ensures Commits(Poll(c, batch)) <==>
              (c.rec.gotDone || BringsDone(batch))
                  && forall k :: 0 <= k < 4 * |img.pages| ==> c.bits[k] || Brings(batch, k)
  {
    hide Untouched, Poll, Brings, BringsDone, GenuineBatch, Holds;
    PollReceives(c, img, own, batch);
    var d := Poll(c, batch);
    EnoughIsAll(d, img);
    forall k | 0 <= k < 4 * |img.pages| ensures d.bits[k] <==> c.bits[k] || Brings(batch, k) {
      PollMarks(c, img, own, batch, k);
    }
    PollMarks(c, img, own, batch, 0);
  }

  /** The whole stream, in any order and with any repetition, is what it takes. */
  lemma StreamCompletes(c: Console, img: Image, own: seq<Page>, batch: Batch)
    requires c.Sound() && Receiving(c, img) && Untouched(c, own)
    requires forall i :: 0 <= i < |batch| ==> batch[i].1 in Stream(img)
    requires forall k :: 0 <= k < |Stream(img)| ==> Arrives(batch, Stream(img)[k])
    ensures GenuineBatch(batch, img) && Commits(Poll(c, batch))
  {
    hide Receiving, Untouched, Poll, Brings, Streamed, PieceAt, Commits;
    forall i | 0 <= i < |batch| ensures Genuine(batch[i].1, img) {
      var k :| 0 <= k < |Stream(img)| && batch[i].1 == Stream(img)[k];
      StreamedIsStreamed(img, k);
    }
    forall k | 0 <= k < 4 * |img.pages| ensures Brings(batch, k) {
      assert Stream(img)[k] == ChunkPacket(img, k) && Arrives(batch, Stream(img)[k]);
      ChunkBrings(batch, img, k);
    }
    assert Arrives(batch, Stream(img)[|Stream(img)| - 1]);
    CommitsExactly(c, img, own, batch);
  }

  ghost predicate Arrives(batch: Batch, p: Packet) {
    exists i :: 0 <= i < |batch| && batch[i].1 == p
  }

  lemma ChunkBrings(batch: Batch, img: Image, k: nat)
    requires k < 4 * |img.pages| && Arrives(batch, ChunkPacket(img, k))
    ensures Brings(batch, k)
  {}

  // ---- What a failed transfer leaves ----

  /** A chunk that brings something else than the receiver's own game holds at its place. */
  ghost predicate Alien(p: Packet, own: seq<Page>) {
    p.Chunk? && p.page < |own| && p.off + PIECE <= PAGE && own[p.page][p.off..p.off + PIECE] != p.data
  }

  ghost predicate BringsAlien(batch: Batch, own: seq<Page>) {
    exists i :: 0 <= i < |batch| && Alien(batch[i].1, own)
  }

  /** Batch j is still polled: no batch before it brought DONE. */
  ghost predicate Polled(batches: seq<Batch>, j: nat)
    requires j <= |batches|
  {
    forall i :: 0 <= i < j ==> !BringsDone(batches[i])
  }

  ghost predicate HearsAlien(batches: seq<Batch>, own: seq<Page>) {
    exists j :: 0 <= j < |batches| && Polled(batches, j) && BringsAlien(batches[j], own)
  }

  /** Once a chunk differs from the receiver's own, none of the sender's chunks can put it right. */
  lemma InputOwn(c: Console, img: Image, own: seq<Page>, src: Addr, p: Packet)
    requires c.Sound() && Receiving(c, img) && Untouched(c, own) && Genuine(p, img)
    ensures Input(c, src, p).run.mem == own <==> c.run.mem == own && !Alien(p, own)
  {
    hide PieceAt;
    var d := Input(c, src, p);
    if p.Chunk? {
      SpliceSame(c.run.mem, p.page, p.off, p.data);
      if c.run.mem != own && d.run.mem == own {
        UntouchedKept(c, img, own, src, p);
        ReceivingKept(c, img, src, p);
        OwnMemory(d, img, own);
        OwnMemory(c, img, own);
      }
    }
  }

  lemma {:induction false} PollOwn(c: Console, img: Image, own: seq<Page>, batch: Batch)
    requires c.Sound() && Receiving(c, img) && Untouched(c, own) && GenuineBatch(batch, img)
    ensures Poll(c, batch).run.mem == own <==> c.run.mem == own && !BringsAlien(batch, own)
  {
    hide Receiving, Untouched, Genuine, Alien, Input;
    if batch != [] {
      var front, last := batch[..|batch| - 1], batch[|batch| - 1];
      PollReceives(c, img, own, front);
      PollOwn(c, img, own, front);
      InputOwn(Poll(c, front), img, own, last.0, last.1);
      assert BringsAlien(batch, own) <==> BringsAlien(front, own) || Alien(last.1, own) by {
        assert forall i :: 0 <= i < |front| ==> front[i] == batch[i];
      }
    }
  }

  lemma {:induction false} ListenOwn(c: Console, img: Image, own: seq<Page>, batches: seq<Batch>)
    requires c.Sound() && Receiving(c, img) && Untouched(c, own) && GenuineRound(batches, img) && !c.rec.gotDone
    ensures Listen(c, batches).rec.gotDone <==> !Polled(batches, |batches|)
    ensures Listen(c, batches).run.mem == own <==> c.run.mem == own && !HearsAlien(batches, own)
  {
    hide Receiving, Untouched, GenuineBatch, BringsDone, BringsAlien, Poll;
    if batches != [] {
      var front, last := batches[..|batches| - 1], batches[|batches| - 1];
      ListenReceives(c, img, own, front);
      ListenOwn(c, img, own, front);
      var d := Listen(c, front);
      HearsLast(batches, own);
      if !d.rec.gotDone {
        PollOwn(d, img, own, last);
        PollMarks(d, img, own, last, 0);
      }
    }
  }

  lemma HearsLast(batches: seq<Batch>, own: seq<Page>)
    requires batches != []
    ensures var front, last := batches[..|batches| - 1], batches[|batches| - 1];
            && (Polled(batches, |batches|) <==> Polled(front, |front|) && !BringsDone(last))
            && (HearsAlien(batches, own) <==>
                 HearsAlien(front, own) || (Polled(front, |front|) && BringsAlien(last, own)))
  {
    hide BringsDone, BringsAlien;
    var front := batches[..|batches| - 1];
    assert forall i :: 0 <= i < |front| ==> front[i] == batches[i];
    assert forall j :: 0 <= j <= |front| ==> (Polled(front, j) <==> Polled(batches, j));
  }

  /** A reception that fails leaves the game at its own fresh start exactly if no chunk polled before the DONE of its
      attempt brought anything else than was there. */
  lemma {:induction false} FailureIsFresh(c: Console, img: Image, own: seq<Page>, rounds: seq<seq<Batch>>)
    requires c.Sound() && Receiving(c, img) && Untouched(c, own) && !c.rec.gotDone
             && c.rec.attempt + |rounds| == ATTEMPTS
    requires forall i :: 0 <= i < |rounds| ==> GenuineRound(rounds[i], img)
    requires To(c.rec.peer, Ack) !in Serve(c, rounds).1
    ensures Serve(c, rounds).0.run.mem == own <==>
              c.run.mem == own && forall i :: 0 <= i < |rounds| ==> !HearsAlien(rounds[i], own)
    decreases |rounds|
  {
    hide GenuineRound, Listen, HearsAlien, Untouched, Holds;
    ListenReceives(c, img, own, rounds[0]);
    ListenOwn(c, img, own, rounds[0]);
    var d := Listen(c, rounds[0]);
    if Commits(d) {
      assert false;
    } else if d.rec.attempt < 3 {
      var e := Close(d).0;
      AckAhead(c.rec.peer, Close(d).1, Serve(e, rounds[1..]).1);
      assert Untouched(e, own) && Holds(e, img.pages) by { SameMemory(d, e, img, own); }
      FailureIsFresh(e, img, own, rounds[1..]);
    }
  }

  lemma SameMemory(d: Console, e: Console, img: Image, own: seq<Page>)
    requires Untouched(d, own) && Holds(d, img.pages) && e.run == d.run && e.bits == d.bits
    ensures Untouched(e, own) && Holds(e, img.pages)
  {}

  /** No DONE, no ACK. */
  lemma {:induction false} NoDoneNoAck(c: Console, img: Image, own: seq<Page>, rounds: seq<seq<Batch>>)
    requires c.Sound() && Receiving(c, img) && Untouched(c, own) && !c.rec.gotDone
             && c.rec.attempt + |rounds| == ATTEMPTS
    requires forall i :: 0 <= i < |rounds| ==> GenuineRound(rounds[i], img) && Polled(rounds[i], |rounds[i]|)
    ensures To(c.rec.peer, Ack) !in Serve(c, rounds).1
    decreases |rounds|
  {
    hide GenuineRound, Listen, HearsAlien, Untouched, Holds, Polled;
    ListenReceives(c, img, own, rounds[0]);
    ListenOwn(c, img, own, rounds[0]);
    var d := Listen(c, rounds[0]);
    assert !d.rec.gotDone;
    if d.rec.attempt < 3 {
      var e := Close(d).0;
      AckAhead(c.rec.peer, Close(d).1, Serve(e, rounds[1..]).1);
      assert Untouched(e, own) && Holds(e, img.pages) by { SameMemory(d, e, img, own); }
      NoDoneNoAck(e, img, own, rounds[1..]);
    } else {
      assert Serve(c, rounds).1 == [Nothing];
    }
  }

  /** Wherever the receiver's own game differs from the sender's, one chunk and no DONE change it: no ACK is sent, and
      the memory is not its own. */
  lemma FailureChanges(c: Console, img: Image, own: seq<Page>, src: Addr) returns (rounds: seq<seq<Batch>>)
    requires c.Sound() && Receiving(c, img) && Untouched(c, own) && c.run.mem == own && !c.rec.gotDone
             && c.rec.attempt == 0
    requires own != img.pages
    ensures |rounds| == ATTEMPTS && forall i :: 0 <= i < |rounds| ==> GenuineRound(rounds[i], img)
    ensures To(c.rec.peer, Ack) !in Serve(c, rounds).1 && Serve(c, rounds).0.run.mem != own
  {
    hide Receiving, Untouched, Serve;
    assert |own| == |img.pages| by { OwnSize(c, img); }
    SomePiece(own, img.pages);
    var k: nat :| k < 4 * |own| && PieceAt(own, k) != PieceAt(img.pages, k);
    var batch: Batch := [(src, ChunkPacket(img, k))];
    rounds := [[batch], [], [], []];
    assert Genuine(batch[0].1, img) && !BringsDone(batch) && BringsAlien(batch, own) by {
      assert Alien(batch[0].1, own);
    }
    assert Polled(rounds[0], 1) && Polled([], 0);
    NoDoneNoAck(c, img, own, rounds);
    assert HearsAlien(rounds[0], own) by { assert Polled(rounds[0], 0) && BringsAlien(rounds[0][0], own); }
    FailureIsFresh(c, img, own, rounds);
  }

  lemma OwnSize(c: Console, img: Image)
    requires Receiving(c, img)
    ensures |c.run.mem| == |img.pages|
  {}

  lemma SomePiece(a: seq<Page>, b: seq<Page>)
    requires |a| == |b| && a != b
    ensures exists k: nat :: k < 4 * |a| && PieceAt(a, k) != PieceAt(b, k)
  {
    if forall k :: 0 <= k < 4 * |a| ==> PieceAt(a, k) == PieceAt(b, k) {
      SamePieces(a, b);
    }
  }
}
