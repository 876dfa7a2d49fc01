/** When a reception succeeds. */
module BeamReception {
  import opened Beam
  import opened BeamConsole

  /** Chunk k is polled during the attempt: no batch before it brought DONE. */
  ghost predicate HearsChunk(batches: seq<Batch>, k: nat) {
    exists j :: 0 <= j < |batches| && Polled(batches, j) && Brings(batches[j], k)
  }

  ghost predicate HearsDone(batches: seq<Batch>) {
    !Polled(batches, |batches|)
  }

  /** Chunk k is polled in one of the first n attempts. */
  ghost predicate HeardBy(rounds: seq<seq<Batch>>, n: nat, k: nat)
    requires n <= |rounds|
  {
    exists q :: 0 <= q < n && HearsChunk(rounds[q], k)
  }

  /** Attempt r hears DONE, and has every chunk by then. */
  ghost predicate Completes(bits: Bits, rounds: seq<seq<Batch>>, r: nat, need: nat)
    requires r < |rounds|
  {
    HearsDone(rounds[r]) && forall k :: 0 <= k < need && k < BITS ==> bits[k] || HeardBy(rounds, r + 1, k)
  }

  lemma {:induction false} ListenMarks(c: Console, img: Image, own: seq<Page>, batches: seq<Batch>, k: nat)
    requires c.Sound() && Receiving(c, img) && Untouched(c, own) && GenuineRound(batches, img) && !c.rec.gotDone
             && k < BITS
    ensures Listen(c, batches).bits[k] <==> c.bits[k] || HearsChunk(batches, k)
  {
    hide Receiving, Untouched, GenuineBatch, BringsDone, Brings, Poll, HearsAlien;
    if batches != [] {
      var front, last := batches[..|batches| - 1], batches[|batches| - 1];
      ListenReceives(c, img, own, front);
      ListenMarks(c, img, own, front, k);
      ListenOwn(c, img, own, front);
      ChunkLast(batches, k);
      var d := Listen(c, front);
      if !d.rec.gotDone {
        PollMarks(d, img, own, last, k);
      }
    }
  }

  lemma ChunkLast(batches: seq<Batch>, k: nat)
    requires batches != []
    ensures var front, last := batches[..|batches| - 1], batches[|batches| - 1];
            HearsChunk(batches, k) <==> HearsChunk(front, k) || (Polled(front, |front|) && Brings(last, k))
  {
    hide BringsDone, Brings;
    var front := batches[..|batches| - 1];
    assert forall i :: 0 <= i < |front| ==> front[i] == batches[i];
    assert forall j :: 0 <= j <= |front| ==> (Polled(front, j) <==> Polled(batches, j));
  }

  /** One attempt. */
  lemma AttemptCommits(c: Console, img: Image, own: seq<Page>, batches: seq<Batch>)
    requires c.Sound() && Receiving(c, img) && Untouched(c, own) && GenuineRound(batches, img) && !c.rec.gotDone
    ensures var d := Listen(c, batches);
            && Receiving(d, img) && Untouched(d, own) && d.rec.attempt == c.rec.attempt && d.rec.peer == c.rec.peer
            && (forall k :: 0 <= k < BITS ==> (d.bits[k] <==> c.bits[k] || HearsChunk(batches, k)))
            && (Commits(d) <==>
                 HearsDone(batches) && forall k :: 0 <= k < 4 * |img.pages| ==> c.bits[k] || HearsChunk(batches, k))
  {
    hide Untouched, Listen, HearsChunk, GenuineRound, Holds;
    ListenReceives(c, img, own, batches);
    ListenOwn(c, img, own, batches);
    var d := Listen(c, batches);
    EnoughIsAll(d, img);
    forall k | 0 <= k < BITS ensures d.bits[k] <==> c.bits[k] || HearsChunk(batches, k) {
      ListenMarks(c, img, own, batches, k);
    }
  }

  lemma HeardLater(bits: Bits, more: Bits, rounds: seq<seq<Batch>>, r: nat, need: nat)
    requires r + 1 < |rounds| && forall k :: 0 <= k < BITS ==> (more[k] <==> bits[k] || HearsChunk(rounds[0], k))
    ensures Completes(more, rounds[1..], r, need) <==> Completes(bits, rounds, r + 1, need)
  {
    hide HearsChunk, HearsDone;
    forall k | 0 <= k < need && k < BITS
      ensures more[k] || HeardBy(rounds[1..], r + 1, k) <==> bits[k] || HeardBy(rounds, r + 2, k)
    {
      if q :| 0 <= q < r + 1 && HearsChunk(rounds[1..][q], k) {
        assert HearsChunk(rounds[q + 1], k);
      }
      if q :| 0 <= q < r + 2 && HearsChunk(rounds[q], k) {
        assert q == 0 || HearsChunk(rounds[1..][q - 1], k);
      }
    }
  }

  lemma HeardFirst(bits: Bits, rounds: seq<seq<Batch>>, need: nat)
    requires rounds != [] && need <= BITS
    ensures Completes(bits, rounds, 0, need) <==>
              HearsDone(rounds[0]) && forall k :: 0 <= k < need ==> bits[k] || HearsChunk(rounds[0], k)
  {
    hide HearsChunk, HearsDone;
    assert forall k :: HeardBy(rounds, 1, k) <==> HearsChunk(rounds[0], k);
  }

  /** A reception sends ACK, and the game moves, exactly if one of its attempts hears DONE and has every chunk by then,
      from whatever attempt. */
  lemma {:induction false} ServeCommits(c: Console, img: Image, own: seq<Page>, rounds: seq<seq<Batch>>)
    requires c.Sound() && Receiving(c, img) && Untouched(c, own) && !c.rec.gotDone
             && c.rec.attempt + |rounds| == ATTEMPTS
    requires forall i :: 0 <= i < |rounds| ==> GenuineRound(rounds[i], img)
    ensures To(c.rec.peer, Ack) in Serve(c, rounds).1 <==>
              exists r :: 0 <= r < |rounds| && Completes(c.bits, rounds, r, 4 * |img.pages|)
    decreases |rounds|
  {
    hide GenuineRound, Listen, HearsDone, HearsChunk, Completes, Untouched, Holds;
    AttemptCommits(c, img, own, rounds[0]);
    HeardFirst(c.bits, rounds, 4 * |img.pages|);
    var d := Listen(c, rounds[0]);
    if Commits(d) {
      assert Serve(c, rounds).1 == [To(c.rec.peer, Ack)];
    } else if d.rec.attempt < 3 {
      var e := Close(d).0;
      AckAhead(c.rec.peer, Close(d).1, Serve(e, rounds[1..]).1);
      assert Untouched(e, own) && Holds(e, img.pages) by { SameMemory(d, e, img, own); }
      ServeCommits(e, img, own, rounds[1..]);
      forall r: nat | r + 1 < |rounds|
        ensures Completes(e.bits, rounds[1..], r, 4 * |img.pages|) <==>
                  Completes(c.bits, rounds, r + 1, 4 * |img.pages|)
      {
        HeardLater(c.bits, e.bits, rounds, r, 4 * |img.pages|);
      }
      if r :| 0 <= r < |rounds| && Completes(c.bits, rounds, r, 4 * |img.pages|) {
        assert r > 0 && Completes(e.bits, rounds[1..], r - 1, 4 * |img.pages|);
      }
    } else {
      assert Serve(c, rounds).1 == [Nothing];
    }
  }

  /** What a reception says: NACK after every attempt but its last, then ACK, or nothing. */
  lemma {:induction false} ServeSays(c: Console, rounds: seq<seq<Batch>>)
    requires c.Sound() && c.role == Active && rounds != [] && c.rec.attempt + |rounds| == ATTEMPTS
    ensures var (d, sent) := Serve(c, rounds);
            && 0 < |sent| <= |rounds| && (forall i :: 0 <= i < |sent| - 1 ==> sent[i] == To(c.rec.peer, Nack))
            && (sent[|sent| - 1] == To(c.rec.peer, Ack) || (sent[|sent| - 1] == Nothing && |sent| == |rounds|))
            && d.role == Idle
    decreases |rounds|
  {
    hide Listen;
    var d := Listen(c, rounds[0]);
    if !Commits(d) && d.rec.attempt < 3 {
      ServeSays(Close(d).0, rounds[1..]);
    }
  }
}
