/** beam_send_current on values: what the sender polls, what it answers, and how often it streams. */
module BeamSender {
  import opened Beam
  import opened BeamConsole

  /** What arrives in one pass: while it streams, and while it then waits. */
  type Round = (seq<Batch>, seq<Batch>)

  // ---- The routine ----

  /** Offering: nothing is polled after the first ACCEPT. */
  function Discover(c: Console, batches: seq<Batch>): (d: Console)
    requires c.Sound()
    ensures d.Sound()
  {
    if batches == [] then c
    else
      var d := Discover(c, batches[..|batches| - 1]);
      if d.snd.accepted then d else Poll(d, batches[|batches| - 1])
  }

  /** Streaming: every 32 chunks the network is polled. */
  function PollEach(c: Console, batches: seq<Batch>): (d: Console)
    requires c.Sound()
    ensures d.Sound()
  {
    if batches == [] then c else Poll(PollEach(c, batches[..|batches| - 1]), batches[|batches| - 1])
  }

  /** Waiting: nothing is polled after an ACK or a NACK. */
  function Confirm(c: Console, batches: seq<Batch>): (d: Console)
    requires c.Sound()
    ensures d.Sound()
  {
    if batches == [] then c
    else
      var d := Confirm(c, batches[..|batches| - 1]);
      if d.snd.ack || d.snd.nack then d else Poll(d, batches[|batches| - 1])
  }

  function Pass(c: Console, round: Round): (d: Console)
    requires c.Sound()
    ensures d.Sound()
  {
    Confirm(PollEach(c.(snd := c.snd.(nack := false)), round.0), round.1)
  }

  /** The attempts, up to an ACK. */
  function Passes(c: Console, rounds: seq<Round>): (d: Console)
    requires c.Sound()
    ensures d.Sound()
  {
    if rounds == [] then c
    else
      var d := Passes(c, rounds[..|rounds| - 1]);
      if d.snd.ack then d else Pass(d, rounds[|rounds| - 1])
  }

  function StartOffer(c: Console): (d: Console)
    requires c.Sound()
    ensures d.Sound()
  {
    c.(role := Sending, snd := Sender(false, false, false, 0))
  }

  /** beam_send_current. */
  function SendCurrent(c: Console, discover: seq<Batch>, rounds: seq<Round>): (r: (Console, int))
    requires c.Sound()
    ensures r.0.Sound()
  {
    if |c.run.mem| == 0 then (c, 0)
    else
      var d := Discover(StartOffer(c), discover);
      if !d.snd.accepted then (d.(role := Idle), 0)
      else
        var e := Passes(d, rounds);
        (e.(role := Idle), if e.snd.ack then 1 else 0)
  }

  // ---- Where the loops end ----

  lemma {:induction false} DiscoverStops(c: Console, bs: seq<Batch>, j: nat)
    requires c.Sound() && j <= |bs| && (j < |bs| ==> Discover(c, bs[..j]).snd.accepted)
    ensures Discover(c, bs) == Discover(c, bs[..j])
    decreases |bs|
  {
    hide Poll;
    if j == |bs| {
      assert bs[..j] == bs;
    } else {
      var front := bs[..|bs| - 1];
      assert front[..j] == bs[..j];
      DiscoverStops(c, front, j);
    }
  }

  lemma {:induction false} ConfirmStops(c: Console, bs: seq<Batch>, j: nat)
    requires c.Sound() && j <= |bs| && (j < |bs| ==> Confirm(c, bs[..j]).snd.ack || Confirm(c, bs[..j]).snd.nack)
    ensures Confirm(c, bs) == Confirm(c, bs[..j])
    decreases |bs|
  {
    hide Poll;
    if j == |bs| {
      assert bs[..j] == bs;
    } else {
      var front := bs[..|bs| - 1];
      assert front[..j] == bs[..j];
      ConfirmStops(c, front, j);
    }
  }

  lemma {:induction false} PassesStop(c: Console, rounds: seq<Round>, j: nat)
    requires c.Sound() && j <= |rounds| && (j < |rounds| ==> Passes(c, rounds[..j]).snd.ack)
    ensures Passes(c, rounds) == Passes(c, rounds[..j])
    decreases |rounds|
  {
    hide Pass;
    if j == |rounds| {
      assert rounds[..j] == rounds;
    } else {
      var front := rounds[..|rounds| - 1];
      assert front[..j] == rounds[..j];
      PassesStop(c, front, j);
    }
  }

  // ---- In packets ----

  ghost predicate AcceptIn(batch: Batch) {
    exists i :: 0 <= i < |batch| && batch[i].1.Accept?
  }

  ghost predicate NackIn(batch: Batch) {
    exists i :: 0 <= i < |batch| && batch[i].1.Nack?
  }

  /** The last ACCEPT of the batch is to's. */
  ghost predicate LastAccept(batch: Batch, to: Addr) {
    exists i :: 0 <= i < |batch| && batch[i].1.Accept? && batch[i].0 == to
        && forall l :: i < l < |batch| ==> !batch[l].1.Accept?
  }

  /** No ACCEPT came before batch j. */
  ghost predicate Unaccepted(batches: seq<Batch>, j: nat)
    requires j <= |batches|
  {
    forall i :: 0 <= i < j ==> !AcceptIn(batches[i])
  }

  /** An ACK came while the game was offered, up to the batch with the first ACCEPT. */
  ghost predicate AckOffering(batches: seq<Batch>) {
    exists j :: 0 <= j < |batches| && Unaccepted(batches, j) && AckIn(batches[j])
  }

  ghost predicate AcceptedFrom(batches: seq<Batch>, to: Addr) {
    exists j :: 0 <= j < |batches| && Unaccepted(batches, j) && LastAccept(batches[j], to)
  }

  ghost predicate AckInAny(batches: seq<Batch>) {
    exists j :: 0 <= j < |batches| && AckIn(batches[j])
  }

  ghost predicate NackInAny(batches: seq<Batch>) {
    exists j :: 0 <= j < |batches| && NackIn(batches[j])
  }

  /** Neither an ACK nor a NACK came before batch j. */
  ghost predicate Silent(batches: seq<Batch>, j: nat)
    requires j <= |batches|
  {
    forall i :: 0 <= i < j ==> !AckIn(batches[i]) && !NackIn(batches[i])
  }

  ghost predicate AckWaiting(batches: seq<Batch>) {
    exists j :: 0 <= j < |batches| && Silent(batches, j) && AckIn(batches[j])
  }

  /** An ACK came in this pass: while it streamed, or, if no NACK came then, while it waited and before any NACK. */
  ghost predicate AckHeard(round: Round) {
    AckInAny(round.0) || (!NackInAny(round.0) && AckWaiting(round.1))
  }

  // ---- Flags ----

  lemma InputFlags(c: Console, src: Addr, p: Packet)
    requires c.Sound() && c.role == Sending
    ensures var d := Input(c, src, p);
            && (d.snd.accepted <==> c.snd.accepted || p.Accept?) && (d.snd.nack <==> c.snd.nack || p.Nack?)
            && d.run == c.run && d.role == Sending && d.snd.peer == if p.Accept? then src else c.snd.peer
  {
    hide Sanitised;
  }

  lemma BatchLast(batch: Batch)
    requires batch != []
    ensures var (front, (src, p)) := (batch[..|batch| - 1], batch[|batch| - 1]);
            && (AcceptIn(batch) <==> AcceptIn(front) || p.Accept?) && (NackIn(batch) <==> NackIn(front) || p.Nack?)
            && (p.Accept? ==> LastAccept(batch, src))
            && (!p.Accept? ==> forall to :: LastAccept(front, to) ==> LastAccept(batch, to))
  {
    var front, last := batch[..|batch| - 1], |batch| - 1;
    assert forall i :: 0 <= i < |front| ==> front[i] == batch[i];
    if !batch[last].1.Accept? {
      forall to | LastAccept(front, to) ensures LastAccept(batch, to) {
        var i :| 0 <= i < |front| && front[i].1.Accept? && front[i].0 == to
                 && forall l :: i < l < |front| ==> !front[l].1.Accept?;
        assert batch[i].1.Accept?;
      }
    }
  }

  lemma {:induction false} PollFlags(c: Console, batch: Batch)
    requires c.Sound() && c.role == Sending
    ensures var d := Poll(c, batch);
            && (d.snd.accepted <==> c.snd.accepted || AcceptIn(batch)) && (d.snd.nack <==> c.snd.nack || NackIn(batch))
            && d.run == c.run && d.role == Sending
            && (if AcceptIn(batch) then LastAccept(batch, d.snd.peer) else d.snd.peer == c.snd.peer)
  {
    if batch != [] {
      hide AcceptIn, NackIn, LastAccept, Input;
      var front, last := batch[..|batch| - 1], |batch| - 1;
      PollFlags(c, front);
      BatchLast(batch);
      InputFlags(Poll(c, front), batch[last].0, batch[last].1);
    }
  }

  lemma {:induction false} DiscoverFlags(c: Console, bs: seq<Batch>)
    requires c.Sound() && c.role == Sending && !c.snd.accepted && !c.snd.ack
    ensures var d := Discover(c, bs);
            && d.run == c.run && d.role == Sending && (d.snd.accepted <==> !Unaccepted(bs, |bs|))
            && (d.snd.ack <==> AckOffering(bs)) && (d.snd.accepted ==> AcceptedFrom(bs, d.snd.peer))
  {
    hide Poll, AcceptIn, AckIn, LastAccept;
    if bs != [] {
      var front, last := bs[..|bs| - 1], |bs| - 1;
      DiscoverFlags(c, front);
      var d := Discover(c, front);
      assert forall i :: 0 <= i < |front| ==> front[i] == bs[i];
      OfferingLast(bs);
      if !d.snd.accepted {
        PollFlags(d, bs[last]);
        PollAck(d, bs[last]);
        if AcceptIn(bs[last]) {
          assert Unaccepted(bs, last) && LastAccept(bs[last], Poll(d, bs[last]).snd.peer);
        }
      } else {
        var j :| 0 <= j < |front| && Unaccepted(front, j) && LastAccept(front[j], d.snd.peer);
        assert Unaccepted(bs, j) && LastAccept(bs[j], d.snd.peer);
      }
    }
  }

  lemma OfferingLast(bs: seq<Batch>)
    requires bs != []
    ensures var front, last := bs[..|bs| - 1], bs[|bs| - 1];
            && (Unaccepted(bs, |bs|) <==> Unaccepted(front, |front|) && !AcceptIn(last))
            && (Unaccepted(bs, |front|) <==> Unaccepted(front, |front|))
            && (AckOffering(bs) <==> AckOffering(front) || (Unaccepted(front, |front|) && AckIn(last)))
  {
    hide AcceptIn, AckIn;
    var front := bs[..|bs| - 1];
    assert forall i :: 0 <= i < |front| ==> front[i] == bs[i];
    assert forall j :: 0 <= j <= |front| ==> (Unaccepted(front, j) <==> Unaccepted(bs, j));
  }

  lemma {:induction false} PollEachFlags(c: Console, bs: seq<Batch>)
    requires c.Sound() && c.role == Sending
    ensures var d := PollEach(c, bs);
            && d.run == c.run && d.role == Sending && (d.snd.ack <==> c.snd.ack || AckInAny(bs))
            && (d.snd.nack <==> c.snd.nack || NackInAny(bs))
  {
    hide Poll, AcceptIn, AckIn, NackIn, LastAccept;
    if bs != [] {
      var front, last := bs[..|bs| - 1], |bs| - 1;
      PollEachFlags(c, front);
      var d := PollEach(c, front);
      assert forall i :: 0 <= i < |front| ==> front[i] == bs[i];
      PollFlags(d, bs[last]);
      PollAck(d, bs[last]);
    }
  }

  lemma {:induction false} ConfirmFlags(c: Console, bs: seq<Batch>)
    requires c.Sound() && c.role == Sending
    ensures var d := Confirm(c, bs);
            && d.run == c.run && d.role == Sending && (d.snd.ack <==> c.snd.ack || (!c.snd.nack && AckWaiting(bs)))
            && (!d.snd.ack && !d.snd.nack <==> !c.snd.ack && !c.snd.nack && Silent(bs, |bs|))
  {
    hide Poll, AcceptIn, AckIn, NackIn, LastAccept;
    if bs != [] {
      var front, last := bs[..|bs| - 1], |bs| - 1;
      ConfirmFlags(c, front);
      var d := Confirm(c, front);
      WaitingLast(bs);
      if !d.snd.ack && !d.snd.nack {
        PollFlags(d, bs[last]);
        PollAck(d, bs[last]);
      }
    }
  }

  lemma WaitingLast(bs: seq<Batch>)
    requires bs != []
    ensures var front, last := bs[..|bs| - 1], bs[|bs| - 1];
            && (Silent(bs, |bs|) <==> Silent(front, |front|) && !AckIn(last) && !NackIn(last))
            && (AckWaiting(bs) <==> AckWaiting(front) || (Silent(front, |front|) && AckIn(last)))
  {
    hide NackIn, AckIn;
    var front := bs[..|bs| - 1];
    assert forall i :: 0 <= i < |front| ==> front[i] == bs[i];
    assert forall j :: 0 <= j <= |front| ==> (Silent(front, j) <==> Silent(bs, j));
  }

  lemma PassFlags(c: Console, round: Round)
    requires c.Sound() && c.role == Sending && !c.snd.ack
    ensures var d := Pass(c, round); d.run == c.run && d.role == Sending && (d.snd.ack <==> AckHeard(round))
  {
    hide PollEach, Confirm, AckInAny, NackInAny, AckWaiting;
    var b := c.(snd := c.snd.(nack := false));
    PollEachFlags(b, round.0);
    ConfirmFlags(PollEach(b, round.0), round.1);
  }

  lemma {:induction false} PassesFlags(c: Console, rounds: seq<Round>)
    requires c.Sound() && c.role == Sending
    ensures var d := Passes(c, rounds);
            && d.run == c.run && d.role == Sending
            && (d.snd.ack <==> c.snd.ack || exists k :: 0 <= k < |rounds| && AckHeard(rounds[k]))
  {
    hide Pass, AckHeard;
    if rounds != [] {
      var front, last := rounds[..|rounds| - 1], |rounds| - 1;
      PassesFlags(c, front);
      assert forall i :: 0 <= i < |front| ==> front[i] == rounds[i];
      var d := Passes(c, front);
      if !d.snd.ack { PassFlags(d, rounds[last]); }
    }
  }

  /** The answer: 1 exactly if some console accepted while the game was offered, and an ACK was polled, then or in one
      of the passes. */
  lemma SendAnswers(c: Console, discover: seq<Batch>, rounds: seq<Round>)
    requires c.Sound()
    ensures var (d, r) := SendCurrent(c, discover, rounds);
            && d.run == c.run && (r == 0 || r == 1) && (|c.run.mem| > 0 ==> d.role == Idle)
            && (r == 1 <==>
                 && |c.run.mem| > 0 && !Unaccepted(discover, |discover|)
                 && (AckOffering(discover) || exists k :: 0 <= k < |rounds| && AckHeard(rounds[k])))
  {
    hide Discover, Passes, AckHeard, AckOffering, Unaccepted;
    if |c.run.mem| > 0 {
      DiscoverFlags(StartOffer(c), discover);
      PassesFlags(Discover(StartOffer(c), discover), rounds);
    }
  }
}
