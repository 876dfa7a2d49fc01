/** beam_send_current as a run of the protocol: its polls are deliveries, and its answer is how the run ends. */
module BeamRuns {
  import opened Wrappers
  import opened Beam
  import opened BeamConsole
  import opened BeamSender
  import opened BeamNet
  import BeamLoss

  /** Every packet of the batch is in the network, on its way to console s. */
  ghost predicate InNet(net: set<Message>, s: Addr, batch: Batch) {
    forall i :: 0 <= i < |batch| ==> Message(batch[i].0, s, batch[i].1) in net
  }

  ghost predicate AllInNet(net: set<Message>, s: Addr, bs: seq<Batch>) {
    forall j :: 0 <= j < |bs| ==> InNet(net, s, bs[j])
  }

  /** v is w, but for the console s and more messages in the network. */
  ghost predicate SenderAt(s: Addr, w: World, v: World, c: Console, phase: Phase) {
    && s in w.consoles && w.net <= v.net
    && v == w.(consoles := w.consoles[s := c], net := v.net, phase := phase, peer := v.peer)
  }

  lemma {:induction false} PollRun(s: Addr, img: Image, w: World, batch: Batch) returns (mvs: seq<Move>, v: World)
    requires s in w.consoles && w.consoles[s].Sound() && InNet(w.net, s, batch)
    ensures Leads(s, img, w, mvs, v) && v == At(w, s, Poll(w.consoles[s], batch))
    decreases |batch|
  {
    if batch == [] {
      mvs, v := [], w;
      assert At(w, s, w.consoles[s]) == w;
    } else {
      hide Input, Console.Sound, Leads;
      var front, last := batch[..|batch| - 1], batch[|batch| - 1];
      var m1, u := PollRun(s, img, w, front);
      var mv := Deliver(s, Message(last.0, s, last.1));
      BeamLoss.OneStep(s, img, w, m1, u, mv);
      mvs, v := m1 + [mv], After(s, img, u, mv);
    }
  }

  lemma {:induction false} DiscoverRun(s: Addr, img: Image, w: World, bs: seq<Batch>) returns (mvs: seq<Move>, v: World)
    requires s in w.consoles && w.consoles[s].Sound() && AllInNet(w.net, s, bs)
    ensures Leads(s, img, w, mvs, v) && v == At(w, s, Discover(w.consoles[s], bs))
    decreases |bs|
  {
    if bs == [] {
      mvs, v := [], w;
      assert At(w, s, w.consoles[s]) == w;
    } else {
      hide Poll, Console.Sound, Leads, InNet;
      mvs, v := DiscoverRun(s, img, w, bs[..|bs| - 1]);
      if !v.consoles[s].snd.accepted {
        var m2, u := PollRun(s, img, v, bs[|bs| - 1]);
        BeamLoss.LeadsThen(s, img, w, mvs, v, m2, u);
        mvs, v := mvs + m2, u;
      }
    }
  }

  lemma {:induction false} PollEachRun(s: Addr, img: Image, w: World, bs: seq<Batch>) returns (mvs: seq<Move>, v: World)
    requires s in w.consoles && w.consoles[s].Sound() && AllInNet(w.net, s, bs)
    ensures Leads(s, img, w, mvs, v) && v == At(w, s, PollEach(w.consoles[s], bs))
    decreases |bs|
  {
    if bs == [] {
      mvs, v := [], w;
      assert At(w, s, w.consoles[s]) == w;
    } else {
      hide Poll, Console.Sound, Leads, InNet;
      mvs, v := PollEachRun(s, img, w, bs[..|bs| - 1]);
      var m2, u := PollRun(s, img, v, bs[|bs| - 1]);
      BeamLoss.LeadsThen(s, img, w, mvs, v, m2, u);
      mvs, v := mvs + m2, u;
    }
  }

  lemma {:induction false} ConfirmRun(s: Addr, img: Image, w: World, bs: seq<Batch>) returns (mvs: seq<Move>, v: World)
    requires s in w.consoles && w.consoles[s].Sound() && AllInNet(w.net, s, bs)
    ensures Leads(s, img, w, mvs, v) && v == At(w, s, Confirm(w.consoles[s], bs))
    decreases |bs|
  {
    if bs == [] {
      mvs, v := [], w;
      assert At(w, s, w.consoles[s]) == w;
    } else {
      hide Poll, Console.Sound, Leads, InNet;
      mvs, v := ConfirmRun(s, img, w, bs[..|bs| - 1]);
      if !v.consoles[s].snd.ack && !v.consoles[s].snd.nack {
        var m2, u := PollRun(s, img, v, bs[|bs| - 1]);
        BeamLoss.LeadsThen(s, img, w, mvs, v, m2, u);
        mvs, v := mvs + m2, u;
      }
    }
  }

  /** The chunks that are left, and DONE. */
  lemma {:induction false} ChunksRun(s: Addr, img: Image, w: World, k: nat, j: nat) returns (mvs: seq<Move>, v: World)
    requires s in w.consoles && w.phase == Streaming(k, j) && w.peer.Some? && j <= 4 * |w.consoles[s].run.mem|
    ensures Leads(s, img, w, mvs, v) && SenderAt(s, w, v, w.consoles[s], Waiting(k)) && v.peer == w.peer
    decreases 4 * |w.consoles[s].run.mem| - j
  {
    hide PieceAt, Leads;
    var mv := if j < 4 * |w.consoles[s].run.mem| then SendChunk else SendDone;
    var u := After(s, img, w, mv);
    BeamLoss.OneMove(s, img, w, mv);
    if mv == SendChunk {
      var m2, u2 := ChunksRun(s, img, u, k, j + 1);
      BeamLoss.LeadsThen(s, img, w, [mv], u, m2, u2);
      mvs, v := [mv] + m2, u2;
    } else {
      mvs, v := [mv], u;
    }
  }

  /** A pass, up to the end of its wait. */
  lemma PassRun(s: Addr, img: Image, w: World, k: nat, round: Round) returns (mvs: seq<Move>, v: World)
    requires s in w.consoles && w.consoles[s].Sound() && w.phase == Streaming(k, 0) && w.peer.Some?
    requires w.consoles[s].role == Sending && !w.consoles[s].snd.nack
    requires AllInNet(w.net, s, round.0) && AllInNet(w.net, s, round.1)
    ensures Leads(s, img, w, mvs, v) && SenderAt(s, w, v, Pass(w.consoles[s], round), Waiting(k)) && v.peer == w.peer
  {
    hide PollEach, Confirm, Console.Sound, Leads, InNet;
    var c := w.consoles[s];
    assert c.(snd := c.snd.(nack := false)) == c;
    PollEachFlags(c, round.0);
    var m1, u1 := PollEachRun(s, img, w, round.0);
    var m2, u2 := ChunksRun(s, img, u1, k, 0);
    StillInNet(w.net, u2.net, s, round.1);
    var m3, u3 := ConfirmRun(s, img, u2, round.1);
    BeamLoss.LeadsThen(s, img, w, m1, u1, m2, u2);
    BeamLoss.LeadsThen(s, img, w, m1 + m2, u2, m3, u3);
    mvs, v := m1 + m2 + m3, u3;
  }

  lemma StillInNet(net: set<Message>, more: set<Message>, s: Addr, bs: seq<Batch>)
    requires AllInNet(net, s, bs) && net <= more
    ensures AllInNet(more, s, bs)
  {
    forall j | 0 <= j < |bs| ensures InNet(more, s, bs[j]) {
      assert InNet(net, s, bs[j]);
    }
  }

  ghost predicate RoundsInNet(net: set<Message>, s: Addr, rounds: seq<Round>) {
    forall k :: 0 <= k < |rounds| ==> AllInNet(net, s, rounds[k].0) && AllInNet(net, s, rounds[k].1)
  }

  lemma RoundsStay(net: set<Message>, more: set<Message>, s: Addr, rounds: seq<Round>)
    requires RoundsInNet(net, s, rounds) && net <= more
    ensures RoundsInNet(more, s, rounds)
  {
    hide AllInNet;
    forall k | 0 <= k < |rounds| ensures AllInNet(more, s, rounds[k].0) && AllInNet(more, s, rounds[k].1) {
      StillInNet(net, more, s, rounds[k].0);
      StillInNet(net, more, s, rounds[k].1);
    }
  }

  /** The attempts that are left, from the end of the wait of attempt k on. */
  lemma {:induction false} AttemptsRun(s: Addr, img: Image, w: World, d: Console, rounds: seq<Round>, k: nat)
    returns (mvs: seq<Move>, v: World)
    requires d.Sound() && d.role == Sending && |rounds| == ATTEMPTS && k < ATTEMPTS && RoundsInNet(w.net, s, rounds)
    requires s in w.consoles && w.phase == Waiting(k) && w.peer.Some? && w.consoles[s] == Passes(d, rounds[..k + 1])
    ensures var e := Passes(d, rounds);
            Leads(s, img, w, mvs, v) && SenderAt(s, w, v, e.(role := Idle), Over(e.snd.ack)) && v.peer == w.peer
    decreases ATTEMPTS - k
  {
    hide Pass, Leads, AllInNet, AckHeard;
    var c := w.consoles[s];
    var u := After(s, img, w, EndWait);
    BeamLoss.OneMove(s, img, w, EndWait);
    if c.snd.ack || k + 1 == ATTEMPTS {
      PassesStop(d, rounds, k + 1);
      mvs, v := [EndWait], u;
    } else {
      var b := c.(snd := c.snd.(nack := false));
      assert Pass(b, rounds[k + 1]) == Pass(c, rounds[k + 1]) by { SamePass(c, rounds[k + 1]); }
      PassesFlags(d, rounds[..k + 1]);
      assert rounds[..k + 2][..k + 1] == rounds[..k + 1];
      var m2, u2 := PassRun(s, img, u, k + 1, rounds[k + 1]);
      RoundsStay(w.net, u2.net, s, rounds);
      var m3, u3 := AttemptsRun(s, img, u2, d, rounds, k + 1);
      BeamLoss.LeadsThen(s, img, w, [EndWait], u, m2, u2);
      BeamLoss.LeadsThen(s, img, w, [EndWait] + m2, u2, m3, u3);
      mvs, v := [EndWait] + m2 + m3, u3;
    }
  }

  lemma SamePass(c: Console, round: Round)
    requires c.Sound()
    ensures Pass(c.(snd := c.snd.(nack := false)), round) == Pass(c, round)
  {
    hide PollEach, Confirm;
  }

  lemma NoPasses(d: Console)
    requires d.Sound()
    ensures Passes(d, []) == d
  {}

  lemma FirstPass(d: Console, rounds: seq<Round>)
    requires d.Sound() && rounds != [] && !d.snd.ack
    ensures Passes(d, rounds[..1]) == Pass(d, rounds[0])
  {
    hide Pass;
    assert rounds[..1][..0] == [];
  }

  /** Whatever the sender polls, if it was in the network: what beam_send_current does is a run of the protocol, the
      console it leaves is the sender at its end, and it answers 1 exactly if that run ends in success. */
  lemma SendIsRun(s: Addr, img: Image, w: World, c: Console, discover: seq<Batch>, rounds: seq<Round>)
    returns (mvs: seq<Move>, v: World)
    requires s in w.consoles && c.Sound() && |c.run.mem| > 0 && w.consoles[s] == StartOffer(c) && w.phase == Offering
    requires |rounds| == ATTEMPTS && AllInNet(w.net, s, discover) && RoundsInNet(w.net, s, rounds)
    ensures var (d, r) := BeamSender.SendCurrent(c, discover, rounds);
            Leads(s, img, w, mvs, v) && SenderAt(s, w, v, d, Over(r == 1))
  {
    hide Discover, Passes, Leads, AllInNet, Unaccepted, AckOffering, AcceptedFrom, Pass;
    DiscoverFlags(StartOffer(c), discover);
    var m1, u1 := DiscoverRun(s, img, w, discover);
    var d := u1.consoles[s];
    var mv := if d.snd.accepted then Begin else GiveUp;
    var u := After(s, img, u1, mv);
    BeamLoss.OneStep(s, img, w, m1, u1, mv);
    mvs, v := m1 + [mv], u;
    if d.snd.accepted {
      assert rounds[..0] == [] && Passes(d, []) == d by { NoPasses(d); }
      if d.snd.ack {
        PassesStop(d, rounds, 0);
      } else {
        var b := d.(snd := d.snd.(nack := false));
        var m2, u2 := PassRun(s, img, u, 0, rounds[0]);
        SamePass(d, rounds[0]);
        FirstPass(d, rounds);
        RoundsStay(w.net, u2.net, s, rounds);
        var m3, u3 := AttemptsRun(s, img, u2, d, rounds, 0);
        BeamLoss.LeadsThen(s, img, w, mvs, u, m2, u2);
        BeamLoss.LeadsThen(s, img, w, mvs + m2, u2, m3, u3);
        mvs, v := mvs + m2 + m3, u3;
      }
    }
  }
}
