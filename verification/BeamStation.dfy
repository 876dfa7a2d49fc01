/** A console's beam code with its static variables: packets handled in place, the waits as loops. */
module BeamStation {
  import opened Bytes
  import opened Beam
  import opened BeamConsole
  import opened BeamSender
  import Pmm

  const BITMAP_BYTES: nat := BITS / 8

  class Station {
    const games: set<string>
    var role: Role
    var task: Task
    var run: Game
    var snd: Sender
    var rec: Receiver
    const rBits: array<bv8>
    var unique: nat

    constructor (games: set<string>, task: Task, run: Game)
      requires |run.mem| <= MAX_PAGES
      ensures Valid() && fresh(rBits) && role == Idle && !rec.have && this.run == run
    {
      this.games, this.task, this.run, role, unique := games, task, run, Idle, 0;
      snd, rec := Sender(false, false, false, 0), Receiver("", 0, 0, 0, false, 0, 0, false, run.regs);
      rBits := new bv8[BITMAP_BYTES](i => 0);
    }

    ghost predicate Valid()
      reads this
    {
      rBits.Length == BITMAP_BYTES && |run.mem| <= MAX_PAGES && (rec.have ==> rec.np == |run.mem|)
    }

    ghost function BitSeq(): (bs: Bits)
      reads rBits
      requires rBits.Length == BITMAP_BYTES
    {
      seq(BITS, i requires 0 <= i < BITS reads rBits requires rBits.Length == BITMAP_BYTES =>
            Pmm.Bit(rBits[i / 8], i % 8))
    }

    ghost function State(): (c: Console)
      reads this, rBits
      requires Valid()
      ensures c.Sound()
    {
      Console(role, games, task, run, snd, rec, BitSeq(), unique)
    }

    /** r_bits[bit >> 3] |= 1 << (bit & 7). */
    method SetBit(bit: nat)
      requires rBits.Length == BITMAP_BYTES && bit < BITS
      modifies rBits
      ensures BitSeq() == old(BitSeq())[bit := true]
    {
      hide Pmm.Bit, Pmm.WithBit;
      rBits[bit / 8] := Pmm.WithBit(rBits[bit / 8], bit % 8);
      forall p | 0 <= p < BITS ensures BitSeq()[p] == (p == bit || old(BitSeq())[p]) {
        assert p == bit <==> p / 8 == bit / 8 && p % 8 == bit % 8;
      }
    }

    method TestBit(bit: nat) returns (b: bool)
      requires rBits.Length == BITMAP_BYTES && bit < BITS
      ensures b == BitSeq()[bit]
    {
      b := rBits[bit / 8] & Pmm.Mask(bit % 8) != 0;
    }

    /** memset(r_bits, 0, sizeof(r_bits)). */
    method ClearBits()
      requires rBits.Length == BITMAP_BYTES
      modifies rBits
      ensures BitSeq() == seq(BITS, i => false)
    {
      var i := 0;
      while i < BITMAP_BYTES
        invariant i <= BITMAP_BYTES && forall j :: 0 <= j < i ==> rBits[j] == 0
      {
        rBits[i] := 0;
        i := i + 1;
      }
      forall p | 0 <= p < BITS ensures !BitSeq()[p] {
        assert rBits[p / 8] == 0 && (0 as bv8) & Pmm.Mask(p % 8) == 0;
      }
    }

    /** beam_input's BM_PAGE case. */
    method InputChunk(page: nat, off: nat, data: Piece)
      requires Valid()
      modifies this`run, this`unique, rBits
      ensures Valid() && State() == Input(old(State()), 0, Chunk(page, off, data))
    {
      hide BitSeq, Splice;
      if role == Active && rec.have && page < |run.mem| && off + PIECE <= PAGE {
        run := run.(mem := run.mem[page := Splice(run.mem[page], off, data)]);
        var bit := page * 4 + off / PIECE;
        var b := TestBit(bit);
        if !b {
          SetBit(bit);
          unique := unique + 1;
        }
      }
    }

    /** beam_input. */
    method Take(src: Addr, p: Packet)
      requires Valid()
      modifies this, rBits
      ensures Valid() && State() == Input(old(State()), src, p)
    {
      hide BitSeq, Sanitised, Splice;
      match p
      case Offer(npages, vticks, game) =>
        if role == Idle {
          var nm := Sanitised(game);
          if nm in games {
            rec := rec.(name := nm, peer := src, np := npages, vt := vticks, have := false, owner := 0);
            role := Want;
          }
        }
      case Accept => if role == Sending { snd := snd.(peer := src, accepted := true); }
      case Chunk(page, off, data) => InputChunk(page, off, data);
      case Done(np, regs) => if role == Active { rec := rec.(regs := regs, gotDone := true); }
      case ShortDone(np) => if role == Active { rec := rec.(gotDone := true); }
      case Ack => if role == Sending { snd := snd.(ack := true); }
      case Nack => if role == Sending { snd := snd.(nack := true); }
    }

    /** net_poll: every packet that has arrived. */
    method PollAll(batch: Batch)
      requires Valid()
      modifies this, rBits
      ensures Valid() && State() == Poll(old(State()), batch)
    {
      hide Input, Console.Sound;
      ghost var c := State();
      var i := 0;
      while i < |batch|
        invariant i <= |batch| && Valid() && State() == Poll(c, batch[..i])
      {
        assert batch[..i + 1][..i] == batch[..i];
        Take(batch[i].0, batch[i].1);
        i := i + 1;
      }
      assert batch[..i] == batch;
    }

    /** beam_on_present up to its first wait. */
    method Begin() returns (out: Sent)
      requires Valid()
      modifies this, rBits
      ensures Valid() && State() == Open(old(State())).0 && out == Open(old(State())).1
    {
      hide BitSeq;
      out := Nothing;
      if role != Want || task.name != rec.name || task.id == rec.owner {
        return;
      }
      rec := rec.(owner := task.id);
      if |run.mem| != rec.np {
        out, role := To(rec.peer, Nack), Idle;
        return;
      }
      rec := rec.(have := true, attempt := 0, gotDone := false);
      role, unique := Active, 0;
      ClearBits();
      out := To(rec.peer, Accept);
    }

    /** The end of an attempt. */
    method End() returns (out: Sent)
      requires Valid() && role == Active && rec.attempt < ATTEMPTS
      modifies this
      ensures Valid() && State() == Close(old(State())).0 && out == Close(old(State())).1
    {
      hide BitSeq;
      if rec.gotDone && unique >= rec.np * 4 {
        run := run.(regs := run.regs.(resume := rec.regs.resume), ticks := rec.vt);
        out, rec, role := To(rec.peer, Ack), rec.(have := false), Idle;
      } else if rec.attempt < 3 {
        out, rec := To(rec.peer, Nack), rec.(attempt := rec.attempt + 1, gotDone := false);
      } else {
        out, rec, role := Nothing, rec.(have := false), Idle;
      }
    }

    /** One attempt's wait for DONE. */
    method Await(batches: seq<Batch>)
      requires Valid()
      modifies this, rBits
      ensures Valid() && State() == Listen(old(State()), batches)
    {
      hide Poll, Console.Sound, BitSeq;
      ghost var c := State();
      var j := 0;
      while j < |batches| && !rec.gotDone
        invariant j <= |batches| && Valid() && State() == Listen(c, batches[..j])
      {
        assert batches[..j + 1][..j] == batches[..j];
        PollAll(batches[j]);
        j := j + 1;
      }
      if rec.gotDone {
        ListenStops(c, batches, j);
      } else {
        assert batches[..j] == batches;
      }
    }

    /** beam_on_present. rounds[k] is what arrives during attempt k. A game that resumes is, in every byte of its
        writable pages, in the registers taken over and in its clock, the one that the sender froze, whatever the
        network did to the stream. */
    method OnPresent(rounds: seq<seq<Batch>>, ghost img: Image) returns (first: Sent, sent: seq<Sent>)
      requires Valid() && |rounds| == ATTEMPTS
      modifies this, rBits
      ensures Valid() && first == Open(old(State())).1 && (State(), sent) == Present(old(State()), rounds)
      ensures old(role) == Want && old(rec.np) == |img.pages| && old(rec.vt) == img.ticks
              && first == To(old(rec.peer), Accept)
              && (forall i :: 0 <= i < ATTEMPTS ==> GenuineRound(rounds[i], img)) ==>
                Outcome(old(State()), State(), sent, img, old(run.mem))
    {
      hide BitSeq, Open, Serve, Console.Sound, GenuineRound, Outcome;
      ghost var c := State();
      first := Begin();
      sent := [];
      OpenAccepts(c);
      if first == To(rec.peer, Accept) {
        sent := Attempts(rounds);
      }
      Transfers(c, img, rounds);
    }

    /** beam_on_present's attempt loop. */
    method Attempts(rounds: seq<seq<Batch>>) returns (sent: seq<Sent>)
      requires Valid() && role == Active && rec.attempt == 0 && |rounds| == ATTEMPTS
      modifies this, rBits
      ensures Valid() && (State(), sent) == Serve(old(State()), rounds)
    {
      hide BitSeq, Listen, Console.Sound;
      ghost var d := State();
      sent := [];
      assert rounds[0..] == rounds;
      var k := 0;
      while k < ATTEMPTS && role == Active
        invariant k <= ATTEMPTS && Valid() && (role == Active ==> rec.attempt == k)
        invariant Serve(d, rounds).0 == Serve(State(), rounds[k..]).0
        invariant Serve(d, rounds).1 == sent + Serve(State(), rounds[k..]).1
      {
        assert rounds[k..][1..] == rounds[k + 1..];
        Await(rounds[k]);
        var out := End();
        sent := sent + [out];
        k := k + 1;
      }
      assert Serve(State(), rounds[k..]) == (State(), []) && sent + [] == sent;
    }

    lemma OpenAccepts(c: Console)
      requires c.Sound()
      ensures Open(c).0.rec.peer == c.rec.peer
      ensures Open(c).1 == To(c.rec.peer, Accept) ==> Open(c).0.role == Active && Open(c).0.rec.attempt == 0
    {}

    lemma Transfers(c: Console, img: Image, rounds: seq<seq<Batch>>)
      requires c.Sound() && |rounds| == ATTEMPTS
      ensures c.role == Want && c.rec.np == |img.pages| && c.rec.vt == img.ticks && Open(c).1 == To(c.rec.peer, Accept)
              && (forall i :: 0 <= i < ATTEMPTS ==> GenuineRound(rounds[i], img)) ==>
                var r := Present(c, rounds); Outcome(c, r.0, r.1, img, c.run.mem)
    {
      hide GenuineRound, Serve, Receiving;
      if c.role == Want && c.rec.np == |img.pages| && c.rec.vt == img.ticks && Open(c).1 == To(c.rec.peer, Accept)
         && forall i :: 0 <= i < ATTEMPTS ==> GenuineRound(rounds[i], img)
      {
        var d := Open(c).0;
        OpenReceives(c, img);
        ServeTransfers(d, img, c.run.mem, rounds);
      }
    }

    // ---- Sender ----

    /** stream_pages: every chunk in order, then DONE; every 32 chunks the network is polled. */
    method StreamPages(polls: seq<Batch>, ghost img: Image) returns (out: seq<Packet>)
      requires Valid() && role == Sending && |polls| == 4 * |run.mem| / 32
      requires img.pages == run.mem && img.regs == run.regs
      modifies this, rBits
      ensures Valid() && role == Sending && run == old(run) && out == Stream(img)
      ensures State() == PollEach(old(State()), polls)
    {
      hide BitSeq, Poll, Stream, PieceAt, Console.Sound;
      ghost var c := State();
      out := [];
      var i := 0;
      assert polls[..0] == [];
      while i < |run.mem|
        invariant i <= |run.mem| && |out| == 4 * i
        invariant Valid() && role == Sending && run == old(run)
        invariant forall k :: 0 <= k < |out| ==> out[k] == ChunkPacket(img, k)
        invariant State() == PollEach(c, polls[..|out| / 32])
      {
        out := StreamPage(c, polls, img, i, out);
        i := i + 1;
      }
      assert polls[..|out| / 32] == polls;
      out := out + [Done(|run.mem|, run.regs)];
      StreamIs(img, out);
    }

    /** One page of it. */
    method StreamPage(ghost c: Console, polls: seq<Batch>, ghost img: Image, i: nat, before: seq<Packet>)
      returns (out: seq<Packet>)
      requires Valid() && role == Sending && |polls| == 4 * |run.mem| / 32 && img.pages == run.mem && i < |run.mem|
      requires c.Sound() && |before| == 4 * i && forall k :: 0 <= k < |before| ==> before[k] == ChunkPacket(img, k)
      requires State() == PollEach(c, polls[..|before| / 32])
      modifies this, rBits
      ensures Valid() && role == Sending && run == old(run) && |out| == 4 * (i + 1)
      ensures forall k :: 0 <= k < |out| ==> out[k] == ChunkPacket(img, k)
      ensures State() == PollEach(c, polls[..|out| / 32])
    {
      hide BitSeq, Poll, PollEach, PieceAt, Console.Sound;
      out := before;
      var off := 0;
      while off < PAGE
        invariant off <= PAGE && off % PIECE == 0 && |out| == 4 * i + off / PIECE
        invariant Valid() && role == Sending && run == old(run)
        invariant forall k :: 0 <= k < |out| ==> out[k] == ChunkPacket(img, k)
        invariant State() == PollEach(c, polls[..|out| / 32])
        decreases PAGE - off
      {
        ChunkAt(img, i, off);
        out := out + [Chunk(i, off, run.mem[i][off..off + PIECE])];
        if |out| % 32 == 0 {
          SenderPoll(c, polls, |out| / 32 - 1);
        }
        off := off + PIECE;
      }
    }

    /** A net_poll while it streams. */
    method SenderPoll(ghost c: Console, polls: seq<Batch>, j: nat)
      requires Valid() && role == Sending && c.Sound() && j < |polls| && State() == PollEach(c, polls[..j])
      modifies this, rBits
      ensures Valid() && role == Sending && run == old(run) && State() == PollEach(c, polls[..j + 1])
    {
      hide BitSeq, Poll, Console.Sound, AcceptIn, NackIn, LastAccept;
      assert polls[..j + 1][..j] == polls[..j];
      PollFlags(State(), polls[j]);
      PollAll(polls[j]);
    }

    /** beam_send_current. discover is what arrives while it offers the game; rounds[k] what arrives while it streams
        for the k-th time, and while it then waits. The game stays as it was. The answer is 1 exactly if an ACCEPT came
        while it offered, and an ACK was polled then or in one of the passes; every pass goes to the console that sent
        the last ACCEPT polled. */
    method SendCurrent(discover: seq<Batch>, rounds: seq<Round>, ghost img: Image)
      returns (r: int, passes: seq<(Addr, seq<Packet>)>)
      requires Valid() && |rounds| == ATTEMPTS && forall k :: 0 <= k < ATTEMPTS ==> |rounds[k].0| == 4 * |run.mem| / 32
      requires img.pages == run.mem && img.regs == run.regs
      modifies this, rBits
      ensures Valid() && run == old(run) && (r == 0 || r == 1) && (|run.mem| > 0 ==> role == Idle)
      ensures (State(), r) == BeamSender.SendCurrent(old(State()), discover, rounds)
      ensures r == 1 <==>
                && |run.mem| > 0 && !Unaccepted(discover, |discover|)
                && (AckOffering(discover) || exists k :: 0 <= k < |rounds| && AckHeard(rounds[k]))
      ensures passes != [] <==> |run.mem| > 0 && !Unaccepted(discover, |discover|) && !AckOffering(discover)
      ensures |passes| <= ATTEMPTS && forall k :: 0 <= k < |passes| ==> passes[k] == (passes[0].0, Stream(img))
      ensures passes != [] ==> AcceptedFrom(discover, passes[0].0)
      ensures forall k :: 0 <= k < |passes| - 1 ==> !AckHeard(rounds[k])
      ensures passes != [] && |passes| < ATTEMPTS ==> AckHeard(rounds[|passes| - 1])
    {
      hide BitSeq, Console.Sound, Poll, Stream, AckHeard, AckOffering, Unaccepted, AcceptedFrom, Pass;
      ghost var c := State();
      SendAnswers(c, discover, rounds);
      passes := [];
      if |run.mem| == 0 {
        return 0, passes;
      }
      role, snd := Sending, Sender(false, false, false, 0);
      ghost var b := StartOffer(c);
      assert State() == b;
      DiscoverAll(b, discover);
      if !snd.accepted {
        role := Idle;
        return 0, passes;
      }
      ghost var d := State();
      passes := AllPasses(rounds, img);
      role, r := Idle, if snd.ack then 1 else 0;
    }

    /** The attempts. */
    method AllPasses(rounds: seq<Round>, ghost img: Image) returns (passes: seq<(Addr, seq<Packet>)>)
      requires Valid() && role == Sending && |rounds| == ATTEMPTS
      requires forall k :: 0 <= k < ATTEMPTS ==> |rounds[k].0| == 4 * |run.mem| / 32
      requires img.pages == run.mem && img.regs == run.regs
      modifies this, rBits
      ensures Valid() && role == Sending && run == old(run) && State() == Passes(old(State()), rounds)
      ensures |passes| <= ATTEMPTS && (passes != [] <==> !old(snd.ack))
      ensures forall k :: 0 <= k < |passes| ==> passes[k] == (old(snd.peer), Stream(img))
      ensures forall k :: 0 <= k < |passes| - 1 ==> !AckHeard(rounds[k])
      ensures passes != [] && |passes| < ATTEMPTS ==> AckHeard(rounds[|passes| - 1])
    {
      hide BitSeq, Console.Sound, Poll, Stream, AckHeard, Pass;
      ghost var d := State();
      passes := [];
      var to, k := snd.peer, 0;
      assert rounds[..0] == [];
      while k < ATTEMPTS && !snd.ack
        invariant k <= ATTEMPTS && |passes| == k && Valid() && role == Sending && run == old(run)
        invariant State() == Passes(d, rounds[..k])
        invariant forall i :: 0 <= i < |passes| ==> passes[i] == (to, Stream(img))
        invariant forall i :: 0 <= i < k - 1 ==> !AckHeard(rounds[i])
        invariant snd.ack <==> if k == 0 then d.snd.ack else AckHeard(rounds[k - 1])
        invariant k > 0 ==> !d.snd.ack
      {
        var pass := OnePass(d, rounds, k, img);
        passes := passes + [(to, pass)];
        k := k + 1;
      }
      PassesStop(d, rounds, k);
    }

    /** The offering loop. */
    method DiscoverAll(ghost b: Console, discover: seq<Batch>)
      requires Valid() && role == Sending && State() == b && !snd.accepted && !snd.ack
      modifies this, rBits
      ensures Valid() && role == Sending && run == old(run) && State() == Discover(b, discover)
      ensures (snd.accepted <==> !Unaccepted(discover, |discover|)) && (snd.ack <==> AckOffering(discover))
      ensures snd.accepted ==> AcceptedFrom(discover, snd.peer)
    {
      hide BitSeq, Console.Sound, Poll, AckOffering, Unaccepted, AcceptedFrom;
      var j := 0;
      assert discover[..0] == [];
      while j < |discover| && !snd.accepted
        invariant j <= |discover| && Valid() && State() == Discover(b, discover[..j])
      {
        assert discover[..j + 1][..j] == discover[..j];
        PollAll(discover[j]);
        j := j + 1;
      }
      DiscoverStops(b, discover, j);
      DiscoverFlags(b, discover);
    }

    /** One attempt. */
    method OnePass(ghost d: Console, rounds: seq<Round>, k: nat, ghost img: Image) returns (pass: seq<Packet>)
      requires Valid() && role == Sending && d.Sound() && k < |rounds| && State() == Passes(d, rounds[..k]) && !snd.ack
      requires |rounds[k].0| == 4 * |run.mem| / 32 && img.pages == run.mem && img.regs == run.regs
      modifies this, rBits
      ensures Valid() && role == Sending && run == old(run) && State() == Passes(d, rounds[..k + 1])
              && pass == Stream(img)
      ensures snd.ack <==> AckHeard(rounds[k])
    {
      hide BitSeq, Console.Sound, Poll, Stream, AckHeard, PollEach, Confirm;
      ghost var c := State();
      assert rounds[..k + 1][..k] == rounds[..k];
      snd := snd.(nack := false);
      assert State() == c.(snd := c.snd.(nack := false));
      pass := StreamPages(rounds[k].0, img);
      ConfirmAll(rounds[k].1);
      PassFlags(c, rounds[k]);
    }

    /** The wait for ACK or NACK. */
    method ConfirmAll(batches: seq<Batch>)
      requires Valid() && role == Sending
      modifies this, rBits
      ensures Valid() && State() == Confirm(old(State()), batches)
    {
      hide BitSeq, Console.Sound, Poll;
      ghost var c := State();
      var i := 0;
      assert batches[..0] == [];
      while i < |batches| && !snd.ack && !snd.nack
        invariant i <= |batches| && Valid() && State() == Confirm(c, batches[..i])
      {
        assert batches[..i + 1][..i] == batches[..i];
        PollAll(batches[i]);
        i := i + 1;
      }
      ConfirmStops(c, batches, i);
    }

    lemma ChunkAt(img: Image, i: nat, off: nat)
      requires i < |img.pages| && off < PAGE && off % PIECE == 0
      ensures ChunkPacket(img, 4 * i + off / PIECE) == Chunk(i, off, img.pages[i][off..off + PIECE])
    {
      var k := 4 * i + off / PIECE;
      assert k / 4 == i && k % 4 == off / PIECE;
    }

    lemma StreamIs(img: Image, out: seq<Packet>)
      requires |out| == 4 * |img.pages| + 1 && out[4 * |img.pages|] == Done(|img.pages|, img.regs)
      requires forall k :: 0 <= k < 4 * |img.pages| ==> out[k] == ChunkPacket(img, k)
      ensures out == Stream(img)
    {}
  }
}
