/** The driver's rings in memory: TRBs are written and read in place. */
module XhciDriver {
  import opened Wrappers
  import opened XhciRing

  const EVT_RING_TRBS: nat := 128

  lemma LinkBits(link: Trb)
    requires link.d3 == (TRB_LINK << 10) | TRB_TOGGLE
    ensures Toggles(link) && !Cycle(link) && link.d3 == 0x1802
  {}

  lemma StampWord(d3: bv32, d0: bv32, d1: bv32, d2: bv32, c: bool)
    ensures Trb(d0, d1, d2, (d3 & !TRB_CYCLE) | (if c then 1 else 0)) == Stamp(Trb(d0, d1, d2, d3), c)
  {}

  class TransferRing {
    const trbs: array<Trb>
    var enq: nat
    var cycle: bool
    ghost var log: seq<Trb>           // everything pushed, oldest first

    ghost predicate Valid()
      reads this, trbs
    {
      RingInv(Value(), log)
    }

    ghost function Value(): (r: Ring)
      reads this, trbs
    {
      Ring(trbs[..], enq, cycle)
    }

    /** ring_init: ntrbs counts the link. */
    constructor (ntrbs: nat, start: bv32)
      requires ntrbs >= 2
      ensures Valid() && fresh(trbs) && log == [] && Fresh(trbs[..]) && trbs.Length == ntrbs
      ensures trbs[ntrbs - 1] == Trb(start, 0, 0, 0x1802)         // a link, TRB type 6, with the toggle bit
    {
      enq, cycle, log := 0, true, [];
      trbs := new Trb[ntrbs](i => Trb(0, 0, 0, 0));
      new;
      var link := Trb(start, 0, 0, (TRB_LINK << 10) | TRB_TOGGLE);
      trbs[ntrbs - 1] := link;
      LinkBits(link);
      assert !Cycle(Trb(0, 0, 0, 0));
      FreshRing(trbs[..], 0, false);
    }

    /** The four words of a TRB, the last one with the producer's cycle bit. */
    method Put(i: nat, t: Trb)
      requires i < trbs.Length
      modifies trbs
      ensures trbs[..] == old(trbs[..])[i := Stamp(t, cycle)]
    {
      StampWord(t.d3, t.d0, t.d1, t.d2, cycle);
      trbs[i] := Trb(t.d0, t.d1, t.d2, (t.d3 & !TRB_CYCLE) | (if cycle then 1 else 0));
    }

    /** ring_push; at is where the TRB went, for event matching. */
    method PushTrb(d0: bv32, d1: bv32, d2: bv32, d3: bv32) returns (at: nat)
      requires Valid()
      modifies this, trbs
      ensures Valid() && log == old(log) + [Trb(d0, d1, d2, d3)] && at == old(enq)
      ensures Value() == Push(old(Value()), Trb(d0, d1, d2, d3))
    {
      hide Written, Stamp, LapBit, PlaceOf, Cycle, Toggles, RingInv;
      RingSize(Value(), log);
      PushKeeps(Value(), log, Trb(d0, d1, d2, d3));
      at := enq;
      Put(enq, Trb(d0, d1, d2, d3));
      enq := enq + 1;
      if enq == trbs.Length - 1 {
        Put(enq, trbs[enq]);
        enq := 0;
        cycle := !cycle;
      }
      log := log + [Trb(d0, d1, d2, d3)];
    }
  }

  class EventRing {
    const ring: array<Trb>            // the controller writes these
    var deq: nat
    var cycle: bool

    constructor ()
      ensures Valid() && fresh(ring) && deq == 0 && cycle && forall i :: 0 <= i < EVT_RING_TRBS ==> !Cycle(ring[i])
    {
      deq, cycle := 0, true;
      ring := new Trb[EVT_RING_TRBS](i => Trb(0, 0, 0, 0));
      new;
      assert !Cycle(Trb(0, 0, 0, 0));
    }

    ghost predicate Valid()
      reads this
    {
      ring.Length == EVT_RING_TRBS && deq < EVT_RING_TRBS
    }

    /** event_poll. log is what the controller has posted, k how many of them have been got before. */
    method PollEvent(ghost log: seq<Trb>, ghost k: nat) returns (t: Option<Trb>)
      requires Valid() && Written(ring[..], EVT_RING_TRBS, log) && PollsAt(Poller(deq, cycle), EVT_RING_TRBS, k)
      requires k <= |log| <= k + EVT_RING_TRBS
      modifies this
      ensures Valid()
      ensures if k < |log| then t == Some(Stamp(log[k], old(cycle)))
              && PollsAt(Poller(deq, cycle), EVT_RING_TRBS, k + 1)
              else t == None && deq == old(deq) && cycle == old(cycle)
    {
      hide Written, Stamp, Cycle, PollsAt;
      PollSees(ring[..], log, Poller(deq, cycle), k);
      t := None;
      if Cycle(ring[deq]) != cycle {
        return;
      }
      t := Some(ring[deq]);
      deq := deq + 1;
      if deq == EVT_RING_TRBS {
        deq := 0;
        cycle := !cycle;
      }
    }
  }
}
