/** Who holds the game while a beam runs: when it is safe, and how a late OFFER loses it. */
module BeamHolders {
  import opened Wrappers
  import opened Bytes
  import opened Beam
  import opened BeamNet

  // ---- Copies of the game ----

  /** The game resumes on console a. */
  ghost predicate Resumes(w: World, mv: Move, a: Addr) {
    mv == EndAttempt(a) && a in w.consoles && Commits(w.consoles[a])
  }

  /** A console comes to hold the game when it commits, holds it while only its player changes it, and the sender gives
      its copy up when it ends in success. */
  ghost predicate Keeps(s: Addr, img: Image, w: World, held: bool, mv: Move, a: Addr)
    requires s in w.consoles && Enabled(s, w, mv)
  {
    var v := After(s, img, w, mv);
    && a in w.consoles && a in v.consoles
    && if Resumes(w, mv, a) then true
       else
         && held && ((mv.Play? && mv.at == a) || v.consoles[a].run == w.consoles[a].run)
         && !(a == s && v.phase == Over(true))
  }

  /** Console a holds a copy at the end of a run; held says whether it did at its start. */
  ghost predicate HasCopy(s: Addr, img: Image, w: World, held: bool, mvs: seq<Move>, a: Addr)
    decreases |mvs|
  {
    if mvs == [] then held
    else
      && s in w.consoles && Enabled(s, w, mvs[0])
      && HasCopy(s, img, After(s, img, w, mvs[0]), Keeps(s, img, w, held, mvs[0], a), mvs[1..], a)
  }

  /** No console holds the game any more. */
  ghost predicate Lost(s: Addr, img: Image, w: World, mvs: seq<Move>) {
    forall a :: a in w.consoles ==> !HasCopy(s, img, w, a == s, mvs, a)
  }

  /** A chunk that is taken up and differs from what the console holds at its place. */
  ghost predicate Overwrites(w: World, mv: Move, a: Addr) {
    && mv.Deliver? && mv.at == a && mv.m.packet.Chunk? && a in w.consoles
    && var (c, p) := (w.consoles[a], mv.m.packet);
       && c.role == Active && c.rec.have && p.page < |c.run.mem| && p.off + PIECE <= PAGE
       && c.run.mem[p.page][p.off..p.off + PIECE] != p.data
  }

  ghost predicate Spoils(w: World, was: bool, mv: Move, a: Addr) {
    !Resumes(w, mv, a) && (was || Overwrites(w, mv, a))
  }

  /** Such a chunk has come since console a last committed. */
  ghost predicate Spoilt(s: Addr, img: Image, w: World, was: bool, mvs: seq<Move>, a: Addr)
    decreases |mvs|
  {
    if mvs == [] then was
    else
      && s in w.consoles && Enabled(s, w, mvs[0])
      && Spoilt(s, img, After(s, img, w, mvs[0]), Spoils(w, was, mvs[0], a), mvs[1..], a)
  }

  /** An OFFER reaches a console that has committed already. */
  ghost predicate LateOffer(s: Addr, img: Image, w: World, mvs: seq<Move>)
    decreases |mvs|
  {
    && mvs != [] && s in w.consoles && Enabled(s, w, mvs[0])
    && ((mvs[0].Deliver? && mvs[0].m.packet.Offer? && mvs[0].at in w.committed)
         || LateOffer(s, img, After(s, img, w, mvs[0]), mvs[1..]))
  }

  /** What holding comes down to. */
  ghost predicate Holder(s: Addr, w: World, a: Addr, spoilt: bool) {
    a in w.consoles && if a == s then w.phase != Over(true) else a in w.committed && !spoilt
  }

  // ---- One step ----

  /** Apart from its player and a commit, exactly such a chunk changes the game on a console. */
  lemma OnlyOverwritten(s: Addr, img: Image, w: World, mv: Move, a: Addr)
    requires Inv(s, img, w) && Enabled(s, w, mv) && a in w.consoles
    requires !(mv.Play? && mv.at == a) && !Resumes(w, mv, a)
    ensures a in After(s, img, w, mv).consoles
    ensures After(s, img, w, mv).consoles[a].run == w.consoles[a].run <==> !Overwrites(w, mv, a)
  {
    hide Inv, Receiving, Streamed;
    if mv.Deliver? && mv.at == a && mv.m.packet.Chunk? {
      var p, c := mv.m.packet, w.consoles[a];
      if c.role == Active && c.rec.have && p.page < |c.run.mem| && p.off + PIECE <= PAGE {
        SpliceSame(c.run.mem, p.page, p.off, p.data);
      }
    }
  }

  lemma HolderStep(s: Addr, img: Image, w: World, mv: Move, a: Addr, held: bool, spoilt: bool)
    requires Inv(s, img, w) && Enabled(s, w, mv) && s in w.consoles
    requires held <==> Holder(s, w, a, spoilt)
    ensures Keeps(s, img, w, held, mv, a) <==> Holder(s, After(s, img, w, mv), a, Spoils(w, spoilt, mv, a))
  {
    hide Receiving, Streamed, MessageOk;
    if a in w.consoles && !(mv.Play? && mv.at == a) && !Resumes(w, mv, a) {
      OnlyOverwritten(s, img, w, mv, a);
    }
  }

  // ---- Whole runs ----

  lemma {:induction false} HoldersAre(s: Addr, img: Image, w: World, mvs: seq<Move>, v: World, a: Addr, held: bool,
                                      spoilt: bool)
    requires Inv(s, img, w) && Leads(s, img, w, mvs, v)
    requires held <==> Holder(s, w, a, spoilt)
    ensures HasCopy(s, img, w, held, mvs, a) <==> Holder(s, v, a, Spoilt(s, img, w, spoilt, mvs, a))
    decreases |mvs|
  {
    hide Inv, After, Enabled, Keeps, Holder, Spoils;
    if mvs != [] {
      StepInv(s, img, w, mvs[0]);
      HolderStep(s, img, w, mvs[0], a, held, spoilt);
      HoldersAre(s, img, After(s, img, w, mvs[0]), mvs[1..], v, a, Keeps(s, img, w, held, mvs[0], a),
                Spoils(w, spoilt, mvs[0], a));
    }
  }

  /** While no OFFER reaches a console that has committed, that console is out of the beam, and nothing spoils its
      game. */
  ghost predicate Settled(w: World, a: Addr, spoilt: bool) {
    a in w.consoles && a in w.committed ==> w.consoles[a].role == Idle && !spoilt
  }

  lemma SettledStep(s: Addr, img: Image, w: World, mv: Move, a: Addr, spoilt: bool)
    requires Inv(s, img, w) && Enabled(s, w, mv) && Settled(w, a, spoilt)
    requires !(mv.Deliver? && mv.m.packet.Offer? && mv.at in w.committed)
    ensures Settled(After(s, img, w, mv), a, Spoils(w, spoilt, mv, a))
  {
    hide Receiving, Streamed, MessageOk;
  }

  lemma {:induction false} SettledRun(s: Addr, img: Image, w: World, mvs: seq<Move>, v: World, a: Addr, spoilt: bool)
    requires Inv(s, img, w) && Leads(s, img, w, mvs, v) && Settled(w, a, spoilt) && !LateOffer(s, img, w, mvs)
    ensures Settled(v, a, Spoilt(s, img, w, spoilt, mvs, a))
    decreases |mvs|
  {
    hide Inv, After, Enabled, Settled, Spoils;
    if mvs != [] {
      StepInv(s, img, w, mvs[0]);
      SettledStep(s, img, w, mvs[0], a, spoilt);
      SettledRun(s, img, After(s, img, w, mvs[0]), mvs[1..], v, a, Spoils(w, spoilt, mvs[0], a));
    }
  }

  // ---- When the game is safe ----

  /** Who holds the game after any run: the sender until it ends in success, and a console that has committed unless a
      differing chunk has come since. */
  lemma HoldersExactly(s: Addr, img: Image, w: World, mvs: seq<Move>, v: World, a: Addr)
    requires Init(s, img, w) && Leads(s, img, w, mvs, v) && a in w.consoles
    ensures HasCopy(s, img, w, a == s, mvs, a) <==>
              if a == s then v.phase != Over(true) else a in v.committed && !Spoilt(s, img, w, false, mvs, a)
  {
    hide Inv, After, Enabled;
    InitInv(s, img, w);
    HoldersAre(s, img, w, mvs, v, a, a == s, false);
    SameConsoles(s, img, w, mvs, v);
  }

  /** The game is lost exactly when the sender has given it up and a differing chunk has since come to the console it
      went to. */
  lemma LostExactly(s: Addr, img: Image, w: World, mvs: seq<Move>, v: World)
    requires Init(s, img, w) && Leads(s, img, w, mvs, v)
    ensures Lost(s, img, w, mvs) <==>
              v.phase == Over(true) && exists a :: v.committed == {a} && Spoilt(s, img, w, false, mvs, a)
  {
    hide Inv, After, Enabled, Leads, HasCopy, Spoilt;
    forall a | a in w.consoles
      ensures HasCopy(s, img, w, a == s, mvs, a) <==>
                if a == s then v.phase != Over(true) else a in v.committed && !Spoilt(s, img, w, false, mvs, a)
    {
      HoldersExactly(s, img, w, mvs, v, a);
    }
    Committed(s, img, w, mvs, v);
  }

  /** Sender and console a both hold the game exactly if a has committed, is not spoilt, and the sender has not ended in
      success. */
  lemma TwoCopiesExactly(s: Addr, img: Image, w: World, mvs: seq<Move>, v: World, a: Addr)
    requires Init(s, img, w) && Leads(s, img, w, mvs, v) && a in w.consoles && a != s
    ensures HasCopy(s, img, w, true, mvs, s) && HasCopy(s, img, w, false, mvs, a) <==>
              v.phase != Over(true) && a in v.committed && !Spoilt(s, img, w, false, mvs, a)
  {
    hide Init, Leads, HasCopy, Spoilt;
    assert s in w.consoles by { SenderThere(s, img, w); }
    HoldersExactly(s, img, w, mvs, v, s);
    HoldersExactly(s, img, w, mvs, v, a);
  }

  lemma SenderThere(s: Addr, img: Image, w: World)
    requires Init(s, img, w)
    ensures s in w.consoles
  {}

  /** The beam does not lose the game unless an OFFER comes late: somebody holds it after every run in which no OFFER
      reaches a console that has committed, and whoever has committed holds it. */
  lemma NeverLost(s: Addr, img: Image, w: World, mvs: seq<Move>, v: World)
    requires Init(s, img, w) && Leads(s, img, w, mvs, v) && !LateOffer(s, img, w, mvs)
    ensures !Lost(s, img, w, mvs)
    ensures v.phase != Over(true) ==> HasCopy(s, img, w, true, mvs, s)
    ensures forall a :: a in v.committed ==> HasCopy(s, img, w, false, mvs, a)
  {
    hide Inv, After, Enabled, Leads, HasCopy, Spoilt, LateOffer;
    InitInv(s, img, w);
    Committed(s, img, w, mvs, v);
    HoldersExactly(s, img, w, mvs, v, s);
    forall a | a in v.committed ensures HasCopy(s, img, w, false, mvs, a) {
      SettledRun(s, img, w, mvs, v, a, false);
      HoldersExactly(s, img, w, mvs, v, a);
    }
  }

  /** Nobody but one listener commits, and only after a commit does the sender end in success. */
  lemma Committed(s: Addr, img: Image, w: World, mvs: seq<Move>, v: World)
    requires Init(s, img, w) && Leads(s, img, w, mvs, v)
    ensures v.consoles.Keys == w.consoles.Keys
    ensures v.committed == {} || exists a :: v.committed == {a} && a in v.consoles && a != s
    ensures v.phase == Over(true) ==> v.committed != {}
  {
    hide After, Enabled, ListenerOk, MessageOk;
    InitInv(s, img, w);
    RunInv(s, img, w, mvs, v);
    SameConsoles(s, img, w, mvs, v);
    if a :| a in v.committed {
      assert v.committed == {a};
    }
  }

  lemma {:induction false} SameConsoles(s: Addr, img: Image, w: World, mvs: seq<Move>, v: World)
    requires Leads(s, img, w, mvs, v) && w.committed <= w.consoles.Keys
    ensures v.consoles.Keys == w.consoles.Keys && v.committed <= v.consoles.Keys
    decreases |mvs|
  {
    hide After, Enabled;
    if mvs != [] {
      StepConsoles(s, img, w, mvs[0]);
      SameConsoles(s, img, After(s, img, w, mvs[0]), mvs[1..], v);
    }
  }

  lemma StepConsoles(s: Addr, img: Image, w: World, mv: Move)
    requires s in w.consoles && Enabled(s, w, mv) && w.committed <= w.consoles.Keys
    ensures After(s, img, w, mv).consoles.Keys == w.consoles.Keys && After(s, img, w, mv).committed <= w.consoles.Keys
  {}
}
