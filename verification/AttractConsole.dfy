/** Attract mode's static variables, and its demo files on the FAT volume. */
module AttractConsole {
  import opened Wrappers
  import opened Bytes
  import opened Rewind
  import opened Attract
  import FatLayout
  import opened FatName
  import FatRead
  import FatSave
  import FatBuild
  import FatDriver

  const DEMO_BYTES: nat := HEADER + DEMO_FRAMES * FRAME_BYTES

  /** "PONG.ELF" is "PONG.DEM". */
  function DemoName(base: seq<byte>): (nm: seq<byte>)
    ensures 0 !in base ==> 0 !in nm
  {
    var d := DotAt(base);
    (if d < 8 then base[..d] else base[..8]) + [0x2E, 0x44, 0x45, 0x4D]
  }

  /** The volume has a directory slot for a demo of n frames, and clusters enough. */
  ghost predicate HasRoom(g: FatLayout.Geo, v: FatLayout.Vol, name: seq<byte>, n: nat)
    requires FatLayout.Inv(g, v)
  {
    && FatDriver.SlotFor(FatLayout.Root(g, v), name).Some?
    && HEADER + FRAME_BYTES * n <= SECTOR_SIZE * Times(|FatLayout.Free(g, v)|, g.spc)
  }

  /** A demo has its game's first eight characters, and the extension DEM. */
  lemma DemoNameIs(base: seq<byte>)
    ensures var (f, g) := (Formatted(DemoName(base)), Formatted(base)); f[..8] == g[..8] && f[8..] == [0x44, 0x45, 0x4D]
  {
    hide Field;
    var d := if DotAt(base) < 8 then DotAt(base) else 8;
    var nm, ext: seq<byte> := DemoName(base), [0x44, 0x45, 0x4D];
    assert nm == base[..d] + [DOT] + ext;
    DotIs(base[..d], ext);
    assert Formatted(nm)[..8] == Field(base[..d], 8) && Formatted(nm)[8..] == Field(ext, 3);
    assert Formatted(base)[..8] == Field(base[..DotAt(base)], 8);
    assert base[..DotAt(base)][..d] == base[..d];
    CutField(base[..DotAt(base)], d);
    DemField(ext);
  }

  lemma DotIs(a: seq<byte>, b: seq<byte>)
    requires DOT !in a
    ensures var s := a + [DOT] + b; DotAt(s) == |a| && s[..|a|] == a && Extension(s) == b
  {
    var s := a + [DOT] + b;
    assert forall i :: 0 <= i < |a| ==> s[i] == a[i];
    assert s[|a|] == DOT;
  }

  lemma CutField(s: seq<byte>, d: nat)
    requires d <= |s| && (d < |s| ==> d >= 8)
    ensures Field(s[..d], 8) == Field(s, 8)
  {}

  lemma DemField(ext: seq<byte>)
    requires ext == [0x44, 0x45, 0x4D]
    ensures Field(ext, 3) == ext
  {}

  /** A demo file fits the buffer and reads back as the demo. */
  lemma ReadsBack(demo: Demo)
    requires demo.seed < WORD && 0 < |demo.frames| <= DEMO_FRAMES
             && forall k :: 0 <= k < |demo.frames| ==> 0 <= demo.frames[k].vticks < WORD
    ensures var bs := Encode(demo); bs[..FatRead.Min(|bs|, DEMO_BYTES)] == bs && Decode(bs) == Some(demo)
  {
    hide Encode, Decode;
    DemoRoundTrip(demo);
  }

  datatype Mode = Off | Armed | On(cursor: nat)

  class Attractor {
    const cap: array<Rec>
    var capN: nat
    var seed: nat
    const play: array<Rec>
    var playN: nat
    var playSeed: nat
    var mode: Mode

    constructor ()
      ensures Valid() && fresh(cap) && fresh(play) && mode == Off
    {
      capN, seed, playN, playSeed, mode := 1, 0, 0, 0, Off;
      var blank := Rec(seq(PAD_BYTES, j => 0), seq(PAD_BYTES, j => 0), 0);
      cap := new Rec[DEMO_FRAMES](i => blank);
      play := new Rec[DEMO_FRAMES](i => blank);
    }

    ghost predicate Valid()
      reads this
    {
      && cap.Length == DEMO_FRAMES && 0 < capN <= DEMO_FRAMES && seed < WORD && cap != play
      && play.Length == DEMO_FRAMES && playN <= DEMO_FRAMES && (mode != Off ==> 0 < playN)
      && (mode.On? ==> mode.cursor < playN)
    }

    function Cap(): (c: Capture)
      reads this, cap
      requires Valid()
      ensures c.Sized()
    {
      Capture(cap[..], capN, seed)
    }

    /** The demo being replayed. */
    function Loaded(): (d: Demo)
      reads this, play
      requires Valid()
    {
      Demo(playSeed, play[..playN])
    }

    /** rewind_on_present for a new process, lastTick being the clock it read last. */
    method FirstPresent(now: nat, lastTick: nat)
      requires Valid() && lastTick < WORD
      modifies this, cap
      ensures Valid() && Loaded() == old(Loaded())
      ensures if old(mode) == Armed then mode == On(0) && Cap() == old(Cap())
              else mode == old(mode) && Cap() == CaptureStart(old(Cap()), now, lastTick)
    {
      if mode == Armed {
        mode := On(0);
        return;
      }
      capN, seed := 1, lastTick;
      cap[0] := cap[0].(vticks := now);
    }

    /** rewind_feed_pad's share. */
    method Feed(pc: nat, index: nat, st: Pad)
      requires Valid() && index < 2
      modifies cap
      ensures Valid() && Cap() == CapturePad(old(Cap()), pc, index, st)
    {
      if pc < DEMO_FRAMES {
        cap[pc] := cap[pc].WithPad(index, st);
      }
    }

    /** rewind_on_present's share. */
    method Count(pc: nat, vticks: int)
      requires Valid()
      modifies this`capN, cap
      ensures Valid() && Cap() == CaptureFrame(old(Cap()), pc, vticks)
    {
      if pc < DEMO_FRAMES {
        cap[pc] := cap[pc].(vticks := vticks);
        capN := pc + 1;
      }
    }

    /** rewind_demo_save: at least DEMO_MIN frames, or nothing is written. */
    method SaveDemo(d: FatDriver.Driver, base: seq<byte>) returns (ok: bool)
      requires Valid() && d.Valid() && FatLayout.Inv(d.g, d.View()) && 0 !in base
               && DEMO_BYTES + d.g.spc * SECTOR_SIZE <= 0x1_0000_0000
      modifies d
      ensures Valid() && d.Valid() && FatLayout.Inv(d.g, d.View()) && Cap() == old(Cap())
      ensures ok <==> capN >= DEMO_MIN && HasRoom(d.g, old(d.View()), Formatted(DemoName(base)), capN)
      ensures ok && Formatted(DemoName(base))[0] != 0xE5 ==>
                FatLayout.Replaced(d.g, old(d.View()), d.View(), Formatted(DemoName(base)),
                    Encode(Demo(seed, cap[..capN])))
      ensures !ok ==> FatLayout.SameFiles(d.g, old(d.View()), d.View())
    {
      hide FatLayout.Inv, FatDriver.ViewOf, FatLayout.Lookup, Formatted, Encode, Decode, FatLayout.SameFiles,
           FatLayout.Replaced, FatLayout.Root, FatLayout.Allocated, FatLayout.Free, FatDriver.SlotFor,
           FatBuild.ClustersFor;
      if capN < DEMO_MIN {
        FatDriver.NothingChanged(d.g, d.View());
        return false;
      }
      var bytes := Encode(Demo(seed, cap[..capN]));
      var r;
      ghost var n, o;
      r, n, o := d.Save(DemoName(base), bytes);
      ok := r == 0;
    }

    /** rewind_arm_attract: it arms exactly if the volume holds a well-formed demo under that name. */
    method Arm(d: FatDriver.Driver, base: seq<byte>) returns (ok: bool)
      requires Valid() && d.Valid() && FatLayout.Inv(d.g, d.View())
      modifies this, play, d`fatCache, d`fatCacheLba, d`sectorBuf
      ensures Valid() && d.Valid() && Cap() == old(Cap())
      ensures ok <==>
                exists bytes :: FatLayout.Lookup(d.g, d.View(), Formatted(DemoName(base))) == Some(bytes)
                    && Decode(bytes[..FatRead.Min(|bytes|, DEMO_BYTES)]).Some?
      ensures ok ==> mode == Armed
      ensures ok ==>
                exists bytes :: FatLayout.Lookup(d.g, d.View(), Formatted(DemoName(base))) == Some(bytes)
                    && Decode(bytes[..FatRead.Min(|bytes|, DEMO_BYTES)]) == Some(Loaded())
      ensures !ok ==> mode == old(mode)
    {
      hide FatLayout.Inv, FatDriver.ViewOf, FatLayout.Lookup, Formatted, Decode;
      var got := d.Load(DemoName(base), DEMO_BYTES);
      if got == None {
        return false;
      }
      var demo := Decode(got.value);
      if demo == None {
        return false;
      }
      var k := 0;
      while k < |demo.value.frames|
        invariant k <= |demo.value.frames| && play[..k] == demo.value.frames[..k]
        modifies play
      {
        play[k] := demo.value.frames[k];
        k := k + 1;
      }
      playSeed, playN, mode := demo.value.seed, |demo.value.frames|, Armed;
      assert Loaded() == demo.value;
      ok := true;
    }

    /** rewind_ticks for the demo's game. */
    method Ticks() returns (v: int)
      requires Valid() && mode != Off
      ensures v == if mode == Armed then Loaded().seed else Loaded().frames[mode.cursor].vticks
    {
      v := if mode == Armed then playSeed else play[mode.cursor].vticks;
    }

    /** rewind_feed_pad for the demo's game. */
    method ReadPad(index: nat) returns (st: Pad)
      requires Valid() && mode != Off && index < 2
      ensures var r := Loaded().frames[if mode == Armed then 0 else mode.cursor];
              st == if index == 0 then r.pad0 else r.pad1
    {
      var r := play[if mode == Armed then 0 else mode.cursor];
      st := if index == 0 then r.pad0 else r.pad1;
    }

    /** rewind_on_present for the demo's game, p being the player that attract mode stands for. */
    method Advance<Mem>(stop: bool, ghost step: (Mem, Rec) -> Mem, ghost p: Player<Mem>)
      requires Valid() && mode.On? && !p.ended && p.cursor == mode.cursor
      modifies this`mode
      ensures Valid() && Loaded() == old(Loaded())
      ensures var q := PlayerFrame(step, Loaded(), p, stop); mode == if q.ended then Off else On(q.cursor)
    {
      var cursor := mode.cursor + 1;
      mode := if cursor >= playN || stop then Off else On(cursor);
    }

    /** What the hooks do over a whole session: pads are fed and presents are counted, while the game runs from s on. */
    method CaptureSession<Mem>(step: (Mem, Rec) -> Mem, s: State<Mem>, ghost h: Timeline<Mem>, es: seq<Event<Mem>>)
      requires Valid() && s.Sized() && forall i :: 0 <= i < |es| ==> !es[i].Run?
      modifies this`capN, cap
      ensures Valid() && Cap() == CaptureAfter(step, s, h, old(Cap()), es, seed)
    {
      hide CaptureFrame, CapturePad, Rewind.Next, Sees, Frame;
      ghost var c0 := Cap();
      var u := s;
      var i := 0;
      while i < |es|
        invariant i <= |es| && Valid() && u == After(step, s, h, es[..i]).0
        invariant Cap() == CaptureAfter(step, s, h, c0, es[..i], seed)
      {
        assert es[..i + 1][..i] == es[..i];
        var e := es[i];
        if e.Play? && u.clock <= e.at {
          Feed(u.pc, 0, e.pad0);
          Feed(u.pc, 1, e.pad1);
          Count(u.pc + 1, e.at - u.offset);
        }
        u := Rewind.Next(step, u, e);
        i := i + 1;
      }
      assert es[..i] == es;
    }

    /** Attract mode plays the armed demo, |stops| presents of it or up to its end. */
    method PlayBack<Mem>(stops: seq<bool>, now: nat, ghost step: (Mem, Rec) -> Mem, ghost mem: Mem)
      requires Valid() && mode == Armed && now < WORD
      modifies this, cap
      ensures Valid() && Loaded() == old(Loaded()) && Cap() == old(Cap()) && Playing(mem, step, stops)
    {
      FirstPresent(now, 0);
      var i := 0;
      ghost var demo := Loaded();
      while i < |stops|
        invariant i <= |stops| && Valid() && Loaded() == demo && |demo.frames| > 0 && Cap() == old(Cap())
        invariant var p := PlayerAfter(step, demo, mem, stops[..i]); mode == if p.ended then Off else On(p.cursor)
      {
        assert stops[..i + 1][..i] == stops[..i];
        if mode.On? {
          Advance(stops[i], step, PlayerAfter(step, demo, mem, stops[..i]));
        }
        i := i + 1;
      }
      assert stops[..i] == stops;
    }

    /** A session from its first present on. */
    method CaptureGame<Mem>(ghost init: (nat, Pad, Pad) -> Mem, step: (Mem, Rec) -> Mem, s: State<Mem>, lastTick: nat,
                            ghost pad0: Pad, ghost pad1: Pad, at: nat, mem: Mem, es: seq<Event<Mem>>)
      returns (ghost c: Capture, ghost u: State<Mem>, ghost h: Timeline<Mem>)
      requires Valid() && mode == Off && s.Sized() && lastTick < WORD && mem == init(lastTick, pad0, pad1)
      requires forall i :: 0 <= i < |es| ==> !es[i].Run?
      modifies this, cap
      ensures Valid() && mode == Off && c.Sized() && (u, h) == After(step, Start(s, mem, at), Timeline([mem], [at]), es)
      ensures Cap() ==
              CaptureAfter(step, Start(s, mem, at), Timeline([mem], [at]), CaptureStart(c, at, lastTick), es, lastTick)
      ensures Cap().seed == lastTick && |h.mems| > 0 && h.mems[0] == mem
      ensures forall k :: 0 <= k < Cap().n ==> 0 <= Cap().frames[k].vticks <= u.clock
    {
      hide After, CaptureAfter, Start, CaptureStart;
      c := Cap();
      var s0 := Start(s, mem, at);
      u, h := After(step, s0, Timeline([mem], [at]), es).0, After(step, s0, Timeline([mem], [at]), es).1;
      FirstPresent(at, lastTick);
      assert Cap().seed == lastTick by { StartSeed(c, at, lastTick); }
      CaptureSession(step, s0, Timeline([mem], [at]), es);
      SessionCaptured(init, step, s, c, lastTick, pad0, pad1, at, es, u, h, Cap());
    }

    lemma StartSeed(c: Capture, at: nat, lastTick: nat)
      requires c.Sized()
      ensures CaptureStart(c, at, lastTick).seed == lastTick
    {}

    /** A captured demo goes to the volume and comes back. */
    method SaveAndArm(d: FatDriver.Driver, base: seq<byte>) returns (saved: bool)
      requires Valid() && d.Valid() && FatLayout.Inv(d.g, d.View()) && 0 !in base
      requires DEMO_BYTES + d.g.spc * SECTOR_SIZE <= 0x1_0000_0000 && Formatted(DemoName(base))[0] != 0xE5
      requires forall k :: 0 <= k < Cap().n ==> 0 <= Cap().frames[k].vticks < WORD
      modifies this, play, d
      ensures Valid() && d.Valid() && FatLayout.Inv(d.g, d.View()) && Cap() == old(Cap())
      ensures saved ==> mode == Armed && Loaded() == Demo(Cap().seed, Cap().frames[..Cap().n])
      ensures saved <==> Cap().n >= DEMO_MIN && HasRoom(d.g, old(d.View()), Formatted(DemoName(base)), Cap().n)
      ensures !saved ==> mode == old(mode) && FatLayout.SameFiles(d.g, old(d.View()), d.View())
    {
      hide FatLayout.Inv, FatDriver.ViewOf, FatLayout.Lookup, Formatted, Encode, Decode, FatLayout.SameFiles;
      ghost var demo := Demo(seed, cap[..capN]);
      assert Cap().frames[..Cap().n] == cap[..capN];
      ReadsBack(demo);
      saved := SaveDemo(d, base);
      if saved {
        var armed := Arm(d, base);
        assert armed;
      }
    }

    /** The whole way of a demo: a session of a game is captured as it is played, saved on the volume, armed, and played
        back. The demo that is played shows the frames of the session, each in its place, exactly if the capture was not
        ahead of the session's timeline. */
    method CaptureToPlayback<Mem>(d: FatDriver.Driver, base: seq<byte>, ghost init: (nat, Pad, Pad) -> Mem,
                                  step: (Mem, Rec) -> Mem, s: State<Mem>, lastTick: nat, ghost pad0: Pad,
                                  ghost pad1: Pad,
                                  at: nat, mem: Mem, es: seq<Event<Mem>>, now: nat, stops: seq<bool>)
      returns (saved: bool, ghost u: State<Mem>, ghost h: Timeline<Mem>)
      requires Valid() && mode == Off && d.Valid() && FatLayout.Inv(d.g, d.View()) && 0 !in base
      requires DEMO_BYTES + d.g.spc * SECTOR_SIZE <= 0x1_0000_0000 && Formatted(DemoName(base))[0] != 0xE5
      requires s.Sized() && lastTick < WORD && now < WORD && mem == init(lastTick, pad0, pad1)
      requires forall i :: 0 <= i < |es| ==> !es[i].Run?
      requires After(step, Start(s, mem, at), Timeline([mem], [at]), es).0.clock < WORD
      modifies this, cap, play, d
      ensures Valid() && d.Valid() && FatLayout.Inv(d.g, d.View())
      ensures (u, h) == After(step, Start(s, mem, at), Timeline([mem], [at]), es) && |h.mems| > 0
      ensures saved ==> Loaded() == Demo(lastTick, Cap().frames[..Cap().n]) && |Loaded().frames| > 0
      ensures saved && Cap().frames[0].pad0 == pad0 && Cap().frames[0].pad1 == pad1 ==>
        && h.mems[0] == init(Loaded().seed, Loaded().frames[0].pad0, Loaded().frames[0].pad1)
        && Playing(h.mems[0], step, stops)
        && ((forall ss: seq<bool> :: Shows(step, Loaded(), h, ss)) <==> Cap().n <= u.pc + 1)
      ensures saved <==> Cap().n >= DEMO_MIN && HasRoom(d.g, old(d.View()), Formatted(DemoName(base)), Cap().n)
      ensures !saved ==> mode == Off && FatLayout.SameFiles(d.g, old(d.View()), d.View())
    {
      hide After, CaptureAfter, Start, CaptureStart, FatLayout.Inv, FatDriver.ViewOf, FatLayout.Lookup, Formatted,
           Encode, Decode, FatLayout.SameFiles, Shows, PlayerAfter;
      ghost var c;
      c, u, h := CaptureGame(init, step, s, lastTick, pad0, pad1, at, mem, es);
      ghost var cap1 := Cap();
      saved := SaveAndArm(d, base);
      if saved {
        PlayBack(stops, now, step, mem);
        if cap1.frames[0].pad0 == pad0 && cap1.frames[0].pad1 == pad1 {
          AttractIsExact(init, step, s, c, lastTick, pad0, pad1, at, es, u, h, cap1);
        }
      }
    }

    /** Attract mode stands where the player of its demo does. */
    ghost predicate Playing<Mem>(mem: Mem, step: (Mem, Rec) -> Mem, stops: seq<bool>)
      reads this, play
    {
      && Valid() && |Loaded().frames| > 0
      && var p := PlayerAfter(step, Loaded(), mem, stops); mode == if p.ended then Off else On(p.cursor)
    }
  }
}
