/** Live game migration: what each console does with a packet, and the pages it is made of. */
module Beam {
  import opened Bytes
  import Pmm

  const MAX_PAGES: nat := 1100
  const PIECE: nat := 1024
  const BITS: nat := 4408           // 8 * (MAX_PAGES * 4 / 8 + 1)
  const ATTEMPTS: nat := 4

  type Page = s: seq<byte> | |s| == PAGE witness seq(PAGE, i => 0)
  type Piece = s: seq<byte> | |s| == PIECE witness seq(PIECE, i => 0)
  type Bits = s: seq<bool> | |s| == BITS witness seq(BITS, i => false)
  type Addr = nat

  /** The registers that a resumed game takes over from the sender, and all the others. */
  datatype Resume = Resume(r15: nat, r14: nat, r13: nat, r12: nat, ebp: nat, ebx: nat, eip: nat, eflags: nat,
                           useresp: nat)
  datatype Regs = Regs(resume: Resume, rest: seq<nat>)

  datatype Task = Task(name: string, id: nat)

  datatype Packet =
    | Offer(npages: nat, vticks: nat, game: string)
    | Accept
    | Chunk(page: nat, off: nat, data: Piece)
    | Done(np: nat, regs: Regs)
    | ShortDone(np: nat)                        // a DONE too short to hold the registers
    | Ack
    | Nack

  datatype Role = Idle | Sending | Want | Active

  /** The game a console runs: its writable pages, its registers, the clock it sees. */
  datatype Game = Game(mem: seq<Page>, regs: Regs, ticks: nat)

  /** beam_send_current's flags. */
  datatype Sender = Sender(accepted: bool, ack: bool, nack: bool, peer: Addr)

  /** What a receiver knows of the offered game, and how far its attempts are. */
  datatype Receiver = Receiver(name: string, peer: Addr, np: nat, vt: nat, have: bool, owner: nat, attempt: nat,
                               gotDone: bool, regs: Regs)

  datatype Console = Console(role: Role, games: set<string>, task: Task, run: Game, snd: Sender, rec: Receiver,
                             bits: Bits, unique: nat)
  {
    /** What the C types and paging_collect_user_rw's cap give. */
    predicate Sound() { |run.mem| <= MAX_PAGES && (rec.have ==> rec.np == |run.mem|) }

    function Need(): nat { rec.np * 4 }
  }

  /** At most 15 characters, unprintable ones replaced. */
  function Sanitised(game: string): (nm: string)
    ensures |nm| <= 15 && forall i :: 0 <= i < |nm| ==> 32 <= nm[i] as int < 127
  {
    SanitisedFrom(game, 0)
  }

  function SanitisedFrom(game: string, i: nat): (nm: string)
    requires i <= 15
    ensures |nm| <= 15 - i && forall k :: 0 <= k < |nm| ==> 32 <= nm[k] as int < 127
    decreases 15 - i
  {
    if i == 15 || i >= |game| || game[i] == '\0' then []
    else [if 32 <= game[i] as int < 127 then game[i] else '_'] + SanitisedFrom(game, i + 1)
  }

  predicate Printable(c: char) { 32 <= c as int < 127 }

  /** Up to 15 characters before a NUL, each kept if it is printable and else an underscore. */
  lemma SanitisedIs(game: string)
    ensures var nm := Sanitised(game);
            && |nm| <= |game| && (|nm| == 15 || |nm| == |game| || game[|nm|] == '\0')
            && forall j :: 0 <= j < |nm| ==> game[j] != '\0' && nm[j] == if Printable(game[j]) then game[j] else '_'
  {
    SanitisedFromIs(game, 0);
    assert forall j :: 0 <= j < |Sanitised(game)| ==> Sanitised(game)[j] == SanitisedFrom(game, 0)[j - 0];
  }

  lemma {:induction false} SanitisedFromIs(game: string, i: nat)
    requires i <= 15 && i <= |game|
    ensures var nm := SanitisedFrom(game, i);
            && i + |nm| <= |game| && (i + |nm| == 15 || i + |nm| == |game| || game[i + |nm|] == '\0')
            && forall j :: i <= j < i + |nm| ==>
                 game[j] != '\0' && nm[j - i] == if Printable(game[j]) then game[j] else '_'
    decreases 15 - i
  {
    if i < 15 && i < |game| && game[i] != '\0' {
      SanitisedFromIs(game, i + 1);
      var nm, rest := SanitisedFrom(game, i), SanitisedFrom(game, i + 1);
      forall j | i <= j < i + |nm| ensures game[j] != '\0' && nm[j - i] == if Printable(game[j]) then game[j] else '_' {
        if j > i {
          assert nm[j - i] == rest[j - (i + 1)];
        }
      }
    }
  }

  /** Chunk k of a list of pages: four to a page. */
  function PieceAt(pages: seq<Page>, k: nat): (d: Piece)
    requires k < 4 * |pages|
  {
    pages[k / 4][k % 4 * PIECE..k % 4 * PIECE + PIECE]
  }

  /** beam_input. */
  function Input(c: Console, src: Addr, p: Packet): (d: Console)
    requires c.Sound()
    ensures d.Sound()
  {
    match p
    case Offer(npages, vticks, game) =>
      var nm := Sanitised(game);
      if c.role != Idle || nm !in c.games then c
      else c.(role := Want,
          rec := c.rec.(name := nm, peer := src, np := npages, vt := vticks, have := false, owner := 0))
    case Accept => if c.role == Sending then c.(snd := c.snd.(peer := src, accepted := true)) else c
    case Chunk(page, off, data) =>
      if c.role == Active && c.rec.have && page < |c.run.mem| && off + PIECE <= PAGE then
        var bit := page * 4 + off / PIECE;
        c.(run := c.run.(mem := c.run.mem[page := Splice(c.run.mem[page], off, data)]),
           bits := c.bits[bit := true], unique := c.unique + if c.bits[bit] then 0 else 1)
      else c
    case Done(np, regs) => if c.role == Active then c.(rec := c.rec.(regs := regs, gotDone := true)) else c
    case ShortDone(np) => if c.role == Active then c.(rec := c.rec.(gotDone := true)) else c
    case Ack => if c.role == Sending then c.(snd := c.snd.(ack := true)) else c
    case Nack => if c.role == Sending then c.(snd := c.snd.(nack := true)) else c
  }

  datatype Sent = Nothing | To(dst: Addr, packet: Packet)

  /** The start of beam_on_present, up to its first wait. */
  function Open(c: Console): (r: (Console, Sent))
    requires c.Sound()
    ensures r.0.Sound()
  {
    if c.role != Want || c.task.name != c.rec.name || c.task.id == c.rec.owner then (c, Nothing)
    else if |c.run.mem| != c.rec.np then (c.(role := Idle, rec := c.rec.(owner := c.task.id)), To(c.rec.peer, Nack))
    else (c.(role := Active, rec := c.rec.(owner := c.task.id, have := true, attempt := 0, gotDone := false),
             bits := seq(BITS, i => false), unique := 0), To(c.rec.peer, Accept))
  }

  /** The game after the sender's registers and clock have been put in. */
  function Resumed(c: Console): Game {
    c.run.(regs := c.run.regs.(resume := c.rec.regs.resume), ticks := c.rec.vt)
  }

  /** The end of one of beam_on_present's attempts: after DONE or the deadline. */
  function Close(c: Console): (r: (Console, Sent))
    requires c.Sound() && c.role == Active && c.rec.attempt < ATTEMPTS
    ensures r.0.Sound()
  {
    if c.rec.gotDone && c.unique >= c.Need() then
      (c.(role := Idle, run := Resumed(c), rec := c.rec.(have := false)), To(c.rec.peer, Ack))
    else if c.rec.attempt < 3
      then (c.(rec := c.rec.(attempt := c.rec.attempt + 1, gotDone := false)), To(c.rec.peer, Nack))
    else (c.(role := Idle, rec := c.rec.(have := false)), Nothing)
  }

  /** The game moves here: the one branch of Close that takes over the registers. */
  predicate Commits(c: Console) {
    c.role == Active && c.rec.gotDone && c.unique >= c.Need()
  }

  // ---- What the sender streams ----

  /** The game frozen by beam_send_current. */
  datatype Image = Image(pages: seq<Page>, regs: Regs, ticks: nat, game: string)

  function ChunkPacket(img: Image, k: nat): (p: Packet)
    requires k < 4 * |img.pages|
  {
    Chunk(k / 4, k % 4 * PIECE, PieceAt(img.pages, k))
  }

  /** The packets of one pass over the pages, DONE last. */
  function Stream(img: Image): (ps: seq<Packet>)
    ensures |ps| == 4 * |img.pages| + 1 && ps[|ps| - 1] == Done(|img.pages|, img.regs)
    ensures forall k :: 0 <= k < 4 * |img.pages| ==> ps[k] == ChunkPacket(img, k)
  {
    seq(4 * |img.pages|, k requires 0 <= k < 4 * |img.pages| => ChunkPacket(img, k)) + [Done(|img.pages|, img.regs)]
  }

  // ---- What a receiver holds ----

  /** Every chunk marked as received is the sender's. */
  ghost predicate Holds(c: Console, pages: seq<Page>) {
    forall k :: 0 <= k < BITS && c.bits[k] ==>
        k < 4 * |c.run.mem| && k < 4 * |pages| && PieceAt(c.run.mem, k) == PieceAt(pages, k)
  }

  /** A receiver in the middle of a transfer of img. */
  ghost predicate Receiving(c: Console, img: Image) {
    && c.role == Active && c.rec.have && c.rec.np == |c.run.mem| == |img.pages| <= MAX_PAGES && c.rec.vt == img.ticks
    && c.rec.attempt < ATTEMPTS && c.unique == Pmm.Count(c.bits) && Holds(c, img.pages)
    && (c.rec.gotDone ==> c.rec.regs == img.regs)
  }

  /** A packet of the sender's stream. */
  predicate Streamed(p: Packet, img: Image) {
    (p.Chunk? && p.page < |img.pages| && p.off % PIECE == 0 && p.off < PAGE
        && p.data == PieceAt(img.pages, p.page * 4 + p.off / PIECE))
    || p == Done(|img.pages|, img.regs)
  }

  lemma StreamedIsStreamed(img: Image, k: nat)
    requires k < |Stream(img)|
    ensures Streamed(Stream(img)[k], img)
  {}

  /** One chunk written: it holds the data, all others stay. */
  lemma PiecePut(mem: seq<Page>, page: nat, o: nat, data: Piece, k: nat)
    requires page < |mem| && o < 4 && k < 4 * |mem|
    ensures PieceAt(mem[page := Splice(mem[page], o * PIECE, data)], k) ==
              if k == page * 4 + o then data else PieceAt(mem, k)
  {
    var q: Page := Splice(mem[page], o * PIECE, data);
    assert k / 4 == page && k % 4 == o <==> k == page * 4 + o;
    if k / 4 == page {
      var r := PieceAt(mem[page := q], k);
      forall j | 0 <= j < PIECE ensures r[j] == if k % 4 == o then data[j] else PieceAt(mem, k)[j] {
        assert r[j] == q[k % 4 * PIECE + j];
      }
    }
  }

  /** A chunk leaves the memory as it is exactly if it brings what is there. */
  lemma SpliceSame(mem: seq<Page>, page: nat, off: nat, data: Piece)
    requires page < |mem| && off + PIECE <= PAGE
    ensures mem[page := Splice(mem[page], off, data)] == mem <==> mem[page][off..off + PIECE] == data
  {
    var q: Page := Splice(mem[page], off, data);
    assert q[off..off + PIECE] == data;
    if mem[page][off..off + PIECE] == data {
      forall j | 0 <= j < PAGE ensures q[j] == mem[page][j] {
        if off <= j < off + PIECE {
          assert mem[page][off..off + PIECE][j - off] == data[j - off];
        }
      }
      assert q == mem[page];
    } else {
      assert mem[page := q][page] == q;
    }
  }

  /** Any packet of the stream, in any order and any number of times, keeps a receiver sound. */
  lemma ReceivingKept(c: Console, img: Image, src: Addr, p: Packet)
    requires c.Sound() && Receiving(c, img) && Streamed(p, img)
    ensures Receiving(Input(c, src, p), img)
  {
    var d := Input(c, src, p);
    if p.Chunk? {
      var o := p.off / PIECE;
      var bit := p.page * 4 + o;
      assert p.off == o * PIECE && o < 4;
      Pmm.CountUpdate(c.bits, bit, true);
      assert d.run.mem == c.run.mem[p.page := Splice(c.run.mem[p.page], o * PIECE, p.data)];
      forall k | 0 <= k < BITS && d.bits[k]
        ensures k < 4 * |d.run.mem| && PieceAt(d.run.mem, k) == PieceAt(img.pages, k) {
        assert k == bit || c.bits[k];
        PiecePut(c.run.mem, p.page, o, p.data, k);
      }
    }
  }

  /** Packets of no stream leave a receiver alone. */
  lemma OtherPackets(c: Console, src: Addr, p: Packet)
    requires c.Sound() && c.role == Active && !p.Chunk? && !p.Done? && !p.ShortDone?
    ensures Input(c, src, p) == c
  {}

  // ---- Counting chunks ----

  /** A count that reaches the number of chunks there can be leaves none out. */
  lemma {:induction false} CountReaches(u: seq<bool>, need: nat)
    requires need <= |u| && Pmm.Count(u) >= need && forall k :: need <= k < |u| ==> !u[k]
    ensures forall k :: 0 <= k < need ==> u[k]
    decreases |u|
  {
    if |u| == need {
      Pmm.CountFull(u);
    } else {
      CountReaches(u[..|u| - 1], need);
      forall k | 0 <= k < need ensures u[k] { assert u[..|u| - 1][k]; }
    }
  }

  lemma {:induction false} CountAll(u: seq<bool>, need: nat)
    requires need <= |u| && (forall k :: 0 <= k < need ==> u[k]) && forall k :: need <= k < |u| ==> !u[k]
    ensures Pmm.Count(u) == need
    decreases |u|
  {
    if |u| == need {
      Pmm.CountFull(u);
    } else {
      CountAll(u[..|u| - 1], need);
    }
  }

  /** Pages that agree chunk by chunk are the same pages. */
  lemma SamePieces(a: seq<Page>, b: seq<Page>)
    requires |a| == |b| && forall k :: 0 <= k < 4 * |a| ==> PieceAt(a, k) == PieceAt(b, k)
    ensures a == b
  {
    forall i | 0 <= i < |a| ensures a[i] == b[i] {
      forall j | 0 <= j < PAGE ensures a[i][j] == b[i][j] {
        var k := i * 4 + j / PIECE;
        assert k / 4 == i && k % 4 == j / PIECE;
        assert PieceAt(a, k)[j % PIECE] == PieceAt(b, k)[j % PIECE];
      }
    }
  }

  /** The heart of the transfer: the counter reaches the need only when every chunk is here, and then the memory is
      the sender's. */
  lemma EnoughIsAll(c: Console, img: Image)
    requires Receiving(c, img)
    ensures c.unique >= c.Need() <==> forall k :: 0 <= k < c.Need() ==> c.bits[k]
    ensures c.unique >= c.Need() ==> c.run.mem == img.pages
  {
    var need := c.Need();
    if c.unique >= need {
      CountReaches(c.bits, need);
      SamePieces(c.run.mem, img.pages);
    } else if forall k :: 0 <= k < need ==> c.bits[k] {
      CountAll(c.bits, need);
    }
  }

  /** A game that resumes is the game that was frozen: every byte, the registers taken over, the clock. */
  lemma ResumesFrozen(c: Console, img: Image)
    requires c.Sound() && Receiving(c, img) && Commits(c)
    ensures var d := Close(c).0;
            d.run.mem == img.pages && d.run.regs.resume == img.regs.resume && d.run.regs.rest == c.run.regs.rest
                && d.run.ticks == img.ticks
            && d.role == Idle && Close(c).1 == To(c.rec.peer, Ack)
  {
    EnoughIsAll(c, img);
  }

  /** A fresh receiver holds nothing, and that soundly. */
  lemma OpenReceives(c: Console, img: Image)
    requires c.Sound() && c.role == Want && c.rec.np == |img.pages| && c.rec.vt == img.ticks && Open(c).0.role == Active
    ensures Receiving(Open(c).0, img)
  {
    CountNone(Open(c).0.bits);
  }

  lemma {:induction false} CountNone(u: seq<bool>)
    requires forall k :: 0 <= k < |u| ==> !u[k]
    ensures Pmm.Count(u) == 0
  {
    if u != [] { CountNone(u[..|u| - 1]); }
  }
}
