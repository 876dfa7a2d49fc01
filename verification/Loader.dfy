/** exec's loop over the PT_LOAD segments: pages are allocated, mapped, zeroed and filled from the file. */
module Loader {
  import opened Wrappers
  import opened Bytes
  import opened PageTables
  import P = Paging
  import Pmm

  /** A PT_LOAD program header; w and x are its PF_W and PF_X. */
  datatype Segment = Segment(vaddr: nat, memsz: nat, filesz: nat, offset: nat, w: bool, x: bool) {
    /** Write and execute rights as exec turns them into entry flags, on a CPU with no-execute. */
    function Rights(): Flags { Flags(true, w, true, false, !x) }

    /** The segment's place in the file exists. */
    predicate InFile(file: seq<byte>) { filesz <= memsz && offset + filesz <= |file| }

    /** The fields are uint64_t. */
    predicate Sized() { vaddr < P.TOP && memsz < P.TOP }

    /** The bound exec checks before it maps anything. The sum wraps at 2^64. */
    predicate Admitted() { P.APP_LO <= vaddr && (vaddr + memsz) % P.TOP <= P.APP_HI }

    predicate InWindow() { P.APP_LO <= vaddr && vaddr + memsz <= P.APP_HI }

    /** The sum wraps round to an address below the end of the window. */
    predicate Wraps() { P.APP_LO <= vaddr && P.TOP <= vaddr + memsz <= P.TOP + P.APP_HI }

    function FirstPage(): nat { vaddr / PAGE }

    function Pages(): nat { (memsz + vaddr % PAGE + (PAGE - 1)) / PAGE }

    /** The address is on one of its pages. */
    predicate HasAddress(x: nat) { FirstPage() <= x / PAGE < FirstPage() + Pages() }

    /** num_pages as exec computes it: this sum wraps as well. */
    function WrappedPages(): nat { (memsz + vaddr % PAGE + (PAGE - 1)) % P.TOP / PAGE }

    /** The page that turn p of exec's page loop maps. */
    function PageOf(p: nat): nat { (FirstPage() + p) * PAGE % P.TOP }
  }

  /** The check admits exactly the segments in the window, and those whose sum wraps. */
  lemma AdmittedExactly(s: Segment)
    requires s.Sized()
    ensures s.Admitted() <==> s.InWindow() || s.Wraps()
    ensures !(s.InWindow() && s.Wraps())
  {}

  /** For a segment in the window no sum wraps. */
  lemma WindowNoWrap(s: Segment, p: nat)
    requires s.InWindow() && p < s.Pages()
    ensures s.WrappedPages() == s.Pages() && s.PageOf(p) == (s.FirstPage() + p) * PAGE
  {}

  /** A segment that is let in by the wrap gets a page outside the window, unless the sum for the number of pages wraps
      as well and leaves none, or one page in the window. */
  lemma WrapsEscapes(s: Segment)
    requires s.Sized() && s.Wraps()
    ensures (exists p :: 0 <= p < s.WrappedPages() && !(P.APP_LO <= s.PageOf(p) < P.APP_HI)) <==>
              s.WrappedPages() > 0 && (s.vaddr >= P.APP_HI || s.memsz + s.vaddr % PAGE + (PAGE - 1) < P.TOP)
  {
    hide Segment.WrappedPages, Segment.PageOf;
    if s.vaddr >= P.APP_HI {
      FirstPageStays(s);
    } else if s.memsz + s.vaddr % PAGE + (PAGE - 1) < P.TOP {
      ManyPages(s);
      assert !(P.APP_LO <= s.PageOf(P.APP_HI / PAGE - s.FirstPage()) < P.APP_HI);
    } else {
      OnePage(s);
    }
  }

  lemma FirstPageStays(s: Segment)
    requires s.Sized()
    ensures s.PageOf(0) == s.FirstPage() * PAGE && s.FirstPage() * PAGE <= s.vaddr < s.FirstPage() * PAGE + PAGE
    ensures s.vaddr >= P.APP_HI ==> s.PageOf(0) >= P.APP_HI
  {}

  lemma ManyPages(s: Segment)
    requires s.Sized() && s.Wraps() && s.vaddr < P.APP_HI && s.memsz + s.vaddr % PAGE + (PAGE - 1) < P.TOP
    ensures s.FirstPage() <= P.APP_HI / PAGE < s.FirstPage() + s.WrappedPages()
    ensures s.PageOf(P.APP_HI / PAGE - s.FirstPage()) == P.APP_HI
  {}

  lemma OnePage(s: Segment)
    requires s.Sized() && s.Wraps() && s.vaddr < P.APP_HI && s.memsz + s.vaddr % PAGE + (PAGE - 1) >= P.TOP
    ensures s.WrappedPages() <= 1 && P.APP_LO <= s.PageOf(0) < P.APP_HI
  {
    FirstPageStays(s);
  }

  /** A header that is let in though it covers all memory from the window on: exec maps on and on behind it. */
  lemma WrappedHeader()
    ensures var s := Segment(P.APP_LO, P.TOP - P.APP_LO, 0, 0, false, false);
            s.Sized() && s.InFile([]) && s.Admitted() && !s.InWindow()
                && s.WrappedPages() == P.TOP / PAGE - P.APP_LO / PAGE
  {}

  /** What exec makes of the headers: 0 if all lie in the window, -2 if the first that does not is turned away, None if
      it is let in by the wrap. What exec does from there on is not followed. */
  function Verdict(segments: seq<Segment>): (r: Option<int>)
    ensures r == Some(0) <==> forall i :: 0 <= i < |segments| ==> segments[i].InWindow()
    ensures r == Some(-2) <==>
              exists i :: 0 <= i < |segments| && !segments[i].Admitted()
                  && forall j :: 0 <= j < i ==> segments[j].InWindow()
    ensures r == Some(0) || r == Some(-2) || r == None
  {
    if segments == [] then Some(0)
    else if segments[0].InWindow() then
      var rest := Verdict(segments[1..]);
      rest
    else if segments[0].Admitted() then None
    else Some(-2)
  }

  /** What the gABI puts at address a of a segment: the file's byte, or zero behind filesz. */
  function SegmentByte(s: Segment, file: seq<byte>, a: nat): (b: byte)
    requires s.InFile(file)
  {
    if s.vaddr <= a < s.vaddr + s.filesz then file[s.offset + (a - s.vaddr)] else 0
  }

  /** The page of bytes that belongs at address base. */
  function PageImage(s: Segment, file: seq<byte>, base: nat): (bs: seq<byte>)
    requires s.InFile(file)
    ensures |bs| == PAGE && forall j :: 0 <= j < PAGE ==> bs[j] == SegmentByte(s, file, base + j)
  {
    seq<byte>(PAGE, j requires 0 <= j < PAGE => SegmentByte(s, file, base + j))
  }

  /** The memset and memcpy of one page: the two copy cases meet the flat definition. */
  method FillPage(s: Segment, file: seq<byte>, current: nat) returns (bs: seq<byte>)
    requires s.InFile(file)
    ensures bs == PageImage(s, file, current)
  {
    bs := seq(PAGE, j => 0);
    ghost var image := PageImage(s, file, current);
    if current <= s.vaddr && current + PAGE > s.vaddr {
      var copyStart := s.vaddr - current;
      var avail := PAGE - copyStart;
      var amount := if s.filesz < avail then s.filesz else avail;
      var piece := file[s.offset..s.offset + amount];
      bs := Splice(bs, copyStart, piece);
      assert forall j :: 0 <= j < amount ==> piece[j] == image[copyStart + j];
    } else if current > s.vaddr && current < s.vaddr + s.filesz {
      var rel := current - s.vaddr;
      var avail := s.filesz - rel;
      var amount := if avail > PAGE then PAGE else avail;
      var piece := file[s.offset + rel..s.offset + rel + amount];
      bs := Splice(bs, 0, piece);
      assert forall j :: 0 <= j < amount ==> piece[j] == image[j];
    }
    assert bs == image;
  }

  /** A page that has been loaded: where, on which frame, with which rights, holding what. */
  datatype Loaded = Loaded(v: nat, frame: nat, flags: Flags, image: seq<byte>)

  type Ram = map<nat, seq<byte>>

  /** The user sees the page where it was put, with its rights and its bytes. */
  ghost predicate Shows(m: Memory, ram: Ram, root: nat, q: Loaded) {
    && (forall write :: Walk(m, root, q.v, 0, write) == LeafView(Pte(q.frame, q.flags), write))
    && q.frame in ram && ram[q.frame] == q.image
  }

  ghost predicate AllShow(m: Memory, ram: Ram, root: nat, qs: seq<Loaded>) {
    forall i :: 0 <= i < |qs| ==> Shows(m, ram, root, qs[i])
  }

  lemma {:induction false} SameIndicesSameWalk(m: Memory, t: nat, v: nat, b: nat, d: nat, write: bool)
    requires d < 4 && Indices(v) == Indices(b)
    ensures Walk(m, t, v, d, write) == Walk(m, t, b, d, write)
    decreases 4 - d
  {
    assert Indices(v)[d] == Indices(b)[d];
    if t in m && d < 3 {
      SameIndicesSameWalk(m, m[t][Index(v, d)].frame, v, b, d + 1, write);
    }
  }

  /** Different pages below 2^48 have different indices. */
  lemma OtherPage(v: nat, b: nat)
    requires v < 0x1_0000_0000_0000 && b < 0x1_0000_0000_0000 && v / PAGE != b / PAGE
    ensures Indices(v) != Indices(b)
  {
    P.SameIndices(v, b);
  }

  /** Mapping a fresh frame at a fresh page disturbs no page loaded before. */
  lemma LoadStep(m: Memory, n: Memory, ram: Ram, root: nat, qs: seq<Loaded>, q: Loaded)
    requires AllShow(m, ram, root, qs) && P.Mapped(m, n, root, q.v, Pte(q.frame, q.flags))
    requires forall i :: 0 <= i < |qs| ==> qs[i].frame != q.frame && Indices(qs[i].v) != Indices(q.v)
    ensures AllShow(n, ram[q.frame := q.image], root, qs + [q])
  {
    hide Walk, Indices, LeafView;
    var all := qs + [q];
    forall i | 0 <= i < |all| ensures Shows(n, ram[q.frame := q.image], root, all[i]) {
      if i < |qs| {
        assert Shows(m, ram, root, qs[i]) && all[i] == qs[i];
      }
    }
  }

  lemma LoadSkip(m: Memory, n: Memory, ram: Ram, root: nat, qs: seq<Loaded>, q: Loaded)
    requires AllShow(m, ram, root, qs) && P.SameView(m, n, root) && forall i :: 0 <= i < |qs| ==> qs[i].frame != q.frame
    ensures AllShow(n, ram[q.frame := q.image], root, qs)
  {
    hide Walk, LeafView;
    forall i | 0 <= i < |qs| ensures Shows(n, ram[q.frame := q.image], root, qs[i]) {
      assert Shows(m, ram, root, qs[i]);
    }
  }

  /** Either way, the pages loaded before are still seen. */
  lemma LoadEffect(m: Memory, n: Memory, ram: Ram, root: nat, qs: seq<Loaded>, q: Loaded, ok: bool)
    requires AllShow(m, ram, root, qs) && q.v < 0x1_0000_0000_0000
    requires if ok then P.Mapped(m, n, root, q.v, Pte(q.frame, q.flags)) else P.SameView(m, n, root)
    requires forall i :: 0 <= i < |qs| ==>
               qs[i].frame != q.frame && qs[i].v < 0x1_0000_0000_0000 && qs[i].v / PAGE != q.v / PAGE
    ensures AllShow(n, ram[q.frame := q.image], root, qs)
    ensures ok ==> AllShow(n, ram[q.frame := q.image], root, qs + [q])
  {
    hide Walk, Indices, LeafView, P.SameView, P.Mapped, Shows;
    if ok {
      forall i | 0 <= i < |qs| ensures Indices(qs[i].v) != Indices(q.v) {
        OtherPage(qs[i].v, q.v);
      }
      LoadStep(m, n, ram, root, qs, q);
      forall i | 0 <= i < |qs| ensures Shows(n, ram[q.frame := q.image], root, qs[i]) {
        assert Shows(n, ram[q.frame := q.image], root, (qs + [q])[i]);
      }
    } else {
      LoadSkip(m, n, ram, root, qs, q);
    }
  }

  // ---- What else is seen ----

  const CANONICAL: nat := 0x1_0000_0000_0000

  /** Outside the pages lo to hi - 1, the user sees in n what he saw in m. */
  ghost predicate Elsewhere(m: Memory, n: Memory, root: nat, lo: nat, hi: nat) {
    forall x: nat, write ::
      x < CANONICAL && !(lo <= x / PAGE < hi) ==> Walk(n, root, x, 0, write) == Walk(m, root, x, 0, write)
  }

  lemma ElsewhereMapped(m: Memory, n: Memory, root: nat, v: nat, e: Pte, ok: bool)
    requires v < CANONICAL && if ok then P.Mapped(m, n, root, v, e) else P.SameView(m, n, root)
    ensures Elsewhere(m, n, root, v / PAGE, v / PAGE + 1)
  {
    hide Walk, Indices, LeafView;
    forall x: nat, write | x < CANONICAL && x / PAGE != v / PAGE
      ensures Walk(n, root, x, 0, write) == Walk(m, root, x, 0, write)
    {
      OtherPage(x, v);
    }
  }

  lemma ElsewhereTwice(m: Memory, n: Memory, o: Memory, root: nat, lo: nat, mid: nat)
    requires lo <= mid && Elsewhere(m, n, root, lo, mid) && Elsewhere(n, o, root, mid, mid + 1)
    ensures Elsewhere(m, o, root, lo, mid + 1)
  {
    hide Walk;
  }

  lemma ElsewhereSame(m: Memory, root: nat, lo: nat)
    ensures Elsewhere(m, m, root, lo, lo)
  {}

  /** The user sees no page but those of the first k segments. */
  ghost predicate OnlyIn(m: Memory, root: nat, segments: seq<Segment>, k: nat)
    requires k <= |segments|
  {
    forall x: nat, write :: x < CANONICAL && Walk(m, root, x, 0, write).Some? ==>
      exists i :: 0 <= i < k && segments[i].HasAddress(x)
  }

  lemma OnlyInMore(m: Memory, n: Memory, root: nat, segments: seq<Segment>, k: nat)
    requires k < |segments| && OnlyIn(m, root, segments, k)
    requires Elsewhere(m, n, root, segments[k].FirstPage(), segments[k].FirstPage() + segments[k].Pages())
    ensures OnlyIn(n, root, segments, k + 1)
  {
    hide Walk, Segment.FirstPage, Segment.Pages;
    forall x: nat, write | x < CANONICAL && Walk(n, root, x, 0, write).Some?
      ensures exists i :: 0 <= i < k + 1 && segments[i].HasAddress(x)
    {
      if !segments[k].HasAddress(x) {
        assert Walk(m, root, x, 0, write).Some?;
      }
    }
  }

  lemma NothingSeen(m: Memory, root: nat, segments: seq<Segment>)
    requires forall v, write :: Walk(m, root, v, 0, write) == None
    ensures OnlyIn(m, root, segments, 0)
  {}

  lemma OnlyInAll(m: Memory, root: nat, segments: seq<Segment>, k: nat)
    requires k <= |segments| && OnlyIn(m, root, segments, k)
    ensures OnlyIn(m, root, segments, |segments|)
  {
    hide Walk, Segment.HasAddress;
  }

  // ---- Whole segments ----

  /** Page p of segment s has been loaded. */
  ghost predicate HasPage(qs: seq<Loaded>, s: Segment, file: seq<byte>, p: nat)
    requires s.InFile(file)
  {
    exists i :: 0 <= i < |qs| && qs[i].v == (s.FirstPage() + p) * PAGE && qs[i].flags == s.Rights()
        && qs[i].image == PageImage(s, file, qs[i].v)
  }

  ghost predicate Covers(qs: seq<Loaded>, s: Segment, file: seq<byte>)
    requires s.InFile(file)
  {
    forall p :: 0 <= p < s.Pages() ==> HasPage(qs, s, file, p)
  }

  lemma CoversMore(qs: seq<Loaded>, more: seq<Loaded>, s: Segment, file: seq<byte>)
    requires s.InFile(file) && Covers(qs, s, file)
    ensures Covers(qs + more, s, file)
  {
    forall p | 0 <= p < s.Pages() ensures HasPage(qs + more, s, file, p) {
      assert HasPage(qs, s, file, p);
      var i :| 0 <= i < |qs| && qs[i].v == (s.FirstPage() + p) * PAGE && qs[i].flags == s.Rights()
          && qs[i].image == PageImage(s, file, qs[i].v);
      assert (qs + more)[i] == qs[i];
    }
  }

  /** A user access at a goes to a byte b of memory, and may write it exactly if w and execute it exactly if x. */
  ghost predicate SeesByte(m: Memory, ram: Ram, root: nat, a: nat, b: byte, w: bool, x: bool) {
    && Walk(m, root, a, 0, false).Some?
    && (Walk(m, root, a, 0, true).Some? <==> w)
    && Cpu(m, root, a, 0) == Some(PageTables.Rights(w, x))
    && var l := Walk(m, root, a, 0, false).value;
       !l.huge && !l.e.flags.ps && l.e.frame in ram && |ram[l.e.frame]| == PAGE && ram[l.e.frame][a % PAGE] == b
  }

  /** The System V gABI's picture of a loaded segment: the file's bytes, then zeros. */
  ghost predicate SegmentLoaded(m: Memory, ram: Ram, root: nat, s: Segment, file: seq<byte>)
    requires s.InFile(file)
  {
    forall a :: s.vaddr <= a < s.vaddr + s.memsz ==> SeesByte(m, ram, root, a, SegmentByte(s, file, a), s.w, s.x)
  }

  /** Every address of a segment lies on one of its pages. */
  lemma PageOfByte(s: Segment, a: nat)
    requires s.vaddr <= a < s.vaddr + s.memsz
    ensures s.FirstPage() <= a / PAGE < s.FirstPage() + s.Pages()
  {}

  lemma PageBase(n: nat)
    ensures n * PAGE / PAGE == n && n * PAGE % PAGE == 0
  {}

  lemma ByteSeen(m: Memory, ram: Ram, kroot: nat, ks: set<nat>, tree: Tree, root: nat, q: Loaded, s: Segment,
                 file: seq<byte>, a: nat)
    requires s.InFile(file) && Shows(m, ram, root, q) && q.v == a / PAGE * PAGE && q.flags == s.Rights()
             && q.image == PageImage(s, file, q.v)
    requires TreeOk(m, kroot, ks, tree, root)
    ensures SeesByte(m, ram, root, a, SegmentByte(s, file, a), s.w, s.x)
  {
    PageBase(a / PAGE);
    P.PageIndices(q.v, a);
    SameIndicesSameWalk(m, root, q.v, a, 0, false);
    SameIndicesSameWalk(m, root, q.v, a, 0, true);
    CpuAgrees(m, kroot, ks, tree, root, root, a, 0);
    assert q.v + a % PAGE == a;
  }

  lemma CoveredIsLoaded(m: Memory, ram: Ram, kroot: nat, ks: set<nat>, tree: Tree, root: nat, qs: seq<Loaded>,
                        s: Segment, file: seq<byte>)
    requires TreeOk(m, kroot, ks, tree, root) && s.InFile(file) && AllShow(m, ram, root, qs) && Covers(qs, s, file)
    ensures SegmentLoaded(m, ram, root, s, file)
  {
    forall a | s.vaddr <= a < s.vaddr + s.memsz ensures SeesByte(m, ram, root, a, SegmentByte(s, file, a), s.w, s.x) {
      PageOfByte(s, a);
      assert HasPage(qs, s, file, a / PAGE - s.FirstPage());
      var i :| 0 <= i < |qs| && qs[i].v == a / PAGE * PAGE && qs[i].flags == s.Rights()
          && qs[i].image == PageImage(s, file, qs[i].v);
      ByteSeen(m, ram, kroot, ks, tree, root, qs[i], s, file, a);
    }
  }

  /** Any page of the app window may be mapped. */
  ghost predicate WindowReserved(m: Memory, kroot: nat, used: seq<bool>) {
    forall v :: P.APP_LO <= v < P.APP_HI ==> P.Reserved(m, kroot, used, v)
  }

  /** pmm_init sees to that: it keeps [4 MiB, 8 MiB) back, and the kernel maps memory one to one. */
  lemma WindowFromPmm(m: Memory, kroot: nat, used: seq<bool>)
    requires forall v :: P.APP_LO <= v < P.APP_HI ==> P.Identity(m, kroot, v)
    requires forall k :: Pmm.WINDOW / PAGE <= k < 2 * Pmm.WINDOW / PAGE && k < |used| ==> used[k]
    ensures WindowReserved(m, kroot, used)
  {
    hide P.Identity, P.Reserved;
    forall v | P.APP_LO <= v < P.APP_HI ensures P.Reserved(m, kroot, used, v) {
      P.WindowIsReserved(m, kroot, used, v);
    }
  }

  lemma WindowKept(m: Memory, n: Memory, kroot: nat, ks: set<nat>, tree: Tree, root: nat, used: seq<bool>,
                   more: seq<bool>)
    requires TreeOk(m, kroot, ks, tree, root) && P.OnlyTree(m, n, tree) && P.UsedGrows(used, more)
             && WindowReserved(m, kroot, used)
    ensures WindowReserved(n, kroot, more)
  {
    forall v | P.APP_LO <= v < P.APP_HI ensures P.Reserved(n, kroot, more, v) {
      P.ReservedKept(m, n, kroot, ks, tree, root, used, more, v);
    }
  }

  lemma PagesInWindow(s: Segment, p: nat)
    requires s.InWindow() && p < s.Pages()
    ensures P.APP_LO <= (s.FirstPage() + p) * PAGE < P.APP_HI
  {}

  ghost predicate PageDisjoint(s: Segment, t: Segment) {
    s.FirstPage() + s.Pages() <= t.FirstPage() || t.FirstPage() + t.Pages() <= s.FirstPage()
  }

  /** The pages loaded so far stay clear of segment t. */
  ghost predicate ClearOf(qs: seq<Loaded>, t: Segment) {
    forall i :: 0 <= i < |qs| ==>
        qs[i].v < 0x1_0000_0000_0000 && !(t.FirstPage() <= qs[i].v / PAGE < t.FirstPage() + t.Pages())
  }

  lemma WindowAt(m: Memory, kroot: nat, used: seq<bool>, v: nat)
    requires WindowReserved(m, kroot, used) && P.APP_LO <= v < P.APP_HI
    ensures P.Reserved(m, kroot, used, v)
  {}

  ghost predicate IsPage(q: Loaded, s: Segment, file: seq<byte>, p: nat)
    requires s.InFile(file)
  {
    q.v == (s.FirstPage() + p) * PAGE && q.flags == s.Rights() && q.image == PageImage(s, file, q.v)
  }

  /** The pages from index n on are among the first p of segment s. */
  ghost predicate Among(all: seq<Loaded>, n: nat, s: Segment, p: nat) {
    forall i :: n <= i < |all| ==> all[i].v < 0x1_0000_0000_0000 && s.FirstPage() <= all[i].v / PAGE < s.FirstPage() + p
  }

  lemma PagesApart(all: seq<Loaded>, qs: seq<Loaded>, s: Segment, p: nat)
    requires qs <= all && ClearOf(qs, s) && p < s.Pages() && Among(all, |qs|, s, p)
    ensures forall i :: 0 <= i < |all| ==> all[i].v < 0x1_0000_0000_0000 && all[i].v / PAGE != s.FirstPage() + p
  {
    forall i | 0 <= i < |all| ensures all[i].v < 0x1_0000_0000_0000 && all[i].v / PAGE != s.FirstPage() + p {
      if i < |qs| {
        assert all[i] == qs[i];
      }
    }
  }

  lemma AmongMore(all: seq<Loaded>, n: nat, s: Segment, file: seq<byte>, p: nat, q: Loaded)
    requires n <= |all| && Among(all, n, s, p) && s.InFile(file) && s.InWindow() && p < s.Pages()
             && IsPage(q, s, file, p)
    ensures Among(all + [q], n, s, p + 1)
  {
    PageBase(s.FirstPage() + p);
    PagesInWindow(s, p);
  }

  lemma PageAdded(before: seq<Loaded>, q: Loaded, s: Segment, file: seq<byte>, p: nat)
    requires s.InFile(file) && IsPage(q, s, file, p)
    ensures HasPage(before + [q], s, file, p)
    ensures forall j :: HasPage(before, s, file, j) ==> HasPage(before + [q], s, file, j)
  {
    var all := before + [q];
    assert all[|before|] == q;
    forall j | HasPage(before, s, file, j) ensures HasPage(all, s, file, j) {
      var i :| 0 <= i < |before| && before[i].v == (s.FirstPage() + j) * PAGE && before[i].flags == s.Rights()
          && before[i].image == PageImage(s, file, before[i].v);
      assert all[i] == before[i];
    }
  }

  /** The frames of the loaded pages are in use. */
  ghost predicate Placed(qs: seq<Loaded>, used: seq<bool>) {
    forall i :: 0 <= i < |qs| ==> 0 < qs[i].frame < |used| && used[qs[i].frame]
  }

  lemma PlacedMore(qs: seq<Loaded>, q: Loaded, used: seq<bool>, more: seq<bool>)
    requires Placed(qs, used) && P.UsedGrows(used, more)
    ensures Placed(qs, more)
    ensures 0 < q.frame < |used| && used[q.frame] ==> Placed(qs + [q], more)
  {
    forall i | 0 <= i < |qs| ensures 0 < qs[i].frame < |more| && more[qs[i].frame] {
      assert used[qs[i].frame];
    }
  }

  lemma PlacedApart(qs: seq<Loaded>, used: seq<bool>, phys: nat)
    requires Placed(qs, used) && (phys < |used| && phys != 0 ==> !used[phys])
    ensures forall i :: 0 <= i < |qs| ==> qs[i].frame != phys
  {}

  /** What a run of the loader may do to tables and pages: only tree's tables change, and only free pages are taken. */
  ghost predicate Moved(m: Memory, n: Memory, tree: Tree, u: Tree, used: seq<bool>, more: seq<bool>) {
    P.OnlyTree(m, n, tree) && P.Grown(m, tree, u) && P.UsedGrows(used, more)
  }

  lemma MovedTwice(m: Memory, n: Memory, o: Memory, tree: Tree, u: Tree, w: Tree, a: seq<bool>, b: seq<bool>,
                   c: seq<bool>)
    requires Moved(m, n, tree, u, a, b) && Moved(n, o, u, w, b, c)
    ensures Moved(m, o, tree, w, a, c) && (P.Full(b) ==> P.Full(c))
  {
    P.StepOnly(m, n, o, tree, u, w);
    P.UsedChain(a, b, c);
  }

  lemma Still(m: Memory, tree: Tree, used: seq<bool>)
    ensures Moved(m, m, tree, tree, used, used)
  {}

  ghost predicate AllInFile(segments: seq<Segment>, file: seq<byte>) {
    forall i :: 0 <= i < |segments| ==> segments[i].InFile(file)
  }

  ghost predicate AllDisjoint(segments: seq<Segment>) {
    forall i, j :: 0 <= i < j < |segments| ==> PageDisjoint(segments[i], segments[j])
  }

  lemma ClearAtFirst(segments: seq<Segment>)
    ensures forall j :: 0 <= j < |segments| ==> ClearOf([], segments[j])
  {}

  lemma StillClear(segments: seq<Segment>, i: nat, before: seq<Loaded>, all: seq<Loaded>)
    requires i < |segments| && AllDisjoint(segments) && before <= all
             && Among(all, |before|, segments[i], segments[i].Pages())
    requires forall j :: i <= j < |segments| ==> ClearOf(before, segments[j])
    ensures forall j :: i < j < |segments| ==> ClearOf(all, segments[j])
  {
    hide Segment.FirstPage, Segment.Pages;
    forall j | i < j < |segments| ensures ClearOf(all, segments[j]) {
      assert ClearOf(before, segments[j]) && PageDisjoint(segments[i], segments[j]);
      forall k | 0 <= k < |before| ensures all[k] == before[k] {}
    }
  }

  lemma StillCovered(segments: seq<Segment>, i: nat, file: seq<byte>, before: seq<Loaded>, all: seq<Loaded>)
    requires i < |segments| && AllInFile(segments, file) && before <= all
    requires forall j :: 0 <= j < i ==> Covers(before, segments[j], file)
    ensures forall j :: 0 <= j < i ==> Covers(all, segments[j], file)
  {
    hide Covers;
    forall j | 0 <= j < i ensures Covers(all, segments[j], file) {
      CoversMore(before, all[|before|..], segments[j], file);
      assert all == before + all[|before|..];
    }
  }

  lemma AllLoaded(m: Memory, ram: Ram, kroot: nat, ks: set<nat>, tree: Tree, root: nat, all: seq<Loaded>,
                  segments: seq<Segment>, file: seq<byte>)
    requires TreeOk(m, kroot, ks, tree, root) && AllInFile(segments, file) && AllShow(m, ram, root, all)
    requires forall i :: 0 <= i < |segments| ==> Covers(all, segments[i], file)
    ensures forall i :: 0 <= i < |segments| ==> SegmentLoaded(m, ram, root, segments[i], file)
  {
    hide Covers, AllShow, SegmentLoaded;
    forall i | 0 <= i < |segments| ensures SegmentLoaded(m, ram, root, segments[i], file) {
      CoveredIsLoaded(m, ram, kroot, ks, tree, root, all, segments[i], file);
    }
  }

  lemma WindowCloned(m: Memory, n: Memory, kroot: nat, ks: set<nat>, used: seq<bool>, more: seq<bool>)
    requires KernelOk(m, kroot, ks) && kroot in ks && P.OnlyTree(m, n, map[]) && P.UsedGrows(used, more)
             && WindowReserved(m, kroot, used)
    ensures WindowReserved(n, kroot, more)
  {
    forall v | P.APP_LO <= v < P.APP_HI ensures P.Reserved(n, kroot, more, v) {
      KernelTableFrame(m, n, kroot, ks, Indices(v)[..2]);
      assert P.Reserved(m, kroot, used, v);
      assert KernelTable(m, kroot, Indices(v)[..2]).Some? ==> KernelTable(m, kroot, Indices(v)[..2]).value in ks;
    }
  }

  lemma VerdictStep(segments: seq<Segment>, i: nat)
    requires i < |segments|
    ensures segments[i].InWindow() ==> segments[i].Admitted() && Verdict(segments[i..]) == Verdict(segments[i + 1..])
    ensures !segments[i].InWindow() ==> Verdict(segments[i..]) == if segments[i].Admitted() then None else Some(-2)
  {
    assert segments[i..][1..] == segments[i + 1..];
    if segments[i].InWindow() {
      assert segments[i..][0] == segments[i];
    }
  }

  class Loader {
    const vm: P.Paging
    var ram: Ram

    constructor (vm: P.Paging)
      ensures this.vm == vm && ram == map[]
    {
      this.vm := vm;
      ram := map[];
    }

    /** pmm_alloc_page for a page at v: a frame no loaded page stands on, or 0. */
    method TakeFrame(v: nat, ghost qs: seq<Loaded>) returns (phys: nat)
      requires vm.Valid() && P.Reserved(vm.mem, vm.kroot, vm.pmm.Used(), v) && Placed(qs, vm.pmm.Used())
      modifies vm.pmm, vm.pmm.bitmap
      ensures vm.Valid() && P.Reserved(vm.mem, vm.kroot, vm.pmm.Used(), v)
              && P.UsedGrows(old(vm.pmm.Used()), vm.pmm.Used())
      ensures Placed(qs, vm.pmm.Used()) && forall i :: 0 <= i < |qs| ==> qs[i].frame != phys
      ensures if phys == 0 then P.Full(vm.pmm.Used()) else phys < |vm.pmm.Used()| && vm.pmm.Used()[phys]
      ensures vm.pmm.refused == old(vm.pmm.refused) + if phys == 0 then 1 else 0
    {
      hide KernelOk, Placed;
      ghost var used := vm.pmm.Used();
      phys := vm.pmm.AllocPage();
      PlacedApart(qs, used, phys);
      PlacedMore(qs, Loaded(v, 0, Flags(true, true, true, true, true), []), used, vm.pmm.Used());
    }

    /** One turn of exec's page loop. ok tells whether both allocations went through; the source does not look, and
        with no page left it maps and fills page 0. */
    method LoadPage(pml4: nat, s: Segment, file: seq<byte>, v: nat, ghost tree: Tree, ghost qs: seq<Loaded>)
      returns (ghost ok: bool, ghost u: Tree, ghost q: Loaded)
      requires vm.Valid() && TreeOk(vm.mem, vm.kroot, vm.ks, tree, pml4)
               && P.Reserved(vm.mem, vm.kroot, vm.pmm.Used(), v)
      requires s.InFile(file) && v < 0x1_0000_0000_0000
      requires AllShow(vm.mem, ram, pml4, qs) && Placed(qs, vm.pmm.Used())
      requires forall i :: 0 <= i < |qs| ==> qs[i].v < 0x1_0000_0000_0000 && qs[i].v / PAGE != v / PAGE
      modifies this, vm, vm.pmm, vm.pmm.bitmap
      ensures vm.Valid() && TreeOk(vm.mem, vm.kroot, vm.ks, u, pml4)
      ensures Moved(old(vm.mem), vm.mem, tree, u, old(vm.pmm.Used()), vm.pmm.Used()) && (!ok ==> P.Full(vm.pmm.Used()))
      ensures ok ==> q.v == v && q.flags == s.Rights() && q.image == PageImage(s, file, v)
      ensures AllShow(vm.mem, ram, pml4, if ok then qs + [q] else qs)
              && Placed(if ok then qs + [q] else qs, vm.pmm.Used())
      ensures Elsewhere(old(vm.mem), vm.mem, pml4, v / PAGE, v / PAGE + 1)
      ensures vm.pmm.refused >= old(vm.pmm.refused) && (ok <==> vm.pmm.refused == old(vm.pmm.refused))
    {
      hide TreeOk, KernelOk, P.OnlyTree, P.Grown, Walk, Indices, LeafView, KernelTable, P.SameView, P.Mapped, AllShow,
           Shows, PageImage, Placed, P.Reserved, P.UsedGrows, Elsewhere;
      u, q := tree, Loaded(v, 0, s.Rights(), []);
      ghost var m, used := vm.mem, vm.pmm.Used();
      P.Unmoved(m, tree, pml4);
      var phys := TakeFrame(v, qs);
      ghost var used1 := vm.pmm.Used();
      ok, u := vm.MapPageTo(pml4, v, phys, s.Rights(), tree);
      var bs := FillPage(s, file, v);
      q := Loaded(v, phys, s.Rights(), bs);
      LoadEffect(m, vm.mem, ram, pml4, qs, q, ok);
      ElsewhereMapped(m, vm.mem, pml4, v, Pte(phys, s.Rights()), ok);
      PlacedMore(qs, q, used1, vm.pmm.Used());
      P.UsedChain(used, used1, vm.pmm.Used());
      if phys == 0 {
        P.FullStays(used1, vm.pmm.Used());
      }
      ok := ok && phys != 0;
      ram := ram[phys := bs];
    }

    /** The address space is sound, the whole app window may be mapped, and the pages loaded so far are seen. */
    ghost predicate Good(pml4: nat, tree: Tree, qs: seq<Loaded>)
      reads this, vm, vm.pmm, vm.pmm.bitmap
    {
      && vm.Valid() && TreeOk(vm.mem, vm.kroot, vm.ks, tree, pml4)
      && WindowReserved(vm.mem, vm.kroot, vm.pmm.Used()) && AllShow(vm.mem, ram, pml4, qs) && Placed(qs, vm.pmm.Used())
    }

    lemma GoodSized(pml4: nat, tree: Tree, qs: seq<Loaded>)
      requires Good(pml4, tree, qs)
      ensures vm.pmm.Sized()
    {}

    /** One turn of the page loop, within a segment that lies in the window. */
    method LoadNext(pml4: nat, s: Segment, file: seq<byte>, p: nat, ghost tree: Tree, ghost qs: seq<Loaded>)
      returns (ghost ok: bool, ghost u: Tree, ghost q: Loaded)
      requires Good(pml4, tree, qs) && s.InFile(file) && s.InWindow() && p < s.Pages()
      requires forall i :: 0 <= i < |qs| ==> qs[i].v < 0x1_0000_0000_0000 && qs[i].v / PAGE != s.FirstPage() + p
      modifies this, vm, vm.pmm, vm.pmm.bitmap
      ensures Good(pml4, u, if ok then qs + [q] else qs) && (ok ==> IsPage(q, s, file, p))
      ensures Elsewhere(old(vm.mem), vm.mem, pml4, s.FirstPage() + p, s.FirstPage() + p + 1)
      ensures vm.pmm.refused >= old(vm.pmm.refused) && (ok <==> vm.pmm.refused == old(vm.pmm.refused))
      ensures Moved(old(vm.mem), vm.mem, tree, u, old(vm.pmm.Used()), vm.pmm.Used()) && (!ok ==> P.Full(vm.pmm.Used()))
    {
      hide TreeOk, KernelOk, P.OnlyTree, P.Grown, Walk, Indices, P.Reserved, AllShow, PageImage, P.UsedGrows,
           WindowReserved, Elsewhere;
      ghost var m, used := vm.mem, vm.pmm.Used();
      var v := (s.FirstPage() + p) * PAGE;
      PageBase(s.FirstPage() + p);
      PagesInWindow(s, p);
      WindowAt(m, vm.kroot, used, v);
      ok, u, q := LoadPage(pml4, s, file, v, tree, qs);
      WindowKept(m, vm.mem, vm.kroot, vm.ks, tree, pml4, used, vm.pmm.Used());
    }

    /** exec's page loop for one segment in the window. */
    method LoadSegment(pml4: nat, s: Segment, file: seq<byte>, ghost tree: Tree, ghost qs: seq<Loaded>)
      returns (ghost ok: bool, ghost u: Tree, ghost all: seq<Loaded>)
      requires Good(pml4, tree, qs) && s.InFile(file) && s.InWindow() && ClearOf(qs, s)
      modifies this, vm, vm.pmm, vm.pmm.bitmap
      ensures Good(pml4, u, all) && qs <= all && Among(all, |qs|, s, s.Pages()) && (ok ==> Covers(all, s, file))
      ensures Elsewhere(old(vm.mem), vm.mem, pml4, s.FirstPage(), s.FirstPage() + s.Pages())
      ensures vm.pmm.refused >= old(vm.pmm.refused) && (ok <==> vm.pmm.refused == old(vm.pmm.refused))
      ensures Moved(old(vm.mem), vm.mem, tree, u, old(vm.pmm.Used()), vm.pmm.Used()) && (!ok ==> P.Full(vm.pmm.Used()))
    {
      hide Good, IsPage, HasPage, ClearOf, Moved, P.Full, Elsewhere;
      GoodSized(pml4, tree, qs);
      ghost var m, used := vm.mem, vm.pmm.Used();
      ok, u, all := true, tree, qs;
      Still(m, tree, used);
      ElsewhereSame(m, pml4, s.FirstPage());
      var p := 0;
      while p < s.Pages()
        invariant p <= s.Pages() && qs <= all && Good(pml4, u, all) && Among(all, |qs|, s, p)
        invariant Moved(m, vm.mem, tree, u, used, vm.pmm.Used()) && (!ok ==> P.Full(vm.pmm.Used()))
        invariant vm.pmm.refused >= old(vm.pmm.refused) && (ok <==> vm.pmm.refused == old(vm.pmm.refused))
        invariant ok ==> forall j :: 0 <= j < p ==> HasPage(all, s, file, j)
        invariant Elsewhere(m, vm.mem, pml4, s.FirstPage(), s.FirstPage() + p)
      {
        PagesApart(all, qs, s, p);
        ghost var before, more, q, m1, u1, used1 := all, false, Loaded(0, 0, s.Rights(), []), vm.mem, u, vm.pmm.Used();
        more, u, q := LoadNext(pml4, s, file, p, u1, before);
        MovedTwice(m, m1, vm.mem, tree, u1, u, used, used1, vm.pmm.Used());
        ElsewhereTwice(m, m1, vm.mem, pml4, s.FirstPage(), s.FirstPage() + p);
        all := if more then before + [q] else before;
        if more {
          PageAdded(before, q, s, file, p);
          AmongMore(before, |qs|, s, file, p, q);
        }
        ok := ok && more;
        p := p + 1;
      }
    }

    /** exec's loop over the program headers. */
    method LoadAll(pml4: nat, segments: seq<Segment>, file: seq<byte>, ghost tree: Tree)
      returns (r: Option<int>, ghost u: Tree, ghost all: seq<Loaded>)
      requires Good(pml4, tree, []) && AllInFile(segments, file) && AllDisjoint(segments)
      requires OnlyIn(vm.mem, pml4, segments, 0)
      modifies this, vm, vm.pmm, vm.pmm.bitmap
      ensures Good(pml4, u, all) && Moved(old(vm.mem), vm.mem, tree, u, old(vm.pmm.Used()), vm.pmm.Used())
      ensures r == Verdict(segments) && OnlyIn(vm.mem, pml4, segments, |segments|)
      ensures vm.pmm.refused >= old(vm.pmm.refused) && (vm.pmm.refused > old(vm.pmm.refused) ==> P.Full(vm.pmm.Used()))
      ensures r == Some(0) && vm.pmm.refused == old(vm.pmm.refused) ==>
                forall i :: 0 <= i < |segments| ==> Covers(all, segments[i], file)
    {
      hide Good, Covers, Among, ClearOf, Moved, P.Full, PageDisjoint, Segment.InWindow, Segment.InFile, OnlyIn,
           Elsewhere, Verdict, Segment.Admitted, Segment.FirstPage, Segment.Pages;
      GoodSized(pml4, tree, []);
      ghost var m, used, ok := vm.mem, vm.pmm.Used(), true;
      u, all := tree, [];
      Still(m, tree, used);
      ClearAtFirst(segments);
      var i := 0;
      while i < |segments|
        invariant i <= |segments| && Good(pml4, u, all)
        invariant (forall j :: 0 <= j < i ==> segments[j].InWindow()) && Verdict(segments) == Verdict(segments[i..])
        invariant forall j :: i <= j < |segments| ==> ClearOf(all, segments[j])
        invariant OnlyIn(vm.mem, pml4, segments, i)
        invariant Moved(m, vm.mem, tree, u, used, vm.pmm.Used()) && (!ok ==> P.Full(vm.pmm.Used()))
        invariant vm.pmm.refused >= old(vm.pmm.refused) && (ok <==> vm.pmm.refused == old(vm.pmm.refused))
        invariant ok ==> forall j :: 0 <= j < i ==> Covers(all, segments[j], file)
      {
        VerdictStep(segments, i);
        OnlyInAll(vm.mem, pml4, segments, i);
        if !segments[i].Admitted() {
          return Some(-2), u, all;
        }
        if !segments[i].InWindow() {
          return None, u, all;
        }
        ghost var more, before, m1, u1, used1 := false, all, vm.mem, u, vm.pmm.Used();
        more, u, all := LoadSegment(pml4, segments[i], file, u1, before);
        MovedTwice(m, m1, vm.mem, tree, u1, u, used, used1, vm.pmm.Used());
        StillClear(segments, i, before, all);
        OnlyInMore(m1, vm.mem, pml4, segments, i);
        if ok {
          StillCovered(segments, i, file, before, all);
        }
        ok := ok && more;
        i := i + 1;
      }
      r := Some(0);
    }

    /** A fresh address space, in which nothing is loaded yet. */
    method NewSpace() returns (root: nat, ghost tree: Tree)
      requires vm.Valid() && WindowReserved(vm.mem, vm.kroot, vm.pmm.Used())
      modifies vm`mem, vm.pmm, vm.pmm.bitmap
      ensures vm.Valid() && P.OnlyTree(old(vm.mem), vm.mem, map[]) && P.UsedGrows(old(vm.pmm.Used()), vm.pmm.Used())
      ensures vm.pmm.refused == old(vm.pmm.refused) + if root == 0 then 1 else 0
      ensures if root == 0 then P.Full(vm.pmm.Used())
              else Good(root, tree, []) && tree.Keys == {root} && root !in old(vm.mem)
      ensures root != 0 ==> forall v, write :: Walk(vm.mem, root, v, 0, write) == None
    {
      hide TreeOk, KernelOk, Walk, Indices, P.Reserved, WindowReserved, P.UsedGrows, P.OnlyTree;
      ghost var m, used := vm.mem, vm.pmm.Used();
      root, tree := vm.CloneKernel();
      if root == 0 {
        return;
      }
      assert KernelOk(m, vm.kroot, vm.ks) && vm.kroot in vm.ks;
      WindowCloned(m, vm.mem, vm.kroot, vm.ks, used, vm.pmm.Used());
    }

    /** exec up to the user's stack: a clone of the kernel's PML4, then every PT_LOAD segment, up to one that is let in
        by a wrapped sum. Unless a request for a page was refused, which happens only when memory is full, the address
        space shows the System V gABI's picture of every segment; it never shows anything else, and no table that was
        there before is touched. */
    method Exec(segments: seq<Segment>, file: seq<byte>) returns (r: Option<int>, root: nat)
      requires vm.Valid() && WindowReserved(vm.mem, vm.kroot, vm.pmm.Used())
      requires AllInFile(segments, file) && AllDisjoint(segments)
      modifies this, vm, vm.pmm, vm.pmm.bitmap
      ensures vm.Valid() && P.OnlyTree(old(vm.mem), vm.mem, map[]) && P.UsedGrows(old(vm.pmm.Used()), vm.pmm.Used())
      ensures r == Some(-3) || (r == Verdict(segments) && OnlyIn(vm.mem, root, segments, |segments|))
      ensures vm.pmm.refused >= old(vm.pmm.refused) && (vm.pmm.refused > old(vm.pmm.refused) ==> P.Full(vm.pmm.Used()))
      ensures r == Some(-3) ==> vm.pmm.refused > old(vm.pmm.refused)
      ensures r == Some(0) && vm.pmm.refused == old(vm.pmm.refused) ==>
        forall i :: 0 <= i < |segments| ==> SegmentLoaded(vm.mem, ram, root, segments[i], file)
    {
      hide TreeOk, KernelOk, Walk, Indices, P.Reserved, WindowReserved, Covers, SegmentLoaded, Segment.InWindow,
           Segment.InFile, PageDisjoint, P.Grown, OnlyIn;
      ghost var m, used := vm.mem, vm.pmm.Used();
      ghost var tree;
      root, tree := NewSpace();
      if root == 0 {
        return Some(-3), 0;
      }
      NothingSeen(vm.mem, root, segments);
      ghost var m1, used1, u, all := vm.mem, vm.pmm.Used(), tree, [];
      r, u, all := LoadAll(root, segments, file, tree);
      P.UsedChain(used, used1, vm.pmm.Used());
      if r == Some(0) && vm.pmm.refused == old(vm.pmm.refused) {
        AllLoaded(vm.mem, ram, vm.kroot, vm.ks, u, root, all, segments, file);
      }
    }
  }
}
