/** The physical memory manager: one bit per 4 KiB page, and a count of the bits that are set. */
module Pmm {
  import opened Bytes

  const MIB: nat := 0x10_0000
  const WINDOW: nat := 0x40_0000       // the user-overlay window is [4 MiB, 8 MiB)

  /** 1 << k. */
  function Mask(k: nat): (m: bv8)
    requires k < 8
    ensures m != 0
  {
    if k == 0 then 0x01 else if k == 1 then 0x02 else if k == 2 then 0x04 else if k == 3 then 0x08
    else if k == 4 then 0x10 else if k == 5 then 0x20 else if k == 6 then 0x40 else 0x80
  }

  function Bit(b: bv8, k: nat): bool
    requires k < 8
  {
    b & Mask(k) != 0
  }

  function WithBit(b: bv8, k: nat): (r: bv8)
    requires k < 8
    ensures forall j :: 0 <= j < 8 ==> Bit(r, j) == (j == k || Bit(b, j))
  {
    b | Mask(k)
  }

  function WithoutBit(b: bv8, k: nat): (r: bv8)
    requires k < 8
    ensures forall j :: 0 <= j < 8 ==> Bit(r, j) == (j != k && Bit(b, j))
  {
    b & !Mask(k)
  }

  /** How many pages of a map are in use. */
  function Count(u: seq<bool>): (n: nat)
    ensures n <= |u|
  {
    if u == [] then 0 else Count(u[..|u| - 1]) + if u[|u| - 1] then 1 else 0
  }

  lemma {:induction false} CountUpdate(u: seq<bool>, i: nat, x: bool)
    requires i < |u|
    ensures Count(u[i := x]) == Count(u) + (if x then 1 else 0) - (if u[i] then 1 else 0)
    decreases |u|
  {
    var last := |u| - 1;
    if i < last {
      assert u[i := x][..last] == u[..last][i := x];
      CountUpdate(u[..last], i, x);
    } else {
      assert u[i := x][..last] == u[..last];
    }
  }

  /** A page count is full exactly when no page is free. */
  lemma {:induction false} CountFull(u: seq<bool>)
    ensures Count(u) == |u| <==> forall i :: 0 <= i < |u| ==> u[i]
  {
    if u != [] {
      var front := u[..|u| - 1];
      CountFull(front);
      if forall i :: 0 <= i < |front| ==> front[i] {
        assert forall i :: 0 <= i < |front| ==> u[i] == front[i];
      } else {
        var i :| 0 <= i < |front| && !front[i];
        assert !u[i];
      }
    }
  }

  /** u with the pages from a to b set to x. */
  function Marked(u: seq<bool>, a: nat, b: nat, x: bool): (r: seq<bool>)
    ensures |r| == |u|
    ensures forall i :: 0 <= i < |u| ==> r[i] == if a <= i < b then x else u[i]
  {
    seq(|u|, i requires 0 <= i < |u| => if a <= i < b then x else u[i])
  }

  /** count pages from s on are free. */
  ghost predicate FreeRun(u: seq<bool>, s: nat, count: nat) {
    s + count <= |u| && forall i :: s <= i < s + count ==> !u[i]
  }

  lemma NoRunAcross(u: seq<bool>, i: nat, n: nat, count: nat)
    requires i < |u| && u[i] && n <= i && n < count && forall s: nat :: s < i - n ==> !FreeRun(u, s, count)
    ensures forall s: nat :: s <= i ==> !FreeRun(u, s, count)
  {
    forall s: nat | s <= i ensures !FreeRun(u, s, count) {
      if i - n <= s && s + count <= |u| { assert s <= i < s + count; }
    }
  }

  lemma NoRunLeft(u: seq<bool>, i: nat, n: nat, count: nat)
    requires i == |u| && n <= i && n < count && forall s: nat :: s < i - n ==> !FreeRun(u, s, count)
    ensures forall s: nat :: !FreeRun(u, s, count)
  {}

  lemma RunFound(u: seq<bool>, s: nat, count: nat)
    requires s + count <= |u| && forall i :: s <= i < s + count ==> !u[i]
    ensures FreeRun(u, s, count)
  {}

  datatype Region = Region(base: nat, length: nat, available: bool)

  /** Step 4 of pmm_init frees page p for region r: it is available, and what lies below 1 MiB is cut off. */
  predicate Frees(r: Region, p: nat) {
    && r.available
    && if r.base >= MIB then r.base / PAGE <= p < r.base / PAGE + r.length / PAGE
       else r.base + r.length > MIB && MIB / PAGE <= p < MIB / PAGE + (r.length - (MIB - r.base)) / PAGE
  }

  ghost predicate FreedBy(regions: seq<Region>, n: nat, p: nat)
    requires n <= |regions|
  {
    exists i :: 0 <= i < n && Frees(regions[i], p)
  }

  class Allocator {
    const bitmap: array<bv8>
    const total: nat
    var usedPages: nat
    ghost var refused: nat            // requests for a page that found none

    ghost predicate Sized() { total <= 8 * bitmap.Length }

    ghost function Used(): (u: seq<bool>)
      reads bitmap
      requires Sized()
      ensures |u| == total
    {
      seq(total, i requires 0 <= i < total reads bitmap requires Sized() => Bit(bitmap[i / 8], i % 8))
    }

    ghost predicate Valid()
      reads this, bitmap
    {
      Sized() && usedPages == Count(Used())
    }

    method TestPage(page: nat) returns (b: bool)
      requires Sized() && page < total
      ensures b == Used()[page]
    {
      b := bitmap[page / 8] & Mask(page % 8) != 0;
    }

    /** src/pmm.c: pmm_set_page. */
    method SetPage(page: nat)
      requires Sized() && page < total
      modifies bitmap
      ensures Used() == old(Used())[page := true]
    {
      hide Bit, WithBit;
      bitmap[page / 8] := WithBit(bitmap[page / 8], page % 8);
      forall p | 0 <= p < total ensures Used()[p] == (p == page || old(Used())[p]) {
        assert p == page <==> p / 8 == page / 8 && p % 8 == page % 8;
      }
    }

    /** src/pmm.c: pmm_clear_page. */
    method ClearPage(page: nat)
      requires Sized() && page < total
      modifies bitmap
      ensures Used() == old(Used())[page := false]
    {
      hide Bit, WithoutBit;
      bitmap[page / 8] := WithoutBit(bitmap[page / 8], page % 8);
      forall p | 0 <= p < total ensures Used()[p] == (p != page && old(Used())[p]) {
        assert p == page <==> p / 8 == page / 8 && p % 8 == page % 8;
      }
    }

    /** src/pmm.c: pmm_alloc_page. The lowest free page; 0 when there is none. Page 0 itself is never free. */
    method AllocPage() returns (page: nat)
      requires Valid() && total > 0 && Used()[0]
      modifies this`usedPages, this`refused, bitmap
      ensures Valid() && refused == old(refused) + if page == 0 then 1 else 0
      ensures page == 0 ==> Used() == old(Used()) && forall i :: 0 <= i < total ==> Used()[i]
      ensures page != 0 ==> page < total && !old(Used())[page] && Used() == old(Used())[page := true]
      ensures page != 0 ==> forall i :: 0 <= i < page ==> old(Used())[i]
    {
      var i := 0;
      while i < total
        invariant i <= total && Valid() && Used() == old(Used()) && refused == old(refused)
        invariant forall j :: 0 <= j < i ==> old(Used())[j]
      {
        var t := TestPage(i);
        if !t {
          assert i != 0;
          Flip(i, true);
          return i;
        }
        i := i + 1;
      }
      page := 0;
      refused := refused + 1;
    }

    /** src/pmm.c: pmm_alloc_pages, from its loop on. The lowest run of count free pages; 0 when there is none. */
    method AllocRun(count: nat) returns (page: nat)
      requires Valid() && total > 0 && Used()[0] && count > 1
      modifies this`usedPages, bitmap
      ensures Valid()
      ensures page == 0 ==> Used() == old(Used())
      ensures page == 0 ==> forall s: nat :: !FreeRun(old(Used()), s, count)
      ensures page != 0 ==> FreeRun(old(Used()), page, count) && Used() == Marked(old(Used()), page, page + count, true)
      ensures page != 0 ==> forall s: nat :: s < page ==> !FreeRun(old(Used()), s, count)
    {
      hide Used, Count, Bit, FreeRun, Marked, Sized;
      ghost var u := Used();
      var runStart, runLen, i := 0, 0, 0;
      while i < total
        invariant i <= total && Valid() && Used() == u && runLen < count
        invariant runLen <= i && (runLen > 0 ==> runStart == i - runLen)
        invariant forall j :: i - runLen <= j < i ==> !u[j]
        invariant runLen < i ==> u[i - runLen - 1]
        invariant forall s: nat :: s < i - runLen ==> !FreeRun(u, s, count)
      {
        var t := TestPage(i);
        if !t {
          if runLen == 0 {
            runStart := i;
          }
          runLen := runLen + 1;
          if runLen == count {
            RunFound(u, runStart, count);
            MarkRun(runStart, count);
            return runStart;
          }
        } else {
          NoRunAcross(u, i, runLen, count);
          runLen := 0;
        }
        i := i + 1;
      }
      NoRunLeft(u, i, runLen, count);
      page := 0;
    }

    /** src/pmm.c: pmm_alloc_pages. */
    method AllocPages(count: nat) returns (page: nat)
      requires Valid() && total > 0 && Used()[0]
      modifies this`usedPages, this`refused, bitmap
      ensures Valid()
      ensures page == 0 ==> Used() == old(Used())
      ensures page == 0 && count > 0 ==> forall s: nat :: !FreeRun(old(Used()), s, count)
      ensures page != 0 ==>
                count > 0 && FreeRun(old(Used()), page, count)
                    && Used() == Marked(old(Used()), page, page + count, true)
      ensures page != 0 ==> forall s: nat :: s < page ==> !FreeRun(old(Used()), s, count)
    {
      hide Count, Bit;
      if count == 0 {
        return 0;
      }
      if count == 1 {
        ghost var u := Used();
        page := AllocPage();
        forall s: nat | FreeRun(u, s, 1) ensures !u[s] {}
        return;
      }
      page := AllocRun(count);
    }

    /** Take a run of free pages. */
    method MarkRun(start: nat, count: nat)
      requires Valid() && start + count <= total && forall i :: start <= i < start + count ==> !Used()[i]
      modifies this`usedPages, bitmap
      ensures Valid() && Used() == Marked(old(Used()), start, start + count, true)
    {
      var p := start;
      while p < start + count
        invariant start <= p <= start + count && Valid() && Used() == Marked(old(Used()), start, p, true)
      {
        Flip(p, true);
        p := p + 1;
      }
    }

    /** src/pmm.c: pmm_free_page, by page number. */
    method FreePage(page: nat)
      requires Valid()
      modifies this`usedPages, bitmap
      ensures Valid()
      ensures Used() == if page == 0 || page >= total then old(Used()) else old(Used())[page := false]
    {
      if page >= total || page == 0 {
        return;
      }
      var t := TestPage(page);
      if t {
        Flip(page, false);
      }
    }

    lemma CountPositive(u: seq<bool>, i: nat)
      requires i < |u| && u[i]
      ensures Count(u) > 0
    {
      CountUpdate(u, i, false);
    }

    /** src/pmm.c: pmm_mark_region_used (x) and pmm_mark_region_free (!x). Used regions are rounded up, free ones
        down. */
    method MarkRegion(base: nat, length: nat, x: bool)
      requires Valid()
      modifies this`usedPages, bitmap
      ensures Valid()
      ensures Used() == Marked(old(Used()), base / PAGE, base / PAGE + PagesOf(length, x), x)
    {
      hide Used, Count, Bit;
      var start := base / PAGE;
      var count := PagesOf(length, x);
      var i := 0;
      while i < count && start + i < total
        invariant i <= count && Valid() && (i == 0 || start + i <= total)
        invariant Used() == Marked(old(Used()), start, start + i, x)
      {
        var t := TestPage(start + i);
        if t != x {
          Flip(start + i, x);
        }
        i := i + 1;
      }
    }

    /** Turn one page's bit over, and keep the count. */
    method Flip(page: nat, x: bool)
      requires Valid() && page < total && Used()[page] != x
      modifies this`usedPages, bitmap
      ensures Valid() && Used() == old(Used())[page := x]
    {
      CountUpdate(Used(), page, x);
      if x {
        SetPage(page);
        usedPages := usedPages + 1;
      } else {
        CountPositive(Used(), page);
        ClearPage(page);
        usedPages := usedPages - 1;
      }
    }

    /** src/pmm.c: pmm_init, from step 3 on. Whatever the memory map says, page 0, everything from 1 MiB to the
        end of the bitmap, and the user-overlay window are in use afterwards. */
    constructor (bitmap: array<bv8>, total: nat, regions: seq<Region>, bitmapEnd: nat)
      requires 0 < total <= 8 * bitmap.Length && bitmapEnd >= MIB
      modifies bitmap
      ensures Valid() && this.bitmap == bitmap && this.total == total
      ensures forall p :: 0 <= p < total && p < MIB / PAGE ==> Used()[p]
      ensures forall p :: MIB / PAGE <= p < total && p * PAGE <= bitmapEnd ==> Used()[p]
      ensures forall p :: WINDOW / PAGE <= p < total && p < 2 * WINDOW / PAGE ==> Used()[p]
      ensures forall p :: 0 <= p < total ==>
        (!Used()[p] <==> FreedBy(regions, |regions|, p) && !(WINDOW / PAGE <= p < 2 * WINDOW / PAGE)
                         && p >= MIB / PAGE + PagesOf(bitmapEnd + PAGE - MIB, true))
    {
      this.bitmap := bitmap;
      this.total := total;
      usedPages := total;
      new;
      hide Used, Count, Bit;
      FillBitmap();
      FreeRegions(regions);
      MarkRegion(MIB, bitmapEnd + PAGE - MIB, true);
      var t := TestPage(0);
      if !t {
        assert false;       // nothing below 1 MiB was ever freed
      }
      MarkRegion(WINDOW, WINDOW, true);
    }

    /** Step 3 of pmm_init: every page starts out in use. */
    method FillBitmap()
      requires Sized() && usedPages == total
      modifies bitmap
      ensures Valid() && forall p :: 0 <= p < total ==> Used()[p]
    {
      var i := 0;
      while i < bitmap.Length
        invariant i <= bitmap.Length && forall j :: 0 <= j < i ==> bitmap[j] == 0xFF
      {
        bitmap[i] := 0xFF;
        i := i + 1;
      }
      AllSet();
    }

    /** Step 4 of pmm_init: the available regions become free, except below 1 MiB. */
    method FreeRegions(regions: seq<Region>)
      requires Valid() && forall p :: 0 <= p < total && p < MIB / PAGE ==> Used()[p]
      modifies this`usedPages, bitmap
      ensures Valid() && forall p :: 0 <= p < total && p < MIB / PAGE ==> Used()[p]
      ensures forall p :: 0 <= p < total ==> (Used()[p] <==> old(Used())[p] && !FreedBy(regions, |regions|, p))
    {
      hide Used, Count, Bit;
      var i := 0;
      while i < |regions|
        invariant i <= |regions| && Valid() && forall p :: 0 <= p < total && p < MIB / PAGE ==> Used()[p]
        invariant forall p :: 0 <= p < total ==> (Used()[p] <==> old(Used())[p] && !FreedBy(regions, i, p))
      {
        assert forall p :: FreedBy(regions, i + 1, p) <==> FreedBy(regions, i, p) || Frees(regions[i], p);
        if regions[i].available {
          var base, length := regions[i].base, regions[i].length;
          if base >= MIB {
            MarkRegion(base, length, false);
          } else if base + length > MIB {
            MarkRegion(MIB, length - (MIB - base), false);
          }
        }
        i := i + 1;
      }
    }

    lemma AllSet()
      requires Sized() && forall j :: 0 <= j < bitmap.Length ==> bitmap[j] == 0xFF
      ensures forall p :: 0 <= p < total ==> Used()[p]
      ensures Count(Used()) == total
    {
      forall p | 0 <= p < total ensures Used()[p] {
        assert 0xFF as bv8 & Mask(p % 8) == Mask(p % 8);
      }
      CountFull(Used());
    }
  }

  function PagesOf(length: nat, x: bool): nat {
    length / PAGE + if x && length % PAGE != 0 then 1 else 0
  }
}
