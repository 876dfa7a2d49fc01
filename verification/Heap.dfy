/** The kernel heap with its block headers inside the memory it hands out. */
module Heap {
  import opened Wrappers
  import opened HeapBlocks

  /** A pointer to word o of the heap. */
  function Ptr(base: nat, o: nat): (p: nat) { base + WORD_BYTES * o }

  /** Block i's header: its size in bytes, its free flag, and a pointer to the next header, or 0. */
  ghost predicate Headed(m: seq<nat>, base: nat, bs: seq<Block>, i: nat)
    requires i < |bs|
  {
    var o := Off(bs, i);
    && o + HEADER + bs[i].words <= |m|
    && m[o] == WORD_BYTES * bs[i].words
    && m[o + 1] == (if bs[i].free then 1 else 0)
    && m[o + 2] == if i + 1 < |bs| then Ptr(base, Off(bs, i + 1)) else 0
  }

  /** Memory m is tiled by the blocks bs. */
  ghost predicate Laid(m: seq<nat>, base: nat, bs: seq<Block>) {
    && bs != [] && Off(bs, |bs|) == |m|
    && forall i :: 0 <= i < |bs| ==> Headed(m, base, bs, i)
  }

  /** Word w lies in the payload of the block of x.1 words at x.0. */
  ghost predicate InPayload(x: (nat, nat), w: nat) { x.0 + HEADER <= w < x.0 + HEADER + x.1 }

  /** The words of the payloads are the same in both memories. */
  ghost predicate SamePayloads(m: seq<nat>, n: seq<nat>, live: set<(nat, nat)>) {
    forall x, w: nat :: x in live && InPayload(x, w) ==> w < |m| && w < |n| && n[w] == m[w]
  }

  /** Every word outside block i is the same. */
  ghost predicate OnlyBlock(m: seq<nat>, n: seq<nat>, bs: seq<Block>, i: nat)
    requires i < |bs|
  {
    |n| == |m| && forall w :: 0 <= w < |m| && !(Off(bs, i) <= w < Off(bs, i) + HEADER + bs[i].words) ==> n[w] == m[w]
  }

  /** Changes inside one free block disturb no payload. */
  lemma FreeBlockOnly(m: seq<nat>, n: seq<nat>, base: nat, bs: seq<Block>, i: nat)
    requires Laid(m, base, bs) && i < |bs| && bs[i].free && OnlyBlock(m, n, bs, i)
    ensures SamePayloads(m, n, Live(bs))
  {
    forall x, w: nat | x in Live(bs) && InPayload(x, w) ensures w < |m| && w < |n| && n[w] == m[w] {
      var j :| 0 <= j < |bs| && !bs[j].free && x == (Off(bs, j), bs[j].words);
      assert Headed(m, base, bs, j);
      BlocksApart(bs, i, j, w);
    }
  }

  /** A header outside block i, and not right before it, survives changes inside block i. */
  lemma HeaderKept(m: seq<nat>, n: seq<nat>, base: nat, bs: seq<Block>, i: nat, j: nat)
    requires i < |bs| && j < |bs| && j != i && Headed(m, base, bs, j) && OnlyBlock(m, n, bs, i)
    ensures Headed(n, base, bs, j)
  {
    var o := Off(bs, j);
    BlocksApart(bs, i, j, o);
    BlocksApart(bs, i, j, o + 1);
    BlocksApart(bs, i, j, o + 2);
  }

  /** A header that moves to another place in the list, with the same block behind the same pointer. */
  lemma HeaderMoved(n: seq<nat>, base: nat, bs: seq<Block>, j: nat, r: seq<Block>, k: nat)
    requires j < |bs| && k < |r| && Headed(n, base, bs, j) && r[k] == bs[j] && Off(r, k) == Off(bs, j)
    requires (j + 1 < |bs|) == (k + 1 < |r|) && (j + 1 < |bs| ==> Off(r, k + 1) == Off(bs, j + 1))
    ensures Headed(n, base, r, k)
  {}

  /** The headers after a split. */
  lemma LaidTake(m: seq<nat>, n: seq<nat>, base: nat, bs: seq<Block>, i: nat, need: nat)
    requires Laid(m, base, bs) && i < |bs| && Fits(bs[i], need) && OnlyBlock(m, n, bs, i) && |n| == |m|
    requires var o, s := Off(bs, i), Splits(bs[i], need);
             && o + HEADER + bs[i].words <= |n|
             && n[o] == WORD_BYTES * (if s then need else bs[i].words) && n[o + 1] == 0
             && (if s then
                   var p := o + HEADER + need;
                   n[o + 2] == Ptr(base, p) && n[p] == WORD_BYTES * (bs[i].words - need - HEADER) && n[p + 1] == 1
                       && n[p + 2] == m[o + 2]
                 else n[o + 2] == m[o + 2])
    ensures Laid(n, base, Take(bs, i, need))
  {
    hide Take, Off, Splits, OnlyBlock;
    var r, d := Take(bs, i, need), if Splits(bs[i], need) then 1 else 0;
    TakeBlocks(bs, i, need);
    TakeOffs(bs, i, need);
    OffNext(r, i);
    assert Headed(m, base, bs, i);
    forall k | 0 <= k < |r| ensures Headed(n, base, r, k) {
      if k < i {
        HeaderKept(m, n, base, bs, i, k);
        HeaderMoved(n, base, bs, k, r, k);
      } else if k > i + d {
        HeaderKept(m, n, base, bs, i, k - d);
        HeaderMoved(n, base, bs, k - d, r, k);
      }
    }
    assert Off(r, |bs| + d) == Off(bs, |bs|);
  }

  /** The headers after a merge. */
  lemma LaidMerge(m: seq<nat>, base: nat, bs: seq<Block>, i: nat)
    requires Laid(m, base, bs) && Mergeable(bs, i)
    ensures Headed(m, base, bs, i) && Headed(m, base, bs, i + 1) && Off(bs, i) + 2 < |m|
    ensures var o, p := Off(bs, i), Off(bs, i + 1);
            var n := m[o := m[o] + WORD_BYTES * HEADER + m[p]][o + 2 := m[p + 2]];
            Laid(n, base, Merge(bs, i)) && OnlyBlock(m, n, bs, i)
  {
    hide Merge, Off, OnlyBlock;
    var r := Merge(bs, i);
    MergeOffs(bs, i);
    assert Headed(m, base, bs, i) && Headed(m, base, bs, i + 1);
    var o, p := Off(bs, i), Off(bs, i + 1);
    var n := m[o := m[o] + WORD_BYTES * HEADER + m[p]][o + 2 := m[p + 2]];
    OffNext(bs, i);
    HeaderOnly(m, n, bs, i);
    forall k | 0 <= k < |r| ensures Headed(n, base, r, k) {
      if k < i {
        HeaderKept(m, n, base, bs, i, k);
        HeaderMoved(n, base, bs, k, r, k);
      } else if k > i {
        HeaderKept(m, n, base, bs, i, k + 1);
        HeaderMoved(n, base, bs, k + 1, r, k);
      }
    }
  }

  lemma HeaderOnly(m: seq<nat>, n: seq<nat>, bs: seq<Block>, i: nat)
    requires i < |bs| && |n| == |m|
             && forall w :: 0 <= w < |m| && !(Off(bs, i) <= w < Off(bs, i) + HEADER) ==> n[w] == m[w]
    ensures OnlyBlock(m, n, bs, i)
  {}

  class Heap {
    const mem: array<nat>
    const base: nat
    ghost var blocks: seq<Block>

    ghost predicate Valid()
      reads this, mem
    {
      base > 0 && base % 4096 == 0 && Laid(mem[..], base, blocks) && Tight(blocks)
    }

    /** heap_init, on so many contiguous pages at base. */
    constructor (base: nat, pages: nat)
      requires base > 0 && base % 4096 == 0 && pages > 0
      ensures Valid() && fresh(mem) && mem.Length == 512 * pages && blocks == [Block(512 * pages - HEADER, true)]
    {
      this.base := base;
      mem := new nat[512 * pages](i => 0);
      blocks := [Block(512 * pages - HEADER, true)];
      new;
      mem[0], mem[1], mem[2] := WORD_BYTES * (512 * pages - HEADER), 1, 0;
      OffNext(blocks, 0);
    }

    /** kmalloc. It fails exactly when nothing is asked for or no free block holds the rounded size, takes the first
        block that does, keeps what it cannot use free, and touches no payload in use. */
    method KMalloc(size: nat) returns (p: nat, ghost i: nat)
      requires Valid()
      modifies this`blocks, mem
      ensures Valid()
      ensures p == 0 <==> size == 0 || FirstFit(old(blocks), AlignUp(size) / WORD_BYTES, 0) == None
      ensures p == 0 <==> size == 0 || forall j :: 0 <= j < |old(blocks)| ==> !Serves(old(blocks)[j], AlignUp(size))
      ensures p == 0 ==> blocks == old(blocks)
      ensures p != 0 ==> i < |old(blocks)| && Serves(old(blocks)[i], AlignUp(size))
      ensures p != 0 ==> forall j :: 0 <= j < i ==> !Serves(old(blocks)[j], AlignUp(size))
      ensures p != 0 ==>
                FirstFit(old(blocks), AlignUp(size) / WORD_BYTES, 0) == Some(i)
                    && blocks == Take(old(blocks), i, AlignUp(size) / WORD_BYTES)
      ensures p != 0 ==> i < |blocks| && p == Ptr(base, Off(blocks, i) + HEADER)
      ensures p != 0 ==> HandedOut(old(blocks), i, AlignUp(size) / WORD_BYTES, blocks)
      ensures SamePayloads(old(mem[..]), mem[..], Live(old(blocks)))
    {
      hide Take, Tight, Live, Laid, Headed, Off, SamePayloads, OnlyBlock, AlignUp, FirstFit, HandedOut;
      ghost var m := mem[..];
      SameMemory(m, base, blocks);
      AlignUpWords(size);
      FirstServes(blocks, AlignUp(size));
      p, i := 0, 0;
      if size == 0 {
        return;
      }
      var need := AlignUp(size) / WORD_BYTES;
      var cur := base;
      FirstHeader(m, base, blocks);
      while cur != 0
        invariant i <= |blocks| && mem[..] == m && blocks == old(blocks)
        invariant cur == if i < |blocks| then Ptr(base, Off(blocks, i)) else 0
        invariant FirstFit(blocks, need, 0) == FirstFit(blocks, need, i)
        decreases |blocks| - i
      {
        HeaderAt(m, base, blocks, i);
        FirstFitStep(blocks, need, i);
        var o := (cur - base) / WORD_BYTES;
        if mem[o + 1] != 0 && mem[o] >= WORD_BYTES * need {
          p := cur + WORD_BYTES * HEADER;
          TakeTight(blocks, i, need);
          TakeHandsOut(blocks, i, need);
          TakeKeepsPlace(blocks, i, need);
          Carve(o, need, i);
          return;
        }
        cur := mem[o + 2];
        i := i + 1;
      }
    }

    /** The chosen block is split if enough remains, and marked used. */
    method Carve(o: nat, need: nat, ghost i: nat)
      requires Laid(mem[..], base, blocks) && i < |blocks| && Fits(blocks[i], need) && o == Off(blocks, i)
      modifies this`blocks, mem
      ensures blocks == Take(old(blocks), i, need) && Laid(mem[..], base, blocks)
      ensures SamePayloads(old(mem[..]), mem[..], Live(old(blocks)))
    {
      hide Take, Live, Laid, Off;
      ghost var m := mem[..];
      HeaderAt(m, base, blocks, i);
      if mem[o] > WORD_BYTES * need + WORD_BYTES * HEADER + 16 {
        var n := o + HEADER + need;
        mem[n] := mem[o] - WORD_BYTES * need - WORD_BYTES * HEADER;
        mem[n + 1] := 1;
        mem[n + 2] := mem[o + 2];
        mem[o] := WORD_BYTES * need;
        mem[o + 2] := Ptr(base, n);
      }
      mem[o + 1] := 0;
      assert OnlyBlock(m, mem[..], blocks, i);
      FreeBlockOnly(m, mem[..], base, blocks, i);
      LaidTake(m, mem[..], base, blocks, i, need);
      blocks := Take(blocks, i, need);
    }

    /** kfree of a pointer that kmalloc returned and nobody freed since; block i is where it points. It gives up that
        block alone, merges free neighbours, and touches no payload still in use. */
    method KFree(p: nat, ghost i: nat)
      requires Valid()
      requires p != 0 ==> i < |blocks| && !blocks[i].free && p == Ptr(base, Off(blocks, i) + HEADER)
      modifies this`blocks, mem
      ensures Valid()
      ensures blocks == if p == 0 then old(blocks) else Freed(old(blocks), i)
      ensures SamePayloads(old(mem[..]), mem[..], Live(blocks))
    {
      hide Tight, Live, Laid, Headed, Off, SamePayloads, OnlyBlock, Coalesce, Merge;
      ghost var m := mem[..];
      SameMemory(m, base, blocks);
      if p == 0 {
        return;
      }
      ghost var bs := blocks[i := blocks[i].(free := true)];
      FreedLive(blocks, i);
      MarkFree((p - base) / WORD_BYTES - HEADER, i);
      var cur := base;
      FirstHeader(mem[..], base, bs);
      ghost var k := 0;
      while cur != 0
        invariant k <= |blocks| && Laid(mem[..], base, blocks) && Coalesce(blocks, k) == Coalesce(bs, 0)
        invariant cur == if k < |blocks| then Ptr(base, Off(blocks, k)) else 0
        invariant SamePayloads(m, mem[..], Live(blocks))
        decreases |blocks| - k
      {
        HeaderAt(mem[..], base, blocks, k);
        CoalesceStep(blocks, k);
        var o := (cur - base) / WORD_BYTES;
        var next := mem[o + 2];
        if k + 1 < |blocks| {
          HeaderAt(mem[..], base, blocks, k + 1);
        }
        if mem[o + 1] != 0 && next != 0 && mem[(next - base) / WORD_BYTES + 1] != 0 {
          Swallow(o, (next - base) / WORD_BYTES, k, m);
        } else {
          cur := next;
          k := k + 1;
        }
      }
      CoalesceEnd(blocks);
    }

    /** header->free = 1. */
    method MarkFree(o: nat, ghost i: nat)
      requires Laid(mem[..], base, blocks) && i < |blocks| && o == Off(blocks, i)
      modifies this`blocks, mem
      ensures blocks == old(blocks)[i := old(blocks)[i].(free := true)] && Laid(mem[..], base, blocks)
      ensures SamePayloads(old(mem[..]), mem[..], Live(blocks))
    {
      hide Off, Live, SamePayloads;
      ghost var m, a := mem[..], blocks;
      HeaderAt(m, base, blocks, i);
      mem[o + 1] := 1;
      blocks := blocks[i := blocks[i].(free := true)];
      LaidMarked(m, mem[..], base, a, i);
    }

    /** One merge of the pass. */
    method Swallow(o: nat, q: nat, ghost k: nat, ghost m0: seq<nat>)
      requires Laid(mem[..], base, blocks) && Mergeable(blocks, k) && o == Off(blocks, k) && q == Off(blocks, k + 1)
      requires SamePayloads(m0, mem[..], Live(blocks))
      modifies this`blocks, mem
      ensures blocks == Merge(old(blocks), k) && Laid(mem[..], base, blocks) && SamePayloads(m0, mem[..], Live(blocks))
      ensures Off(blocks, k) == Off(old(blocks), k)
    {
      hide Off, Live, Laid, Merge, SamePayloads, OnlyBlock, Headed;
      ghost var m, a := mem[..], blocks;
      LaidMerge(m, base, a, k);
      HeaderAt(m, base, a, k);
      HeaderAt(m, base, a, k + 1);
      OffNext(a, k);
      mem[o] := mem[o] + WORD_BYTES * HEADER + mem[q];
      mem[o + 2] := mem[q + 2];
      assert mem[..] == m[o := m[o] + WORD_BYTES * HEADER + m[q]][o + 2 := m[q + 2]];
      FreeBlockOnly(m, mem[..], base, a, k);
      MergeLive(a, k);
      MergeOffs(a, k);
      PayloadsTwice(m0, m, mem[..], Live(a));
      blocks := Merge(blocks, k);
    }
  }

  /** Every payload is 8-aligned, and 16-aligned exactly if its header is not. */
  lemma Alignment(base: nat, o: nat)
    requires base % 4096 == 0
    ensures Ptr(base, o + HEADER) % 8 == 0 && (Ptr(base, o + HEADER) % 16 == 0 <==> Ptr(base, o) % 16 != 0)
  {
    var k, h := base / 4096, o / 2;
    if o % 2 == 0 {
      Rest(Ptr(base, o), 256 * k + h, 0);
      Rest(Ptr(base, o + HEADER), 256 * k + h + 1, 8);
    } else {
      Rest(Ptr(base, o), 256 * k + h, 8);
      Rest(Ptr(base, o + HEADER), 256 * k + h + 2, 0);
    }
  }

  lemma {:induction false} Rest(p: nat, q: nat, r: nat)
    requires p == 16 * q + r && (r == 0 || r == 8)
    ensures p % 16 == r && p % 8 == 0
    decreases q
  {
    if q > 0 {
      Rest(p - 16, q - 1, r);
      assert p % 16 == (p - 16) % 16 && p % 8 == (p - 16) % 8;
    }
  }

  /** Already the first allocation is not 16-aligned. */
  lemma FirstIsMisaligned(base: nat)
    requires base % 4096 == 0
    ensures Ptr(base, HEADER) % 16 == 8
  {}

  lemma SameMemory(m: seq<nat>, base: nat, bs: seq<Block>)
    requires Laid(m, base, bs)
    ensures SamePayloads(m, m, Live(bs))
  {
    forall x, w: nat | x in Live(bs) && InPayload(x, w) ensures w < |m| {
      var j :| 0 <= j < |bs| && !bs[j].free && x == (Off(bs, j), bs[j].words);
      assert Headed(m, base, bs, j);
    }
  }

  lemma PayloadsTwice(m: seq<nat>, n: seq<nat>, o: seq<nat>, live: set<(nat, nat)>)
    requires SamePayloads(m, n, live) && SamePayloads(n, o, live)
    ensures SamePayloads(m, o, live)
  {}

  lemma FirstHeader(m: seq<nat>, base: nat, bs: seq<Block>)
    requires Laid(m, base, bs)
    ensures |bs| > 0 && Ptr(base, Off(bs, 0)) == base
  {}

  /** What the loops read at block i. */
  lemma HeaderAt(m: seq<nat>, base: nat, bs: seq<Block>, i: nat)
    requires Laid(m, base, bs) && i < |bs|
    ensures Headed(m, base, bs, i)
    ensures var o := Off(bs, i);
            && o + HEADER + bs[i].words <= |m| && (Ptr(base, o) - base) / WORD_BYTES == o
            && m[o] == WORD_BYTES * bs[i].words && (m[o + 1] != 0 <==> bs[i].free)
            && m[o + 2] == if i + 1 < |bs| then Ptr(base, Off(bs, i + 1)) else 0
  {
    assert Headed(m, base, bs, i);
  }

  lemma TakeKeepsPlace(bs: seq<Block>, i: nat, need: nat)
    requires i < |bs| && Fits(bs[i], need)
    ensures i < |Take(bs, i, need)| && Off(Take(bs, i, need), i) == Off(bs, i)
  {
    TakeOffs(bs, i, need);
  }

  lemma FirstFitStep(bs: seq<Block>, need: nat, i: nat)
    requires i < |bs|
    ensures FirstFit(bs, need, i) == if Fits(bs[i], need) then Some(i) else FirstFit(bs, need, i + 1)
  {}

  lemma CoalesceStep(bs: seq<Block>, k: nat)
    requires k < |bs|
    ensures Coalesce(bs, k) == if Mergeable(bs, k) then Coalesce(Merge(bs, k), k) else Coalesce(bs, k + 1)
  {}

  lemma CoalesceEnd(bs: seq<Block>)
    ensures Coalesce(bs, |bs|) == bs
  {}

  lemma MarkedOffs(bs: seq<Block>, i: nat)
    requires i < |bs|
    ensures var r := bs[i := bs[i].(free := true)];
            |r| == |bs| && forall j :: 0 <= j <= |bs| ==> Off(r, j) == Off(bs, j)
  {
    hide Off;
    var r := bs[i := bs[i].(free := true)];
    forall j | 0 <= j <= |bs| ensures Off(r, j) == Off(bs, j) { SameWords(bs, r, j); }
  }

  lemma LaidMarked(m: seq<nat>, n: seq<nat>, base: nat, bs: seq<Block>, i: nat)
    requires Laid(m, base, bs) && i < |bs| && |n| == |m| && Off(bs, i) + 1 < |m| && n == m[Off(bs, i) + 1 := 1]
    ensures var r := bs[i := bs[i].(free := true)]; Laid(n, base, r) && SamePayloads(m, n, Live(r))
  {
    hide Off, OnlyBlock, SamePayloads, Live;
    var r := bs[i := bs[i].(free := true)];
    MarkedOffs(bs, i);
    HeaderOnly(m, n, bs, i);
    HeaderAt(m, base, bs, i);
    forall j | 0 <= j < |r| ensures Headed(n, base, r, j) {
      if j != i {
        assert Headed(m, base, bs, j);
        HeaderKept(m, n, base, bs, i, j);
        HeaderMoved(n, base, bs, j, r, j);
      }
    }
    MarkedPayloads(m, n, base, bs, i);
  }

  lemma MarkedPayloads(m: seq<nat>, n: seq<nat>, base: nat, bs: seq<Block>, i: nat)
    requires i < |bs| && OnlyBlock(m, n, bs, i)
    requires var r := bs[i := bs[i].(free := true)];
             forall j :: 0 <= j < |r| ==> Headed(n, base, r, j) && Off(r, j) == Off(bs, j)
    ensures SamePayloads(m, n, Live(bs[i := bs[i].(free := true)]))
  {
    hide Off;
    var r := bs[i := bs[i].(free := true)];
    forall x, w: nat | x in Live(r) && InPayload(x, w) ensures w < |m| && n[w] == m[w] {
      var j :| 0 <= j < |r| && !r[j].free && x == (Off(r, j), r[j].words);
      assert Headed(n, base, r, j) && Off(r, j) == Off(bs, j);
      BlocksApart(bs, i, j, w);
    }
  }
}
