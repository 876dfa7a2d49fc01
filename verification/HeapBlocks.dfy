/** The kernel heap as a list of blocks: first fit with splitting, freeing with coalescing. Sizes are in 8-byte
    words. */
module HeapBlocks {
  import opened Wrappers

  const HEADER: nat := 3                          // a 24-byte block_header_t
  const WORD_BYTES: nat := 8
  const TOP: nat := 0x1_0000_0000_0000_0000      // size_t arithmetic wraps here

  /** words is the payload behind the header. */
  datatype Block = Block(words: nat, free: bool)

  /** Where block i begins, in words from the start of the heap. */
  function Off(bs: seq<Block>, i: nat): (o: nat)
    requires i <= |bs|
  {
    if i == 0 then 0 else Off(bs, i - 1) + HEADER + bs[i - 1].words
  }

  /** align_up, as size_t computes it. */
  function AlignUp(n: nat): (a: nat)
    ensures a % 16 == 0
  {
    (n + 15) % TOP / 16 * 16
  }

  /** The rounded size covers the request exactly up to 2^64 - 16; above that it wraps to nothing. */
  lemma AlignUpCovers(n: nat)
    requires n < TOP
    ensures AlignUp(n) >= n <==> n <= TOP - 16
    ensures n <= TOP - 16 ==> AlignUp(n) < n + 16
    ensures n > TOP - 16 ==> AlignUp(n) == 0
  {}

  lemma Words(a: nat)
    requires a % 16 == 0
    ensures a % 8 == 0
  {}

  lemma AlignUpWords(n: nat)
    ensures AlignUp(n) % WORD_BYTES == 0
  {
    hide AlignUp;
    Words(AlignUp(n));
  }

  predicate Fits(b: Block, need: nat) { b.free && b.words >= need }

  /** The first block from i on that fits. */
  function FirstFit(bs: seq<Block>, need: nat, i: nat): (r: Option<nat>)
    requires i <= |bs|
    ensures r.Some? ==> i <= r.value < |bs| && Fits(bs[r.value], need)
    ensures r.Some? ==> forall j :: i <= j < r.value ==> !Fits(bs[j], need)
    ensures r == None ==> forall j :: i <= j < |bs| ==> !Fits(bs[j], need)
    decreases |bs| - i
  {
    if i == |bs| then None else if Fits(bs[i], need) then Some(i) else FirstFit(bs, need, i + 1)
  }

  /** A block that a request of so many bytes can have: it is free and has them. */
  predicate Serves(b: Block, bytes: nat) { b.free && WORD_BYTES * b.words >= bytes }

  /** The search finds the first such block. */
  lemma FirstServes(bs: seq<Block>, bytes: nat)
    requires bytes % WORD_BYTES == 0
    ensures var f := FirstFit(bs, bytes / WORD_BYTES, 0);
            && (f == None <==> forall j :: 0 <= j < |bs| ==> !Serves(bs[j], bytes))
            && (f.Some? ==> Serves(bs[f.value], bytes) && forall j :: 0 <= j < f.value ==> !Serves(bs[j], bytes))
  {
    hide FirstFit;
    assert forall b: Block :: Serves(b, bytes) <==> Fits(b, bytes / WORD_BYTES);
  }

  /** kmalloc's split: only if more than a header and 16 bytes remain. */
  predicate Splits(b: Block, need: nat) { b.words > need + HEADER + 2 }

  function Take(bs: seq<Block>, i: nat, need: nat): (r: seq<Block>)
    requires i < |bs| && Fits(bs[i], need)
  {
    if Splits(bs[i], need)
    then bs[..i] + [Block(need, false), Block(bs[i].words - need - HEADER, true)] + bs[i + 1..]
    else bs[i := Block(bs[i].words, false)]
  }

  /** Block i swallows block i + 1 and its header. */
  function Merge(bs: seq<Block>, i: nat): (r: seq<Block>)
    requires i + 1 < |bs|
    ensures |r| == |bs| - 1
  {
    bs[..i] + [Block(bs[i].words + HEADER + bs[i + 1].words, true)] + bs[i + 2..]
  }

  predicate Mergeable(bs: seq<Block>, i: nat) { i + 1 < |bs| && bs[i].free && bs[i + 1].free }

  /** kfree's pass over the list, from block i on. */
  function Coalesce(bs: seq<Block>, i: nat): (r: seq<Block>)
    requires i <= |bs|
    decreases |bs| - i
  {
    if i == |bs| then bs
    else if Mergeable(bs, i) then Coalesce(Merge(bs, i), i)
    else Coalesce(bs, i + 1)
  }

  function Freed(bs: seq<Block>, i: nat): (r: seq<Block>)
    requires i < |bs|
  {
    Coalesce(bs[i := bs[i].(free := true)], 0)
  }

  // ---- What every step keeps ----

  /** No two neighbours are both free. */
  ghost predicate Tight(bs: seq<Block>) {
    forall i :: 0 <= i < |bs| ==> !Mergeable(bs, i)
  }

  /** The blocks in use, each where it begins. */
  ghost function Live(bs: seq<Block>): (s: set<(nat, nat)>) {
    set i | 0 <= i < |bs| && !bs[i].free :: (Off(bs, i), bs[i].words)
  }

  lemma OffNext(bs: seq<Block>, i: nat)
    requires i < |bs|
    ensures Off(bs, i + 1) == Off(bs, i) + HEADER + bs[i].words
  {}

  /** Blocks before a change keep their places. */
  lemma {:induction false} SamePrefix(a: seq<Block>, b: seq<Block>, i: nat, j: nat)
    requires j <= i <= |a| && i <= |b| && a[..i] == b[..i]
    ensures Off(a, j) == Off(b, j) && (j < i ==> a[j] == b[j])
  {
    if j > 0 { SamePrefix(a, b, i, j - 1); }
    if j < i { assert a[j] == a[..i][j] == b[..i][j]; }
  }

  /** So do blocks behind it, if the changed part keeps its length. */
  lemma {:induction false} SameSuffix(a: seq<Block>, b: seq<Block>, i: nat, j: nat, k: nat)
    requires i <= |a| && j + k <= |b| && Off(a, i) == Off(b, j) && a[i..] == b[j..]
    ensures i + k <= |a| && Off(a, i + k) == Off(b, j + k) && (j + k < |b| ==> i + k < |a| && a[i + k] == b[j + k])
  {
    assert |a[i..]| == |b[j..]|;
    if k > 0 { SameSuffix(a, b, i, j, k - 1); }
    if j + k < |b| { assert a[i + k] == a[i..][k] == b[j..][k] == b[j + k]; }
  }

  lemma {:induction false} OffStep(bs: seq<Block>, i: nat, j: nat)
    requires i < j <= |bs|
    ensures Off(bs, i) + HEADER + bs[i].words <= Off(bs, j)
  {
    if i + 1 < j { OffStep(bs, i, j - 1); }
  }

  /** Two different blocks, headers and payloads, have nothing in common. */
  lemma BlocksApart(bs: seq<Block>, i: nat, j: nat, w: nat)
    requires i < |bs| && j < |bs| && i != j
    ensures !(Off(bs, i) <= w < Off(bs, i) + HEADER + bs[i].words
              && Off(bs, j) <= w < Off(bs, j) + HEADER + bs[j].words)
  {
    if i < j { OffStep(bs, i, j); } else { OffStep(bs, j, i); }
  }

  /** Block i has been handed out for a request of need words: it is no more than a header and 16 bytes too long, and
      whatever else it held is one free block behind it, of more than 16 bytes. All other blocks are as they were. */
  ghost predicate HandedOut(bs: seq<Block>, i: nat, need: nat, r: seq<Block>) {
    && i < |bs| && i < |r| && !r[i].free && need <= r[i].words <= need + HEADER + 2 && r[..i] == bs[..i]
    && if |r| == |bs| then r[i].words == bs[i].words && r[i + 1..] == bs[i + 1..]
       else
         && |r| == |bs| + 1 && r[i].words == need && r[i + 2..] == bs[i + 1..]
         && r[i + 1].free && r[i + 1].words > 2 && need + HEADER + r[i + 1].words == bs[i].words
  }

  lemma TakeHandsOut(bs: seq<Block>, i: nat, need: nat)
    requires i < |bs| && Fits(bs[i], need)
    ensures HandedOut(bs, i, need, Take(bs, i, need))
  {}

  /** The list after a split, block by block. */
  lemma TakeBlocks(bs: seq<Block>, i: nat, need: nat)
    requires i < |bs| && Fits(bs[i], need)
    ensures var r, d := Take(bs, i, need), if Splits(bs[i], need) then 1 else 0;
            && |r| == |bs| + d && !r[i].free && r[i].words >= need && r[..i] == bs[..i] && r[i + 1 + d..] == bs[i + 1..]
            && (d == 0 ==> r[i].words == bs[i].words)
            && (d == 1 ==> r[i].words == need && r[i + 1] == Block(bs[i].words - need - HEADER, true))
  {}

  /** Where blocks lie before and after a split. */
  lemma TakeOffs(bs: seq<Block>, i: nat, need: nat)
    requires i < |bs| && Fits(bs[i], need)
    ensures var r, d := Take(bs, i, need), if Splits(bs[i], need) then 1 else 0;
            && |r| == |bs| + d && !r[i].free
            && (forall j :: 0 <= j <= i ==> Off(r, j) == Off(bs, j))
            && (forall j :: i < j <= |bs| ==> Off(r, j + d) == Off(bs, j))
            && (forall j :: 0 <= j < i ==> r[j] == bs[j]) && (forall j :: i < j < |bs| ==> r[j + d] == bs[j])
  {
    hide Take, Off, Splits;
    var r, d := Take(bs, i, need), if Splits(bs[i], need) then 1 else 0;
    TakeBlocks(bs, i, need);
    forall j | 0 <= j <= i ensures Off(r, j) == Off(bs, j) && (j < i ==> r[j] == bs[j]) {
      SamePrefix(r, bs, i, j);
    }
    OffNext(bs, i);
    OffNext(r, i);
    if d == 1 { OffNext(r, i + 1); }
    forall j | i < j <= |bs| ensures Off(r, j + d) == Off(bs, j) && (j < |bs| ==> r[j + d] == bs[j]) {
      SameSuffix(r, bs, i + 1 + d, i + 1, j - i - 1);
    }
  }

  lemma MergeOffs(bs: seq<Block>, i: nat)
    requires Mergeable(bs, i)
    ensures var r := Merge(bs, i);
            && r[i].free && r[i].words == bs[i].words + HEADER + bs[i + 1].words
            && (forall j :: 0 <= j <= i ==> Off(r, j) == Off(bs, j))
            && (forall j :: i + 1 < j <= |bs| ==> Off(r, j - 1) == Off(bs, j))
            && (forall j :: 0 <= j < i ==> r[j] == bs[j]) && (forall j :: i + 1 < j < |bs| ==> r[j - 1] == bs[j])
  {
    hide Off;
    var r := Merge(bs, i);
    assert r[..i] == bs[..i] && r[i + 1..] == bs[i + 2..];
    forall j | 0 <= j <= i ensures Off(r, j) == Off(bs, j) && (j < i ==> r[j] == bs[j]) {
      SamePrefix(r, bs, i, j);
    }
    OffNext(bs, i);
    OffNext(bs, i + 1);
    OffNext(r, i);
    forall j | i + 1 < j <= |bs| ensures Off(r, j - 1) == Off(bs, j) && (j < |bs| ==> r[j - 1] == bs[j]) {
      SameSuffix(r, bs, i + 1, i + 2, j - i - 2);
    }
  }

  /** kmalloc uses one more block: the one it returns. */
  lemma TakeLive(bs: seq<Block>, i: nat, need: nat)
    requires i < |bs| && Fits(bs[i], need)
    ensures var r := Take(bs, i, need);
            && Off(r, |r|) == Off(bs, |bs|) && HandedOut(bs, i, need, r)
            && Live(r) == Live(bs) + {(Off(bs, i), r[i].words)}
  {
    hide Take, Off;
    var r, d := Take(bs, i, need), if Splits(bs[i], need) then 1 else 0;
    TakeOffs(bs, i, need);
    TakeBlocks(bs, i, need);
    TakeHandsOut(bs, i, need);
    forall x | x in Live(bs) ensures x in Live(r) {
      var j :| 0 <= j < |bs| && !bs[j].free && x == (Off(bs, j), bs[j].words);
      var k := if j < i then j else j + d;
      assert !r[k].free && x == (Off(r, k), r[k].words);
    }
    forall x | x in Live(r) ensures x in Live(bs) || x == (Off(bs, i), r[i].words) {
      var k :| 0 <= k < |r| && !r[k].free && x == (Off(r, k), r[k].words);
      if k != i {
        var j := if k < i then k else k - d;
        assert !bs[j].free && x == (Off(bs, j), bs[j].words);
      }
    }
    assert (Off(r, i), r[i].words) in Live(r);
  }

  lemma TakeTight(bs: seq<Block>, i: nat, need: nat)
    requires i < |bs| && Fits(bs[i], need) && Tight(bs)
    ensures Tight(Take(bs, i, need))
  {
    var r, d := Take(bs, i, need), if Splits(bs[i], need) then 1 else 0;
    TakeOffs(bs, i, need);
    forall k | 0 <= k < |r| ensures !Mergeable(r, k) {
      if k < i {
        assert !Mergeable(bs, k);
      } else if k > i {
        assert !Mergeable(bs, k - d);
        if d == 1 && k == i + 1 { assert !Mergeable(bs, i); }
      }
    }
  }

  lemma MergeLive(bs: seq<Block>, i: nat)
    requires Mergeable(bs, i)
    ensures Live(Merge(bs, i)) == Live(bs) && Off(Merge(bs, i), |bs| - 1) == Off(bs, |bs|)
  {
    hide Off, Merge;
    var r := Merge(bs, i);
    MergeOffs(bs, i);
    forall x | x in Live(bs) ensures x in Live(r) {
      var j :| 0 <= j < |bs| && !bs[j].free && x == (Off(bs, j), bs[j].words);
      var k := if j < i then j else j - 1;
      assert !r[k].free && x == (Off(r, k), r[k].words);
    }
    forall x | x in Live(r) ensures x in Live(bs) {
      var k :| 0 <= k < |r| && !r[k].free && x == (Off(r, k), r[k].words);
      var j := if k < i then k else k + 1;
      assert !bs[j].free && x == (Off(bs, j), bs[j].words);
    }
  }

  lemma {:induction false} CoalesceLive(bs: seq<Block>, i: nat)
    requires i <= |bs|
    ensures var r := Coalesce(bs, i); Live(r) == Live(bs) && Off(r, |r|) == Off(bs, |bs|)
    decreases |bs| - i
  {
    if i < |bs| {
      if Mergeable(bs, i) {
        MergeLive(bs, i);
        CoalesceLive(Merge(bs, i), i);
      } else {
        CoalesceLive(bs, i + 1);
      }
    }
  }

  /** One pass leaves no free neighbours, whatever the list was. */
  lemma {:induction false} CoalesceTight(bs: seq<Block>, i: nat)
    requires i <= |bs| && forall k :: 0 <= k < i ==> !Mergeable(bs, k)
    ensures Tight(Coalesce(bs, i))
    decreases |bs| - i
  {
    if i < |bs| {
      if Mergeable(bs, i) {
        var r := Merge(bs, i);
        forall k | 0 <= k < i ensures !Mergeable(r, k) {
          assert !Mergeable(bs, k);
        }
        CoalesceTight(r, i);
      } else {
        CoalesceTight(bs, i + 1);
      }
    }
  }

  /** kfree gives up exactly the block it is given. */
  lemma FreedLive(bs: seq<Block>, i: nat)
    requires i < |bs| && !bs[i].free
    ensures var r := Freed(bs, i);
            Live(r) == Live(bs) - {(Off(bs, i), bs[i].words)} && Off(r, |r|) == Off(bs, |bs|) && Tight(r)
  {
    var m := bs[i := bs[i].(free := true)];
    CoalesceLive(m, 0);
    CoalesceTight(m, 0);
    forall j | 0 <= j <= |bs| ensures Off(m, j) == Off(bs, j) { SameWords(bs, m, j); }
    forall x | x in Live(bs) && x != (Off(bs, i), bs[i].words) ensures x in Live(m) {
      var j :| 0 <= j < |bs| && !bs[j].free && x == (Off(bs, j), bs[j].words);
      assert !m[j].free && x == (Off(m, j), m[j].words);
    }
    forall x | x in Live(m) ensures x in Live(bs) && x != (Off(bs, i), bs[i].words) {
      var j :| 0 <= j < |m| && !m[j].free && x == (Off(m, j), m[j].words);
      assert j != i && !bs[j].free;
      if j < i { OffStep(bs, j, i); } else { OffStep(bs, i, j); }
    }
  }

  lemma {:induction false} SameWords(a: seq<Block>, b: seq<Block>, i: nat)
    requires |a| == |b| && i <= |a| && forall j :: 0 <= j < |a| ==> a[j].words == b[j].words
    ensures Off(a, i) == Off(b, i)
  {
    if i > 0 { SameWords(a, b, i - 1); }
  }

  // ---- kfree undoes kmalloc ----

  lemma {:induction false} CoalesceTightIsSame(bs: seq<Block>, i: nat)
    requires i <= |bs| && forall k :: i <= k < |bs| ==> !Mergeable(bs, k)
    ensures Coalesce(bs, i) == bs
    decreases |bs| - i
  {
    if i < |bs| { CoalesceTightIsSame(bs, i + 1); }
  }

  /** A pass skips blocks that cannot be merged. */
  lemma {:induction false} CoalesceSkips(bs: seq<Block>, i: nat, j: nat)
    requires i <= j <= |bs| && forall k :: i <= k < j ==> !Mergeable(bs, k)
    ensures Coalesce(bs, i) == Coalesce(bs, j)
    decreases j - i
  {
    if i < j { CoalesceSkips(bs, i + 1, j); }
  }

  /** Freeing a block right after it was allocated restores the identical list. */
  lemma FreeUndoesTake(bs: seq<Block>, i: nat, need: nat)
    requires i < |bs| && Fits(bs[i], need) && Tight(bs)
    ensures Freed(Take(bs, i, need), i) == bs
  {
    var r := Take(bs, i, need);
    var m := r[i := r[i].(free := true)];
    if Splits(bs[i], need) {
      assert r == bs[..i] + [Block(need, false), Block(bs[i].words - need - HEADER, true)] + bs[i + 1..];
      forall k | 0 <= k < i ensures !Mergeable(m, k) {
        assert !Mergeable(bs, k);
      }
      CoalesceSkips(m, 0, i);
      assert Merge(m, i) == bs;
      CoalesceTightIsSame(bs, i);
    } else {
      assert m == bs;
      CoalesceTightIsSame(bs, 0);
    }
  }

  // ---- Whole runs ----

  /** kmalloc of so many bytes, or kfree of a block in use. */
  datatype Op = Malloc(bytes: nat) | Free(i: nat)

  function Step(bs: seq<Block>, op: Op): (r: seq<Block>) {
    match op
    case Malloc(bytes) =>
      var need := AlignUp(bytes) / WORD_BYTES;
      var f := FirstFit(bs, need, 0);
      if bytes == 0 || f == None then bs else Take(bs, f.value, need)
    case Free(i) => if i < |bs| && !bs[i].free then Freed(bs, i) else bs
  }

  /** What one operation does to the blocks in use: one more, one less, or none; no other is moved or resized. */
  ghost predicate LiveAfter(bs: seq<Block>, op: Op, r: seq<Block>) {
    if op.Malloc? then
      var f := FirstFit(bs, AlignUp(op.bytes) / WORD_BYTES, 0);
      if op.bytes == 0 || f == None then Live(r) == Live(bs)
      else
        && HandedOut(bs, f.value, AlignUp(op.bytes) / WORD_BYTES, r)
        && Live(r) == Live(bs) + {(Off(bs, f.value), r[f.value].words)}
    else Live(r) == if op.i < |bs| && !bs[op.i].free then Live(bs) - {(Off(bs, op.i), bs[op.i].words)} else Live(bs)
  }

  lemma StepKeeps(bs: seq<Block>, op: Op)
    requires Tight(bs)
    ensures var r := Step(bs, op); Tight(r) && Off(r, |r|) == Off(bs, |bs|) && LiveAfter(bs, op, r)
  {
    hide Take, Freed, Live, Tight, Off, AlignUp, FirstFit, HandedOut;
    if op.Malloc? {
      var need := AlignUp(op.bytes) / WORD_BYTES;
      var f := FirstFit(bs, need, 0);
      if op.bytes != 0 && f != None {
        TakeLive(bs, f.value, need);
        TakeTight(bs, f.value, need);
        TakeHandsOut(bs, f.value, need);
      }
    } else if op.i < |bs| && !bs[op.i].free {
      FreedLive(bs, op.i);
    }
  }

  function Run(bs: seq<Block>, ops: seq<Op>): (r: seq<Block>)
    decreases |ops|
  {
    if ops == [] then bs else Step(Run(bs, ops[..|ops| - 1]), ops[|ops| - 1])
  }

  /** Blocks in use lie inside the heap and apart from one another, headers included. */
  ghost predicate Disjoint(live: set<(nat, nat)>, size: nat) {
    && (forall x :: x in live ==> x.0 + HEADER + x.1 <= size)
    && forall x, y :: x in live && y in live && x != y ==> x.0 + HEADER + x.1 <= y.0 || y.0 + HEADER + y.1 <= x.0
  }

  lemma LiveDisjoint(bs: seq<Block>)
    ensures Disjoint(Live(bs), Off(bs, |bs|))
  {
    forall x | x in Live(bs) ensures x.0 + HEADER + x.1 <= Off(bs, |bs|) {
      var i :| 0 <= i < |bs| && !bs[i].free && x == (Off(bs, i), bs[i].words);
      OffStep(bs, i, |bs|);
    }
    forall x, y | x in Live(bs) && y in Live(bs) && x != y
      ensures x.0 + HEADER + x.1 <= y.0 || y.0 + HEADER + y.1 <= x.0 {
      var i :| 0 <= i < |bs| && !bs[i].free && x == (Off(bs, i), bs[i].words);
      var j :| 0 <= j < |bs| && !bs[j].free && y == (Off(bs, j), bs[j].words);
      if i < j { OffStep(bs, i, j); } else { OffStep(bs, j, i); }
    }
  }

  /** Over every run the blocks tile the heap, the ones in use are disjoint, and no two free ones are neighbours. */
  lemma {:induction false} RunKeeps(bs: seq<Block>, ops: seq<Op>)
    requires Tight(bs)
    ensures var r := Run(bs, ops); Tight(r) && Off(r, |r|) == Off(bs, |bs|) && Disjoint(Live(r), Off(bs, |bs|))
    decreases |ops|
  {
    if ops != [] {
      RunKeeps(bs, ops[..|ops| - 1]);
      StepKeeps(Run(bs, ops[..|ops| - 1]), ops[|ops| - 1]);
    }
    LiveDisjoint(Run(bs, ops));
  }
}
