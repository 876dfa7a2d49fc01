/** What a power cut leaves: either the old files or the new ones, never a mixture. */
module FatCrash {
  import opened Bytes
  import opened FatLayout
  import opened FatFrame
  import opened FatCommit
  import opened FatSave
  import opened FatBuild

  /** A remount of w shows v's files; beyond v's own leaks only a first part of the new chain n is lost, or, while a
      save that failed gives it back, a last part. */
  ghost predicate CutBefore(g: Geo, v: Vol, w: Vol, n: seq<nat>, undoing: bool)
    requires Inv(g, v)
  {
    && Inv(g, w) && SameFiles(g, v, w)
    && ((exists j {:trigger n[..j]} :: 0 <= j <= |n| && Lost(g, w) == Lost(g, v) + SetOf(n[..j]))
        || (undoing && exists i {:trigger n[i..]} :: 0 <= i <= |n| && Lost(g, w) == Lost(g, v) + SetOf(n[i..])))
  }

  /** A remount of w shows v's files with name replaced; only a last part of the old chain o is lost. */
  ghost predicate CutAfter(g: Geo, v: Vol, w: Vol, name: seq<byte>, data: seq<byte>, o: seq<nat>)
    requires Inv(g, v)
  {
    && Inv(g, w) && Replaced(g, v, w, name, data)
    && exists j {:trigger o[j..]} :: 0 <= j <= |o| && Lost(g, w) == Lost(g, v) + SetOf(o[j..])
  }

  /** While the new chain is built, a first part of it is lost. */
  lemma PrefixIsCut(g: Geo, v: Vol, w: Vol, n: seq<nat>, undoing: bool)
    requires Inv(g, v) && BuildingPrefix(g, v, w, n)
    ensures CutBefore(g, v, w, n, undoing)
  {
    var j :| 0 <= j <= |n| && Building(g, v, w, n[..j], n);
    BuildingFiles(g, v, w, n[..j], n);
  }

  /** A last part of n is in use and nothing else has changed that v uses. */
  ghost predicate UndoingSuffix(g: Geo, v: Vol, w: Vol, n: seq<nat>) {
    exists i {:trigger n[i..]} :: 0 <= i <= |n| && Building(g, v, w, n[i..], n)
  }

  /** While it is given back, a last part of it is. */
  lemma SuffixIsCut(g: Geo, v: Vol, w: Vol, n: seq<nat>)
    requires Inv(g, v) && UndoingSuffix(g, v, w, n)
    ensures CutBefore(g, v, w, n, true)
  {
    var i :| 0 <= i <= |n| && Building(g, v, w, n[i..], n);
    BuildingFiles(g, v, w, n[i..], n);
  }

  /** The new entry: where it goes, and that it describes the chain that was built. */
  ghost predicate Ready(g: Geo, v: Vol, w: Vol, k: nat, e: Dirent, n: seq<nat>, data: seq<byte>) {
    && Inv(g, v) && Built(g, v, w, n, data) && k < |Root(g, v)| && MayTake(Root(g, v), k, e)
    && |data| <= SECTOR_SIZE * |Sectors(g, w, n)|
    && First(e) == (if n == [] then 0 else n[0]) && Size(e) == |data|
    && e[11] % 0x10 != 0x0F && e[11] / 8 % 2 == 0
  }

  lemma SameOldChain(g: Geo, v: Vol, w: Vol, k: nat, n: seq<nat>)
    requires Inv(g, v) && Building(g, v, w, n, n) && k < |Root(g, v)|
    ensures Inv(g, w) && Root(g, w) == Root(g, v)
    ensures OldChain(g, w, k) == OldChain(g, v, k)
  {
    BuildingFiles(g, v, w, n, n);
    if Live(Root(g, v)[k]) {
      var o := ChainOf(g, v, First(Root(g, v)[k]));
      forall x | x in o ensures Next(w, x) == Next(v, x) {
        assert Reach(g, v, x);
        ReachAllocated(g, v, x);
      }
      ChainOfFrame(g, v, w, First(Root(g, v)[k]));
    }
  }

  lemma BuiltIsFresh(g: Geo, v: Vol, w: Vol, n: seq<nat>, data: seq<byte>)
    requires Inv(g, v) && Built(g, v, w, n, data)
    ensures Inv(g, w) && FreshChain(g, w, if n == [] then 0 else n[0], n) && AllInRange(g, n)
  {
    BuildingFiles(g, v, w, n, n);
    if n != [] { LinkedIsChain(g, w, n); }
  }

  lemma SameFilesTrans(g: Geo, v: Vol, w: Vol, u: Vol)
    requires Inv(g, v) && Inv(g, w) && Inv(g, u) && SameFiles(g, v, w) && SameFiles(g, w, u)
    ensures SameFiles(g, v, u)
  {}

  lemma ReplacedTrans(g: Geo, v: Vol, w: Vol, u: Vol, name: seq<byte>, data: seq<byte>)
    requires Inv(g, v) && Inv(g, w) && Inv(g, u)
    requires (SameFiles(g, v, w) && Replaced(g, w, u, name, data))
             || (Replaced(g, v, w, name, data) && SameFiles(g, w, u))
    ensures Replaced(g, v, u, name, data)
  {}

  /** The files right after the commit. */
  lemma CommitShows(g: Geo, v: Vol, w: Vol, u: Vol, k: nat, e: Dirent, n: seq<nat>, data: seq<byte>)
    requires Ready(g, v, w, k, e, n, data) && Committed(g, w, u, k, e)
    ensures Inv(g, u)
    ensures if e[0] != 0xE5 then Replaced(g, v, u, e[..11], data) else SameFiles(g, v, u)
  {
    hide DirOk, Reach, Lookup, FreshChain, MayTake, Committed, Root, RootChain;
    BuiltIsFresh(g, v, w, n, data);
    BuildingFiles(g, v, w, n, n);
    CommitFiles(g, w, u, k, e, n);
    JoinBlocks(Sectors(g, w, n), data);
    if e[0] != 0xE5 {
      ReplacedTrans(g, v, w, u, e[..11], data);
    } else {
      SameFilesTrans(g, v, w, u);
    }
  }

  /** Which clusters are live right after the commit. */
  lemma CommitLive(g: Geo, v: Vol, w: Vol, u: Vol, k: nat, e: Dirent, n: seq<nat>, data: seq<byte>)
    requires Ready(g, v, w, k, e, n, data) && Committed(g, w, u, k, e)
    ensures Inv(g, u)
    ensures forall x :: Reach(g, u, x) <==> (Reach(g, v, x) && x !in OldChain(g, v, k)) || (Live(e) && x in n)
    ensures forall x :: x in OldChain(g, v, k) ==> !Reach(g, u, x)
    ensures forall x :: x in n ==> !Reach(g, v, x)
  {
    BuiltIsFresh(g, v, w, n, data);
    BuildingFiles(g, v, w, n, n);
    SameOldChain(g, v, w, k, n);
    CommitReach(g, w, u, k, e, n);
  }

  lemma CommitLost(g: Geo, v: Vol, w: Vol, u: Vol, k: nat, e: Dirent, n: seq<nat>, data: seq<byte>)
    requires Ready(g, v, w, k, e, n, data) && Committed(g, w, u, k, e) && u.fat == w.fat
    ensures Inv(g, u) && Allocated(g, u) == Allocated(g, v) + SetOf(n)
    ensures Live(e) ==> Lost(g, u) == Lost(g, v) + SetOf(OldChain(g, v, k))
    ensures !Live(e) && OldChain(g, v, k) == [] ==> Lost(g, u) == Lost(g, v) + SetOf(n)
  {
    hide Reach, Ready, Committed, Building, OldChain, DirOk, Lost, Allocated;
    CommitLive(g, v, w, u, k, e, n, data);
    CommitTables(g, v, w, u, k, e, n, data);
    ReachIsAllocated(g, v, k);
    LostIs(g, v);
    LostIs(g, u);
  }

  lemma ReachIsAllocated(g: Geo, v: Vol, k: nat)
    requires Inv(g, v) && k < |Root(g, v)|
    ensures forall x :: Reach(g, v, x) ==> x in Allocated(g, v)
    ensures forall x :: x in OldChain(g, v, k) ==> Reach(g, v, x)
  {
    forall x | Reach(g, v, x) ensures x in Allocated(g, v) { ReachAllocated(g, v, x); }
  }

  lemma LostIs(g: Geo, v: Vol)
    requires Inv(g, v)
    ensures forall x :: x in Lost(g, v) <==> x in Allocated(g, v) && !Reach(g, v, x)
  {}

  lemma CommitTables(g: Geo, v: Vol, w: Vol, u: Vol, k: nat, e: Dirent, n: seq<nat>, data: seq<byte>)
    requires Ready(g, v, w, k, e, n, data) && Committed(g, w, u, k, e) && u.fat == w.fat
    ensures Inv(g, v) && k < |Root(g, v)| && Fits(g, u) && Allocated(g, u) == Allocated(g, v) + SetOf(n)
            && Allocated(g, v) !! SetOf(n)
  {
    CommitLive(g, v, w, u, k, e, n, data);
    BuildingFiles(g, v, w, n, n);
  }

  lemma OldChainNoDup(g: Geo, v: Vol, k: nat)
    requires Inv(g, v) && k < |Root(g, v)|
    ensures NoDup(OldChain(g, v, k))
  {
    var o := OldChain(g, v, k);
    forall a, b | 0 <= a < b < |o| ensures o[a] != o[b] {
      ChainAcyclic(g, v, First(Root(g, v)[k]), o, a, b);
    }
  }

  lemma SplitSet(o: seq<nat>, j: nat)
    requires NoDup(o) && j <= |o|
    ensures SetOf(o) - SetOf(o[..j]) == SetOf(o[j..])
  {
    forall x | x in o ensures x in o[..j] <==> x !in o[j..] {
      if x in o[j..] { RunsDisjoint(o, j, x); }
      assert o == o[..j] + o[j..];
    }
  }

  /** After the commit, with any first part of the old chain released: the new files, and no new leak
      beyond the rest of the old chain. */
  lemma ReleaseIsCut(g: Geo, v: Vol, w: Vol, u: Vol, k: nat, e: Dirent, n: seq<nat>, data: seq<byte>, j: nat)
    requires Ready(g, v, w, k, e, n, data) && Committed(g, w, u, k, e) && u.fat == w.fat && Live(e)
    requires j <= |OldChain(g, v, k)|
    ensures Inv(g, u)
    ensures CutAfter(g, v, Release(u, OldChain(g, v, k)[..j]), e[..11], data, OldChain(g, v, k))
    ensures Allocated(g, Release(u, OldChain(g, v, k)[..j])) ==
            Allocated(g, v) + SetOf(n) - SetOf(OldChain(g, v, k)[..j])
    ensures Lost(g, Release(u, OldChain(g, v, k)[..j])) == Lost(g, v) + SetOf(OldChain(g, v, k)[j..])
  {
    hide DirOk, Reach, Lookup, Built, Allocated, Release, Root, RootChain, ChainOf;
    var o := OldChain(g, v, k);
    var p := o[..j];
    CommitShows(g, v, w, u, k, e, n, data);
    CommitLive(g, v, w, u, k, e, n, data);
    CommitLost(g, v, w, u, k, e, n, data);
    ReleaseFiles(g, u, p);
    ReplacedTrans(g, v, u, Release(u, p), e[..11], data);
    OldChainNoDup(g, v, k);
    SplitSet(o, j);
    forall x | x in o ensures x !in Lost(g, v) { assert Reach(g, v, x); }
    assert Lost(g, Release(u, p)) == Lost(g, v) + SetOf(o[j..]);
  }

  /** A name that starts with 0xE5 is written as a deleted entry: no file changes, and the chain leaks. */
  lemma DeadEntryIsCut(g: Geo, v: Vol, w: Vol, u: Vol, k: nat, e: Dirent, n: seq<nat>, data: seq<byte>)
    requires Ready(g, v, w, k, e, n, data) && Committed(g, w, u, k, e) && u.fat == w.fat && e[0] == 0xE5
    ensures OldChain(g, v, k) == [] && CutBefore(g, v, u, n, false)
  {
    assert !Live(Root(g, v)[k]) by { TakeFirstByte(Root(g, v), k, e); }
    CommitShows(g, v, w, u, k, e, n, data);
    CommitLost(g, v, w, u, k, e, n, data);
    assert n[..|n|] == n;
  }

  /** A remount of w shows the old files, or the old files with name replaced by all of data. */
  ghost predicate CutOk(g: Geo, v: Vol, w: Vol, name: seq<byte>, data: seq<byte>, n: seq<nat>, o: seq<nat>,
                        undoing: bool)
    requires Inv(g, v)
  {
    || CutBefore(g, v, w, n, undoing)
    || (name != [] && name[0] != 0xE5 && CutAfter(g, v, w, name, data, o))
  }

  ghost predicate PartlyReleased(g: Geo, v: Vol, cs: seq<nat>, w: Vol)
    requires Fits(g, v) && AllInRange(g, cs)
  {
    exists j {:trigger cs[..j]} :: 0 <= j <= |cs| && w == Release(v, cs[..j])
  }

  /** From the commit on, whatever part of the old chain is released, a remount shows the new files. */
  lemma CommitCuts(g: Geo, v: Vol, w: Vol, u: Vol, k: nat, e: Dirent, n: seq<nat>, data: seq<byte>)
    requires Ready(g, v, w, k, e, n, data) && Committed(g, w, u, k, e) && u.fat == w.fat
    ensures k < |Root(g, v)| && Fits(g, u)
    ensures CutOk(g, v, u, e[..11], data, n, OldChain(g, v, k), false)
    ensures forall x :: PartlyReleased(g, u, OldChain(g, v, k), x) ==>
              CutOk(g, v, x, e[..11], data, n, OldChain(g, v, k), false)
  {
    hide Inv, Built, Root, MayTake, CutBefore, CutAfter;
    var o := OldChain(g, v, k);
    assert e[0] == e[..11][0];
    assert o[..0] == [];
    if e[0] == 0xE5 {
      DeadEntryIsCut(g, v, w, u, k, e, n, data);
    } else {
      EntryIsLive(g, v, w, k, e, n, data);
      ReleaseIsCut(g, v, w, u, k, e, n, data, 0);
      forall x | PartlyReleased(g, u, o, x) ensures CutAfter(g, v, x, e[..11], data, o) {
        var j :| 0 <= j <= |o| && x == Release(u, o[..j]);
        ReleaseIsCut(g, v, w, u, k, e, n, data, j);
      }
    }
  }

  lemma EntryIsLive(g: Geo, v: Vol, w: Vol, k: nat, e: Dirent, n: seq<nat>, data: seq<byte>)
    requires Ready(g, v, w, k, e, n, data)
    ensures Live(e) <==> e[0] != 0xE5
  {
    TakeFirstByte(Root(g, v), k, e);
  }

  /** The volume when the save returns. */
  lemma CommitEnds(g: Geo, v: Vol, w: Vol, u: Vol, k: nat, e: Dirent, n: seq<nat>, data: seq<byte>)
    requires Ready(g, v, w, k, e, n, data) && Committed(g, w, u, k, e) && u.fat == w.fat
    ensures k < |Root(g, v)| && Fits(g, u) && AllInRange(g, OldChain(g, v, k))
    ensures Live(Root(g, v)[k]) ==> IsChain(g, u, First(Root(g, v)[k]), OldChain(g, v, k))
    ensures !Live(Root(g, v)[k]) || First(Root(g, v)[k]) < 2 ==> OldChain(g, v, k) == []
    ensures var z := Release(u, OldChain(g, v, k));
            && Inv(g, z) && Allocated(g, z) == Allocated(g, v) + SetOf(n) - SetOf(OldChain(g, v, k))
            && (if e[0] != 0xE5 then Replaced(g, v, z, e[..11], data) && Lost(g, z) == Lost(g, v)
                else SameFiles(g, v, z) && Lost(g, z) == Lost(g, v) + SetOf(n))
  {
    hide *;
    EntryIsLive(g, v, w, k, e, n, data);
    OldChainEnds(g, v, w, u, k, n, e, data);
    if e[0] == 0xE5 {
      DeadEntryEnds(g, v, w, u, k, e, n, data);
    } else {
      ReleaseIsCut(g, v, w, u, k, e, n, data, |OldChain(g, v, k)|);
      CutShows(g, v, Release(u, OldChain(g, v, k)), e[..11], data, OldChain(g, v, k));
    }
  }

  lemma OldChainEnds(g: Geo, v: Vol, w: Vol, u: Vol, k: nat, n: seq<nat>, e: Dirent, data: seq<byte>)
    requires Ready(g, v, w, k, e, n, data) && Committed(g, w, u, k, e) && u.fat == w.fat
    ensures Inv(g, v) && k < |Root(g, v)| && Fits(g, u) && AllInRange(g, OldChain(g, v, k))
    ensures Live(Root(g, v)[k]) ==> IsChain(g, u, First(Root(g, v)[k]), OldChain(g, v, k))
    ensures !Live(Root(g, v)[k]) || First(Root(g, v)[k]) < 2 ==> OldChain(g, v, k) == []
    ensures forall i :: 0 <= i < |OldChain(g, v, k)| ==> OldChain(g, v, k)[i] < |u.fat| * 128
    ensures OldChain(g, v, k)[..|OldChain(g, v, k)|] == OldChain(g, v, k)
    ensures SetOf(OldChain(g, v, k)[|OldChain(g, v, k)|..]) == {}
    ensures forall x: set<nat> :: x + {} == x
  {
    if Live(Root(g, v)[k]) { OldChainStays(g, v, w, u, k, n); }
  }

  lemma CutShows(g: Geo, v: Vol, z: Vol, name: seq<byte>, data: seq<byte>, o: seq<nat>)
    requires Inv(g, v) && CutAfter(g, v, z, name, data, o)
    ensures Inv(g, z) && Replaced(g, v, z, name, data)
  {}

  lemma DeadEntryEnds(g: Geo, v: Vol, w: Vol, u: Vol, k: nat, e: Dirent, n: seq<nat>, data: seq<byte>)
    requires Ready(g, v, w, k, e, n, data) && Committed(g, w, u, k, e) && u.fat == w.fat && e[0] == 0xE5
    ensures OldChain(g, v, k) == [] && Release(u, []) == u && Inv(g, u)
    ensures Allocated(g, u) == Allocated(g, v) + SetOf(n) - SetOf([])
    ensures SameFiles(g, v, u) && Lost(g, u) == Lost(g, v) + SetOf(n)
  {
    hide DirOk, Built, Lookup, Reach;
    DeadEntryIsCut(g, v, w, u, k, e, n, data);
    CommitShows(g, v, w, u, k, e, n, data);
    CommitLost(g, v, w, u, k, e, n, data);
    EntryIsLive(g, v, w, k, e, n, data);
  }

  lemma OldChainStays(g: Geo, v: Vol, w: Vol, u: Vol, k: nat, n: seq<nat>)
    requires Inv(g, v) && Building(g, v, w, n, n) && Fits(g, u) && u.fat == w.fat && k < |Root(g, v)|
             && Live(Root(g, v)[k])
    ensures IsChain(g, u, First(Root(g, v)[k]), OldChain(g, v, k))
    ensures First(Root(g, v)[k]) < 2 ==> OldChain(g, v, k) == []
  {
    SameOldChain(g, v, w, k, n);
    ChainFrame(g, w, u, First(Root(g, v)[k]), OldChain(g, v, k));
  }

  /** A failed save has given back every cluster it took, bit for bit. */
  lemma UndoneIsSame(g: Geo, v: Vol, w: Vol, n: seq<nat>, u: Vol)
    requires Inv(g, v) && Building(g, v, w, n, n) && NoDup(n) && AllInRange(g, n) && u == Release(w, n)
    ensures u.fat == v.fat && Inv(g, u) && SameFiles(g, v, u) && Root(g, u) == Root(g, v) && Lost(g, u) == Lost(g, v)
  {
    assert n[..|n|] == n && n[|n|..] == [];
    ReleaseBuilding(g, v, w, n, |n|);
    BuildingFiles(g, v, u, [], n);
    SameEntriesSameTable(v, u);
  }

  lemma UndoingRest(g: Geo, v: Vol, w: Vol, n: seq<nat>, i: nat)
    requires Building(g, v, w, n, n) && NoDup(n) && i <= |n|
    ensures AllInRange(g, n[..i]) && UndoingSuffix(g, v, Release(w, n[..i]), n)
  {
    ReleaseBuilding(g, v, w, n, i);
  }

  lemma PartsAreCuts(g: Geo, v: Vol, w: Vol, n: seq<nat>, name: seq<byte>, data: seq<byte>, o: seq<nat>, undoing: bool)
    requires Inv(g, v) && (BuildingPrefix(g, v, w, n) || (undoing && UndoingSuffix(g, v, w, n)))
    ensures CutOk(g, v, w, name, data, n, o, undoing)
  {
    hide BuildingPrefix, UndoingSuffix, CutBefore;
    if BuildingPrefix(g, v, w, n) {
      PrefixIsCut(g, v, w, n, undoing);
    } else {
      SuffixIsCut(g, v, w, n);
    }
  }
}
