/** Saving and loading, end to end. */
module FatRound {
  import opened Wrappers
  import opened Bytes
  import opened FatLayout
  import opened FatName
  import opened FatRead
  import opened FatCommit
  import opened FatSave
  import opened FatBuild
  import opened FatCrash
  import opened FatDriver

  /** An entry whose name begins with 0xE5 is a deleted one to every reader. */
  lemma {:induction false} NoDeletedFound(ds: seq<Dirent>, f: seq<byte>, k: nat)
    requires k <= |ds| && |f| == 11 && f[0] == 0xE5
    ensures Find(ds, f, k) == None
    decreases |ds| - k
  {
    if k < |ds| {
      assert ds[k][..11] == f ==> ds[k][0] == f[0];
      NoDeletedFound(ds, f, k + 1);
    }
  }

  /** Such names exist: any that begins with that byte. */
  lemma DeletedName(name: seq<byte>)
    requires name != [] && name[0] != DOT
    ensures Formatted(name)[0] == 0xE5 <==> name[0] == 0xE5
  {
    var f := Field(name[..DotAt(name)], 8);
    assert Formatted(name)[0] == f[0] == ToUpper(name[0]);
  }

  /** A file that was saved reads back as it was saved, exactly unless its name begins with 0xE5: then the save reports
      success and the file is not there. No other name is affected. */
  method SaveThenLoad(d: Driver, name: seq<byte>, data: seq<byte>, maxlen: nat) returns (r: int, got: Option<seq<byte>>)
    requires d.Valid() && Inv(d.g, d.View()) && 0 !in name
    requires |data| + d.g.spc * SECTOR_SIZE <= 0x1_0000_0000 && |data| <= maxlen < WORD
    modifies d
    ensures d.Valid() && Inv(d.g, d.View())
    ensures r == 0 ==> (got == Some(data) <==> Formatted(name)[0] != 0xE5)
    ensures r == 0 && Formatted(name)[0] == 0xE5 ==> got == None
    ensures r != 0 ==> forall n :: Lookup(d.g, d.View(), n) == Lookup(d.g, old(d.View()), n)
    ensures forall n :: n != Formatted(name) ==> Lookup(d.g, d.View(), n) == Lookup(d.g, old(d.View()), n)
  {
    hide Inv, ViewOf, Lookup, Allocated, Root, SlotFor, ClustersFor, Free, OldChain, Formatted, Mirrored, Find, Lost,
         SetOf;
    ghost var n, o;
    r, n, o := d.Save(name, data);
    ghost var w := d.View();
    got := d.Load(name, maxlen);
    if r == 0 {
      DeletedLookup(d.g, w, Formatted(name));
      assert data[..Min(|data|, maxlen)] == data;
    }
  }

  lemma DeletedLookup(g: Geo, v: Vol, f: seq<byte>)
    requires Inv(g, v) && |f| == 11
    ensures f[0] == 0xE5 ==> Lookup(g, v, f) == None
  {
    if f[0] == 0xE5 { NoDeletedFound(Root(g, v), f, 0); }
  }
}
