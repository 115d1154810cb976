// What a sequence of add_block or remove_block calls on one file amounts to.
module Resize {
  import opened Layout
  import opened Image

  /** fs' is fs with file i longer or shorter: the blocks that stay keep their places and contents, and none is lost. */
  ghost predicate Resized(fs: Fs, fs': Fs, i: nat) {
    && i < |fs.inodes|
    && OthersKept(fs, fs', i)
    && fs'.inodes[i].ftype == fs.inodes[i].ftype
    && fs'.inodes[i].nlink == fs.inodes[i].nlink
    && fs'.inodes[i].mode == fs.inodes[i].mode
    && (forall s :: Has(fs.N(i), s) && Has(fs'.N(i), s) ==> fs'.AtI(i, s) == fs.AtI(i, s))
    && DataKept(fs, fs')
    && (forall b :: b in fs.free || b in fs.owner <==> b in fs'.free || b in fs'.owner)
  }

  /** Nothing that matters differs: same size, same tree, same free blocks, same data. */
  ghost predicate Restored(fs: Fs, fs': Fs, i: nat) {
    && Resized(fs, fs', i)
    && fs'.inodes[i].size == fs.inodes[i].size
    && fs'.free == fs.free && fs'.owner == fs.owner
  }

  lemma ResizedRefl(fs: Fs, i: nat)
    requires i < |fs.inodes|
    ensures Restored(fs, fs, i)
  {
  }

  /** The block numbers in use by files and those free partition the same set before and after growing. */
  lemma GrownAccounts(fs: Fs, fs': Fs, i: nat)
    requires fs.Trees() && fs'.Trees() && fs.HasTree(i) && Grown(fs, fs', i)
    ensures fs'.owner.Keys == fs.owner.Keys + NewBlocks(fs', i, fs.N(i))
    ensures forall b :: b in fs.free || b in fs.owner <==> b in fs'.free || b in fs'.owner
  {
    var n := fs.N(i);
    NewBlocksOwned(fs', i, n);
    forall b | b in fs.owner ensures b in fs'.owner {
      var o := fs.owner[b];
      HasNext(n, o.slot);
      assert fs'.Owns(o.ino, o.slot) && fs'.AtI(o.ino, o.slot) == b;
    }
    forall b | b in fs'.owner ensures b in fs.owner.Keys + NewBlocks(fs', i, n) {
      var o := fs'.owner[b];
      HasNext(n, o.slot);
      if fs.Owns(o.ino, o.slot) {
        assert fs.AtI(o.ino, o.slot) == b;
      } else {
        RemovedIsDropped(fs', i, n, o.ino, o.slot);
      }
    }
  }

  lemma GrownIsResized(fs: Fs, fs': Fs, i: nat)
    requires fs.Trees() && fs'.Trees() && fs.HasTree(i) && Grown(fs, fs', i)
    ensures Resized(fs, fs', i) && Resized(fs', fs, i)
  {
    GrownAccounts(fs, fs', i);
    GrownKeeps(fs, fs', i);
    assert OthersKept(fs', fs, i);
    assert DataKept(fs', fs);
  }

  lemma GrownKeeps(fs: Fs, fs': Fs, i: nat)
    requires fs.HasTree(i) && Grown(fs, fs', i)
    ensures forall j, s :: fs.Owns(j, s) ==> fs'.Owns(j, s) && fs'.AtI(j, s) == fs.AtI(j, s)
    ensures forall s :: Has(fs.N(i), s) ==> fs'.AtI(i, s) == fs.AtI(i, s)
  {
    forall j, s | fs.Owns(j, s) ensures fs'.Owns(j, s) && fs'.AtI(j, s) == fs.AtI(j, s) {
      HasNext(fs.N(i), s);
    }
    forall s | Has(fs.N(i), s) ensures fs.Owns(i, s) {
    }
  }

  /** Resizing twice is resizing, as long as the detour did not cut off blocks that stay in the end. */
  lemma ResizedTrans(fs0: Fs, fs: Fs, fs': Fs, i: nat)
    requires fs0.HasTree(i) && Resized(fs0, fs, i) && Resized(fs, fs', i)
    requires fs0.N(i) <= fs.N(i) || fs'.N(i) <= fs.N(i)
    ensures Resized(fs0, fs', i)
  {
    forall s | Has(fs0.N(i), s) && Has(fs'.N(i), s) ensures Has(fs.N(i), s) {
    }
    forall j, s | fs0.Owns(j, s) && fs'.Owns(j, s)
      ensures fs.Owns(j, s) && fs.AtI(j, s) == fs0.AtI(j, s)
    {
    }
  }

  /** Coming back to the original number of blocks restores the tree and the free blocks. */
  lemma ResizedBack(fs: Fs, fs': Fs, i: nat)
    requires fs.Trees() && fs'.Trees() && fs.HasTree(i) && Resized(fs, fs', i) && fs'.N(i) == fs.N(i)
    ensures fs'.owner == fs.owner && fs'.free == fs.free
  {
    forall j, s ensures fs.Owns(j, s) <==> fs'.Owns(j, s) {
    }
    forall j, s | fs.Owns(j, s) ensures fs'.AtI(j, s) == fs.AtI(j, s) {
    }
    forall b | b in fs.owner ensures b in fs'.owner && fs'.owner[b] == fs.owner[b] {
      assert fs'.Owns(fs.owner[b].ino, fs.owner[b].slot);
    }
    forall b | b in fs'.owner ensures b in fs.owner {
      assert fs.Owns(fs'.owner[b].ino, fs'.owner[b].slot);
    }
  }

  /** Free blocks that growing a file from a to b blocks takes, indirect block included. */
  function Needed(a: nat, b: nat): int {
    b - a + if a <= NDIRECT < b then 1 else 0
  }

  lemma GrownCount(fs: Fs, fs': Fs, i: nat)
    requires fs'.Trees() && fs.HasTree(i) && fs.N(i) < NDIRECT + NINDIRECT && Grown(fs, fs', i)
    ensures |fs.free| == |fs'.free| + Needed(fs.N(i), fs.N(i) + 1)
  {
    var n := fs.N(i);
    var added := NewBlocks(fs', i, n);
    if n == NDIRECT {
      NoSharing(fs', i, Indirect, i, DataSlot(n));
      assert added == {fs'.AtI(i, Indirect), fs'.AtI(i, DataSlot(n))};
    } else {
      assert added == {fs'.AtI(i, DataSlot(n))};
    }
    assert |fs.free| == |fs.free - added| + |added|;
  }
}
