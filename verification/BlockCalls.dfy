// add_block, remove_block and change_size as relations on states: what each
// call does, exactly when that is what its description promises, and what
// whole sequences of calls amount to.
module BlockCalls {
  import opened Words
  import opened Freemap
  import opened Layout
  import opened Image
  import opened Resize

  const EPERM := 1
  const EIO := 5
  const ENOSPC := 28

  // Files up to this many blocks are those add_block can build.
  const SINGLYINDIRECT := NDIRECT + NINDIRECT

  /** indir_index: which indirect block file block b is under; -1 for a direct block. */
  function IndirIndex(b: nat): int {
    if b < NDIRECT then -1
    else if b < NDIRECT + NINDIRECT then 0
    else (b - NDIRECT - NINDIRECT) / NINDIRECT
  }

  /** direct_index: the index of b in its block. For b from 256 to 265 the unsigned subtraction wraps. */
  function DirectIndex(b: uint32): uint32 {
    if b < NDIRECT then b
    else if b < NINDIRECT then b - NDIRECT
    else Sub32(Sub32(b, NDIRECT), NINDIRECT) % NINDIRECT
  }

  /** The wrap-around does no harm: the two index functions name the place that reads look in. */
  lemma IndexFunctionsAgree(b: uint32)
    requires b < MAXFILEBLKS
    ensures match DataSlot(b)
            case Direct(d) => IndirIndex(b) == -1 && DirectIndex(b) == d
            case Single(j) => IndirIndex(b) == 0 && DirectIndex(b) == j
            case Double(k, j) => IndirIndex(b) == k && DirectIndex(b) == j
            case _ => false
  {
    DataSlotIs(b);
    if NINDIRECT <= b < SINGLYINDIRECT {
      assert Sub32(Sub32(b, NDIRECT), NINDIRECT) == TWO32 + b - SINGLYINDIRECT;
    }
  }

  // ----- add_block

  /** What add_block and remove_block rely on blindly: the pointers they follow and the numbers they free name blocks
      of the disk. */
  ghost predicate InRange(fs: Fs, i: nat) {
    && i < |fs.inodes| && 0 < |fs.blocks| <= BLKBITSIZE
    && fs.N(i) <= MAXFILEBLKS
    && DataNumbers(fs, fs.free)
    && (fs.N(i) > NDIRECT ==> fs.inodes[i].indirect < |fs.blocks|)
    && (fs.N(i) > SINGLYINDIRECT ==> fs.inodes[i].indirect2 < |fs.blocks|)
    && (fs.N(i) > 0 ==>
          && (DataSlot(fs.N(i) - 1).Double? ==> fs.AtI(i, Leaf(DataSlot(fs.N(i) - 1).k)) < |fs.blocks|)
          && DataNumbers(fs, NewBlocks(fs, i, fs.N(i) - 1)))
  }

  ghost predicate DataNumbers(fs: Fs, numbers: set<nat>) {
    forall b :: b in numbers ==> FREEMAP_BLK < b < |fs.blocks|
  }

  lemma TreesAreInRange(fs: Fs, i: nat)
    requires fs.Trees() && fs.HasTree(i)
    ensures InRange(fs, i)
  {
    var n := fs.N(i);
    assert n > NDIRECT ==> fs.Owns(i, Indirect) && fs.AtI(i, Indirect) in fs.owner;
    assert n > SINGLYINDIRECT ==> fs.Owns(i, Indirect2) && fs.AtI(i, Indirect2) in fs.owner;
    if n > 0 {
      NewBlocksOwned(fs, i, n - 1);
      DataSlotHas(n, n - 1);
      if DataSlot(n - 1).Double? {
        var k := DataSlot(n - 1).k;
        assert fs.Owns(i, Leaf(k)) && fs.AtI(i, Leaf(k)) in fs.owner;
      }
    }
  }

  // add_block as a relation on states. Past 266 blocks it only says what goes wrong.
  ghost predicate AddOutcome(fs: Fs, fs': Fs, i: nat, r: int)
    requires fs.HasTree(i)
  {
    AddOutcomeAfter(1 + |fs.inodes|, fs, fs', i, r)
  }

  // The countdown keeps the cases of add_block out of proofs that only pass its outcome on; AddOutcomeIs opens them.
  ghost predicate AddOutcomeAfter(k: nat, fs: Fs, fs': Fs, i: nat, r: int)
    requires fs.HasTree(i)
    decreases k
  {
    if k == 0 then AddCases(fs, fs', i, r) else AddOutcomeAfter(k - 1, fs, fs', i, r)
  }

  lemma AddOutcomeIs(fs: Fs, fs': Fs, i: nat, r: int)
    requires fs.HasTree(i)
    ensures AddOutcome(fs, fs', i, r) <==> AddCases(fs, fs', i, r)
  {
    AddOutcomeAfterIs(1 + |fs.inodes|, fs, fs', i, r);
  }

  lemma {:induction false} AddOutcomeAfterIs(k: nat, fs: Fs, fs': Fs, i: nat, r: int)
    requires fs.HasTree(i)
    ensures AddOutcomeAfter(k, fs, fs', i, r) <==> AddCases(fs, fs', i, r)
    decreases k
  {
    if k > 0 {
      AddOutcomeAfterIs(k - 1, fs, fs', i, r);
    }
  }

  ghost predicate AddCases(fs: Fs, fs': Fs, i: nat, r: int)
    requires fs.HasTree(i)
  {
    var n := fs.N(i);
    if fs.free == {} || n >= MAXFILEBLKS then
      r == -ENOSPC && fs' == fs
    else if n < NDIRECT then
      r == 0 && exists x: uint32 :: x in fs.free && fs' == AddDirect(fs, i, x)
    else if n < SINGLYINDIRECT then
      if n == NDIRECT && |fs.free| == 1 then
        r == -EIO && fs' == fs
      else
        r == 0 && exists ind: uint32, x: uint32 :: IndirectReady(fs, i, ind, x) && fs' == AddSingle(fs, i, ind, x)
    else
      r == -EIO || (r == 0 && |fs'.inodes| == |fs.inodes| && (Overwritten(fs, fs', i) || Leaked(fs, fs', i)))
  }

  ghost predicate IndirectReady(fs: Fs, i: nat, ind: uint32, x: uint32)
    requires i < |fs.inodes|
  {
    && x in fs.free
    && ind < |fs.blocks|
    && if fs.N(i) == NDIRECT then ind in fs.free && ind != x else ind == fs.inodes[i].indirect
  }

  /** The new block went to a singly indirect place that an earlier block of the file was using. */
  ghost predicate Overwritten(fs: Fs, fs': Fs, i: nat)
    requires i < |fs.inodes| == |fs'.inodes|
  {
    SINGLYINDIRECT <= fs.N(i) < SINGLYINDIRECT + NINDIRECT && fs'.AtI(i, Single(fs.N(i) - SINGLYINDIRECT)) in fs.free
  }

  /** More blocks were taken than the longer tree has new places. */
  ghost predicate Leaked(fs: Fs, fs': Fs, i: nat)
    requires i < |fs.inodes|
  {
    && SINGLYINDIRECT + NINDIRECT <= fs.N(i) < MAXFILEBLKS
    && exists x, y, z :: Lost(fs, fs', DataSlot(fs.N(i)).j, x, y, z)
  }

  ghost predicate Lost(fs: Fs, fs': Fs, j: IndirectNumber, x: nat, y: nat, z: nat) {
    && x in fs.free && x !in fs'.free
    && y in fs.free && y !in fs'.free && y != x
    && (j == 0 ==> z in fs.free && z !in fs'.free && z != x && z != y)
  }

  lemma LeakingIsNotGrowth(fs: Fs, fs': Fs, i: nat)
    requires fs.HasTree(i) && |fs'.inodes| == |fs.inodes| && Leaked(fs, fs', i)
    ensures !Grown(fs, fs', i)
  {
    var j := DataSlot(fs.N(i)).j;
    var x, y, z :| Lost(fs, fs', j, x, y, z);
    var added := NewBlocks(fs', i, fs.N(i));
    assert fs.free - fs'.free <= added ==> x in added && y in added && (j == 0 ==> z in added);
  }

  lemma DirectAdded(fs: Fs, i: nat, x: uint32)
    requires fs.HasTree(i) && fs.N(i) < NDIRECT && x in fs.free
    ensures AddOutcome(fs, AddDirect(fs, i, x), i, 0)
  {
    AddOutcomeIs(fs, AddDirect(fs, i, x), i, 0);
  }

  lemma SingleAdded(fs: Fs, i: nat, ind: uint32, x: uint32)
    requires fs.HasTree(i) && NDIRECT <= fs.N(i) < SINGLYINDIRECT && IndirectReady(fs, i, ind, x)
    ensures AddOutcome(fs, AddSingle(fs, i, ind, x), i, 0)
  {
    AddOutcomeIs(fs, AddSingle(fs, i, ind, x), i, 0);
    OnlyOne(fs.free, x);
  }

  lemma NotAdded(fs: Fs, i: nat)
    requires fs.HasTree(i) && (fs.free == {} || fs.N(i) >= MAXFILEBLKS)
    ensures AddOutcome(fs, fs, i, -ENOSPC)
  {
    AddOutcomeIs(fs, fs, i, -ENOSPC);
  }

  lemma BadlyAdded(fs: Fs, fs': Fs, i: nat)
    requires fs.HasTree(i) && SINGLYINDIRECT <= fs.N(i) < MAXFILEBLKS && fs.free != {} && |fs'.inodes| == |fs.inodes|
    requires Overwritten(fs, fs', i) || Leaked(fs, fs', i)
    ensures AddOutcome(fs, fs', i, 0)
  {
    AddOutcomeIs(fs, fs', i, 0);
  }

  /** What the switch of add_block leaves when it succeeds, before the size is set: 'data' is recorded. */
  ghost predicate BlockLinked(fs: Fs, mid: Fs, i: nat, data: uint32, x: nat, y: nat)
    requires fs.HasTree(i) && fs.N(i) < MAXFILEBLKS
  {
    var n, oi := fs.N(i), fs.inodes[i];
    && data in fs.free && |mid.inodes| == |fs.inodes|
    && (n < NDIRECT ==>
          mid == fs.(free := fs.free - {data}, inodes := fs.inodes[i := oi.(direct := oi.direct[n := data])]))
    && (NDIRECT <= n < SINGLYINDIRECT ==>
          var ind := mid.inodes[i].indirect;
          && IndirectReady(fs, i, ind, data)
          && mid == fs.(free := if n == NDIRECT then fs.free - {data} - {ind} else fs.free - {data},
                        blocks := fs.blocks[ind := fs.blocks[ind][n - NDIRECT := data]],
                        inodes := fs.inodes[i := oi.(indirect := ind)]))
    && (SINGLYINDIRECT <= n < SINGLYINDIRECT + NINDIRECT ==> mid.AtI(i, Single(n - SINGLYINDIRECT)) == data)
    && (SINGLYINDIRECT + NINDIRECT <= n ==> Lost(fs, mid, DataSlot(n).j, data, y, x))
  }

  // Who owns what then.
  ghost function OwnersOf(fs: Fs, mid: Fs, i: nat, data: uint32): map<nat, Owner>
    requires i < |fs.inodes| == |mid.inodes|
  {
    var n := fs.N(i);
    if n < NDIRECT then fs.owner[data := Owner(i, Direct(n))]
    else if n < SINGLYINDIRECT then fs.owner + SingleTaken(i, n, mid.inodes[i].indirect, data)
    else fs.owner
  }

  lemma Lengthened(fs: Fs, mid: Fs, fs': Fs, i: nat, data: uint32, x: nat, y: nat)
    requires fs.HasTree(i) && fs.N(i) < MAXFILEBLKS && (BlockLinked(fs, mid, i, data, x, y) == true)
    requires |mid.inodes| == |fs.inodes| && |fs'.inodes| == |fs.inodes|
    requires fs' == mid.(inodes := mid.inodes[i := mid.inodes[i].(size := fs'.inodes[i].size)],
                         owner := OwnersOf(fs, mid, i, data))
    requires fs'.inodes[i].size == Add32(mid.inodes[i].size, BLKSIZE)
    ensures AddOutcome(fs, fs', i, 0)
  {
    var n := fs.N(i);
    if n < NDIRECT {
      assert fs' == AddDirect(fs, i, data);
      DirectAdded(fs, i, data);
    } else if n < SINGLYINDIRECT {
      assert fs' == AddSingle(fs, i, mid.inodes[i].indirect, data);
      SingleAdded(fs, i, mid.inodes[i].indirect, data);
    } else {
      assert n >= SINGLYINDIRECT + NINDIRECT ==> Lost(fs, fs', DataSlot(n).j, data, y, x);
      BadlyAdded(fs, fs', i);
    }
  }

  /** A successful add_block grows the file by exactly one block if and only if the file is below 266 blocks. */
  lemma AddBlockExact(fs: Fs, fs': Fs, i: nat, r: int)
    requires fs.Trees() && fs.HasTree(i) && AddOutcome(fs, fs', i, r)
    ensures r == 0 ==> (Grown(fs, fs', i) <==> fs.N(i) < SINGLYINDIRECT)
    ensures r == 0 && fs.N(i) < SINGLYINDIRECT ==> fs'.Trees()
  {
    AddOutcomeIs(fs, fs', i, r);
    var n := fs.N(i);
    if r == 0 {
      if n < NDIRECT {
        var x: uint32 :| x in fs.free && fs' == AddDirect(fs, i, x);
        AddDirectGrows(fs, i, x);
      } else if n < SINGLYINDIRECT {
        var ind: uint32, x: uint32 :| IndirectReady(fs, i, ind, x) && fs' == AddSingle(fs, i, ind, x);
        AddSingleGrows(fs, i, ind, x);
      } else if Overwritten(fs, fs', i) {
        assert fs.Owns(i, Single(n - SINGLYINDIRECT));
      } else {
        LeakingIsNotGrowth(fs, fs', i);
      }
    }
  }

  /** Below 266 blocks, failure depends on the number of free blocks only and changes nothing. */
  lemma AddBlockFailure(fs: Fs, fs': Fs, i: nat, r: int)
    requires fs.HasTree(i) && fs.N(i) < SINGLYINDIRECT && AddOutcome(fs, fs', i, r)
    ensures r == -ENOSPC <==> fs.free == {}
    ensures r == -EIO <==> fs.N(i) == NDIRECT && |fs.free| == 1
    ensures r == -ENOSPC || r == -EIO <==> r != 0
    ensures r != 0 ==> fs' == fs
  {
    AddOutcomeIs(fs, fs', i, r);
  }

  lemma OnlyOne(free: set<nat>, x: nat)
    requires x in free
    ensures |free| == 1 <==> free == {x}
  {
    assert |free| == |free - {x}| + 1;
  }

  // ----- remove_block

  ghost predicate RemoveOutcome(fs: Fs, fs': Fs, i: nat, r: int)
    requires fs.HasTree(i)
  {
    |fs'.inodes| == |fs.inodes| && RemoveOutcomeAfter(1 + |fs.inodes|, fs, fs', i, r)
  }

  // The countdown keeps the cases of remove_block out of proofs that only pass its outcome on; RemoveOutcomeIs opens
  // them.
  ghost predicate RemoveOutcomeAfter(k: nat, fs: Fs, fs': Fs, i: nat, r: int)
    requires fs.HasTree(i)
    decreases k
  {
    if k == 0 then RemoveCases(fs, fs', i, r) else RemoveOutcomeAfter(k - 1, fs, fs', i, r)
  }

  lemma RemoveOutcomeIs(fs: Fs, fs': Fs, i: nat, r: int)
    requires fs.HasTree(i)
    ensures RemoveOutcome(fs, fs', i, r) <==> |fs'.inodes| == |fs.inodes| && RemoveCases(fs, fs', i, r)
  {
    RemoveOutcomeAfterIs(1 + |fs.inodes|, fs, fs', i, r);
  }

  lemma {:induction false} RemoveOutcomeAfterIs(k: nat, fs: Fs, fs': Fs, i: nat, r: int)
    requires fs.HasTree(i)
    ensures RemoveOutcomeAfter(k, fs, fs', i, r) <==> RemoveCases(fs, fs', i, r)
    decreases k
  {
    if k > 0 {
      RemoveOutcomeAfterIs(k - 1, fs, fs', i, r);
    }
  }

  ghost predicate RemoveCases(fs: Fs, fs': Fs, i: nat, r: int)
    requires fs.HasTree(i)
  {
    var n := fs.N(i);
    if n == 0 then
      r == -ENOSPC && fs' == fs
    else
      && r == 0
      && if n <= SINGLYINDIRECT || SINGLYINDIRECT + NINDIRECT < n <= MAXFILEBLKS then
           exists blocks: seq<Block>, oi: Inode :: LastCleared(fs, i, blocks, oi) && fs' == Removed(fs, i, blocks, oi)
         else
           n <= SINGLYINDIRECT + NINDIRECT ==> FreedAnother(fs, fs', i)
  }

  /** The block freed was that of an earlier place under the singly indirect block. */
  ghost predicate FreedAnother(fs: Fs, fs': Fs, i: nat)
    requires i < |fs.inodes|
  {
    && |fs'.inodes| == |fs.inodes|
    && SINGLYINDIRECT < fs.N(i) <= SINGLYINDIRECT + NINDIRECT
    && fs'.free <= fs.free + {fs.AtI(i, Single(fs.N(i) - 1 - SINGLYINDIRECT)), fs.inodes[i].indirect}
  }

  /** The words and pointers that remove_block sets to zero. */
  ghost predicate LastCleared(fs: Fs, i: nat, blocks: seq<Block>, oi: Inode)
    requires fs.HasTree(i) && 0 < fs.N(i) <= MAXFILEBLKS
  {
    var was, n := fs.inodes[i], fs.N(i) - 1;
    match DataSlot(n)
    case Direct(d) => blocks == fs.blocks && oi == was.(direct := was.direct[d := 0])
    case Single(j) =>
      && was.indirect < |fs.blocks|
      && blocks == fs.blocks[was.indirect := fs.blocks[was.indirect][j := 0]]
      && oi == if j == 0 then was.(indirect := 0) else was
    case Double(k, j) =>
      && was.indirect2 < |fs.blocks| && fs.AtI(i, Leaf(k)) < |fs.blocks|
      && blocks == DoubleCleared(fs, i, k, j)
      && oi == was
  }

  /** Which blocks a file gives up with its last block. */
  lemma LastBlocks(fs: Fs, i: nat, n: nat)
    requires i < |fs.inodes| && n < MAXFILEBLKS
    ensures n < NDIRECT ==> NewBlocks(fs, i, n) == {fs.AtI(i, Direct(n))}
    ensures NDIRECT <= n < SINGLYINDIRECT ==>
              NewBlocks(fs, i, n) == {fs.AtI(i, Single(n - NDIRECT))}
                + if n == NDIRECT then {fs.inodes[i].indirect} else {}
    ensures SINGLYINDIRECT < n ==> var k, j := DataSlot(n).k, DataSlot(n).j;
              NewBlocks(fs, i, n) == {fs.AtI(i, Double(k, j))} + if j == 0 then {fs.AtI(i, Leaf(k))} else {}
  {
  }

  lemma CleanlyRemoved(fs: Fs, i: nat, blocks: seq<Block>, oi: Inode)
    requires fs.HasTree(i) && 0 < fs.N(i) <= MAXFILEBLKS && LastCleared(fs, i, blocks, oi)
    requires fs.N(i) <= SINGLYINDIRECT || SINGLYINDIRECT + NINDIRECT < fs.N(i)
    ensures RemoveOutcome(fs, Removed(fs, i, blocks, oi), i, 0)
  {
    RemoveOutcomeIs(fs, Removed(fs, i, blocks, oi), i, 0);
  }

  lemma BadlyRemoved(fs: Fs, fs': Fs, i: nat)
    requires fs.HasTree(i) && FreedAnother(fs, fs', i)
    ensures RemoveOutcome(fs, fs', i, 0)
  {
    RemoveOutcomeIs(fs, fs', i, 0);
  }

  /** What the switch of remove_block leaves, before the size is set. */
  ghost predicate BlockUnlinked(fs: Fs, mid: Fs, i: nat)
    requires fs.HasTree(i) && 0 < fs.N(i) <= MAXFILEBLKS
  {
    var n := fs.N(i) - 1;
    && |mid.inodes| == |fs.inodes|
    && (if n < SINGLYINDIRECT || SINGLYINDIRECT + NINDIRECT <= n then
          && LastCleared(fs, i, mid.blocks, mid.inodes[i])
          && mid == fs.(free := fs.free + NewBlocks(fs, i, n), blocks := mid.blocks,
                        inodes := fs.inodes[i := mid.inodes[i]])
        else FreedAnother(fs, mid, i))
  }

  lemma Shortened(fs: Fs, mid: Fs, fs': Fs, i: nat)
    requires fs.HasTree(i) && 0 < fs.N(i) <= MAXFILEBLKS && (BlockUnlinked(fs, mid, i) == true)
    requires |mid.inodes| == |fs.inodes| && |fs'.inodes| == |fs.inodes|
    requires fs' == mid.(inodes := mid.inodes[i := mid.inodes[i].(size := Sub32(mid.inodes[i].size, BLKSIZE))],
                         owner := fs.owner - NewBlocks(fs, i, fs.N(i) - 1))
    ensures RemoveOutcome(fs, fs', i, 0)
  {
    var n := fs.N(i) - 1;
    if n < SINGLYINDIRECT || SINGLYINDIRECT + NINDIRECT <= n {
      assert fs' == Removed(fs, i, mid.blocks, mid.inodes[i]);
      CleanlyRemoved(fs, i, mid.blocks, mid.inodes[i]);
    } else {
      BadlyRemoved(fs, fs', i);
    }
  }

  /** remove_block undoes one add_block if and only if it does not mistake the first doubly indirect block for the
      singly indirect one. */
  lemma RemoveBlockExact(fs: Fs, fs': Fs, i: nat, r: int)
    requires fs.Trees() && fs.HasTree(i) && RemoveOutcome(fs, fs', i, r)
    ensures fs.N(i) > 0 <==> r == 0
    ensures r == 0 ==>
              (Grown(fs', fs, i) <==> fs.N(i) <= SINGLYINDIRECT || SINGLYINDIRECT + NINDIRECT < fs.N(i))
    ensures r == 0 && Grown(fs', fs, i) ==> fs'.Trees()
  {
    RemoveOutcomeIs(fs, fs', i, r);
    var n := fs.N(i);
    if r == 0 {
      if n <= SINGLYINDIRECT || SINGLYINDIRECT + NINDIRECT < n {
        var blocks: seq<Block>, oi: Inode :| LastCleared(fs, i, blocks, oi) && fs' == Removed(fs, i, blocks, oi);
        ClearingIsClean(fs, i, blocks, oi);
        RemovedTrees(fs, i, blocks, oi);
        RemovedUngrows(fs, i, blocks, oi);
      } else {
        FreeingAnotherIsNotShrinking(fs, fs', i);
      }
    }
  }

  // The last block of a file that has grown was free.
  lemma GrewByFree(fs: Fs, fs': Fs, i: nat)
    requires i < |fs.inodes| && Grown(fs, fs', i)
    ensures |fs'.inodes| == |fs.inodes| && fs'.N(i) == fs.N(i) + 1
    ensures fs.N(i) < MAXFILEBLKS && fs'.AtI(i, DataSlot(fs.N(i))) in fs.free
  {
    assert fs'.AtI(i, DataSlot(fs.N(i))) in NewBlocks(fs', i, fs.N(i));
  }

  lemma FreeingAnotherIsNotShrinking(fs: Fs, fs': Fs, i: nat)
    requires fs.Trees() && fs.HasTree(i) && FreedAnother(fs, fs', i)
    ensures !Grown(fs', fs, i)
  {
    var n := fs.N(i) - 1;
    DataSlotHas(n + 1, n);
    NoSharing(fs, i, Single(n - SINGLYINDIRECT), i, DataSlot(n));
    NoSharing(fs, i, Indirect, i, DataSlot(n));
    if Grown(fs', fs, i) {
      GrewByFree(fs', fs, i);
      assert false;
    }
  }

  lemma ClearingIsClean(fs: Fs, i: nat, blocks: seq<Block>, oi: Inode)
    requires fs.Trees() && fs.HasTree(i) && 0 < fs.N(i) && LastCleared(fs, i, blocks, oi)
    requires fs.N(i) <= SINGLYINDIRECT || SINGLYINDIRECT + NINDIRECT < fs.N(i)
    ensures CleanRemoval(fs, i, blocks, oi)
  {
    var n := fs.N(i) - 1;
    DataSlotIs(n);
    if n < NDIRECT {
      CleanDirect(fs, i);
    } else if n < SINGLYINDIRECT {
      CleanSingle(fs, i);
    } else {
      CleanDouble(fs, i, DataSlot(n).k, DataSlot(n).j);
    }
  }

  // ----- where remove_block is right

  lemma CleanDirect(fs: Fs, i: nat)
    requires fs.Trees() && fs.HasTree(i) && 0 < fs.N(i) <= NDIRECT
    ensures var oi := fs.inodes[i];
            CleanRemoval(fs, i, fs.blocks, oi.(direct := oi.direct[fs.N(i) - 1 := 0]))
  {
  }

  lemma CleanSingle(fs: Fs, i: nat)
    requires fs.Trees() && fs.HasTree(i) && NDIRECT < fs.N(i) <= SINGLYINDIRECT
    ensures var oi, ind, j := fs.inodes[i], fs.inodes[i].indirect, fs.N(i) - 1 - NDIRECT;
            && fs.Owns(i, Indirect) && ind < |fs.blocks|
            && CleanRemoval(fs, i, fs.blocks[ind := fs.blocks[ind][j := 0]],
                            if j == 0 then oi.(indirect := 0) else oi)
  {
    assert fs.Owns(i, Indirect);
    assert fs.AtI(i, Indirect) in fs.owner;
  }

  /** Clearing the last place under leaf k, and the leaf itself when it held only that place. */
  ghost function DoubleCleared(fs: Fs, i: nat, k: IndirectNumber, j: IndirectNumber): seq<Block>
    requires i < |fs.inodes| && fs.inodes[i].indirect2 < |fs.blocks| && fs.AtI(i, Leaf(k)) < |fs.blocks|
  {
    var ind2, leaf := fs.inodes[i].indirect2, fs.AtI(i, Leaf(k));
    var blocks := fs.blocks[leaf := fs.blocks[leaf][j := 0]];
    if j == 0 then blocks[ind2 := blocks[ind2][k := 0]] else blocks
  }

  lemma CleanDouble(fs: Fs, i: nat, k: IndirectNumber, j: IndirectNumber)
    requires fs.Trees() && fs.HasTree(i) && SINGLYINDIRECT + NINDIRECT < fs.N(i)
    requires DataSlot(fs.N(i) - 1) == Double(k, j)
    ensures fs.Owns(i, Indirect2) && fs.Owns(i, Leaf(k)) && fs.Owns(i, Double(k, j))
    ensures fs.first <= fs.inodes[i].indirect2 < |fs.blocks| && fs.first <= fs.AtI(i, Leaf(k)) < |fs.blocks|
    ensures fs.AtI(i, Leaf(k)) != fs.inodes[i].indirect2
    ensures CleanRemoval(fs, i, DoubleCleared(fs, i, k, j), fs.inodes[i])
  {
    DataSlotIs(fs.N(i) - 1);
    DataSlotHas(fs.N(i), fs.N(i) - 1);
    assert fs.Owns(i, Indirect2) && fs.Owns(i, Leaf(k)) && fs.Owns(i, Double(k, j));
    NoSharing(fs, i, Indirect2, i, Leaf(k));
    var blocks := DoubleCleared(fs, i, k, j);
    forall s | Has(fs.N(i) - 1, s)
      ensures At(blocks, fs.inodes[i], s) == fs.AtI(i, s)
    {
      HasNext(fs.N(i) - 1, s);
      assert fs.Owns(i, s);
      if s.Single? {
        assert fs.Owns(i, Indirect);
        NoSharing(fs, i, Indirect, i, Indirect2);
        NoSharing(fs, i, Indirect, i, Leaf(k));
      } else if s.Double? {
        assert fs.Owns(i, Leaf(s.k));
        NoSharing(fs, i, Leaf(s.k), i, Indirect2);
        NoSharing(fs, i, Leaf(s.k), i, Leaf(k));
      }
    }
  }

  // ----- change_size

  /** The calls of change_size from a to b blocks stay where add_block and remove_block are right. */
  predicate SoundPath(a: nat, b: nat) {
    || a == b
    || (a < b && b <= SINGLYINDIRECT)
    || (b < a && (a <= SINGLYINDIRECT || SINGLYINDIRECT + NINDIRECT <= b))
  }

  /** The result of change_size, from the block counts and the number of free blocks. */
  function ResizeResult(a: nat, b: nat, free: nat): int {
    if b <= a || Needed(a, b) <= free then 0
    else if a <= NDIRECT < b && free == NDIRECT + 1 - a then -EIO
    else -ENOSPC
  }

  /** n successful add_block calls on file i lead from fs to fs'. */
  ghost predicate Added(fs: Fs, fs': Fs, i: nat, n: nat)
    decreases n
  {
    if n == 0 then fs' == fs && fs.Valid() && fs.HasTree(i)
    else exists mid: Fs {:trigger AddOutcome(mid, fs', i, 0)} ::
      Added(fs, mid, i, n - 1) && mid.HasTree(i) && AddOutcome(mid, fs', i, 0)
  }

  /** n remove_block calls on file i lead from fs to fs'. */
  ghost predicate Dropped(fs: Fs, fs': Fs, i: nat, n: nat)
    decreases n
  {
    if n == 0 then fs' == fs
    else exists mid: Fs {:trigger RemoveOutcome(mid, fs', i, 0)} ::
      Dropped(fs, mid, i, n - 1) && mid.HasTree(i) && RemoveOutcome(mid, fs', i, 0)
  }

  // The state before the last of several calls.
  lemma LastAdded(fs: Fs, fs': Fs, i: nat, n: nat) returns (mid: Fs)
    requires Added(fs, fs', i, n) && n > 0
    ensures Added(fs, mid, i, n - 1) && mid.HasTree(i) && AddOutcome(mid, fs', i, 0)
  {
    mid :| Added(fs, mid, i, n - 1) && mid.HasTree(i) && AddOutcome(mid, fs', i, 0);
  }

  lemma LastDropped(fs: Fs, fs': Fs, i: nat, n: nat) returns (mid: Fs)
    requires Dropped(fs, fs', i, n) && n > 0
    ensures Dropped(fs, mid, i, n - 1) && mid.HasTree(i) && RemoveOutcome(mid, fs', i, 0)
  {
    mid :| Dropped(fs, mid, i, n - 1) && mid.HasTree(i) && RemoveOutcome(mid, fs', i, 0);
  }

  lemma {:induction false} AddedMeaning(fs: Fs, fs': Fs, i: nat, n: nat)
    requires Added(fs, fs', i, n) && fs.HasTree(i) && fs.N(i) + n <= SINGLYINDIRECT
    ensures fs'.Trees() && fs'.HasTree(i) && Resized(fs, fs', i)
    ensures fs'.N(i) == fs.N(i) + n
    ensures |fs.free| == |fs'.free| + Needed(fs.N(i), fs.N(i) + n)
    ensures fs.inodes[i].size + n * BLKSIZE < TWO32 ==> fs'.inodes[i].size == fs.inodes[i].size + n * BLKSIZE
    decreases n
  {
    if n == 0 {
      AddedNone(fs, i);
    } else {
      var mid := LastAdded(fs, fs', i, n);
      AddedMeaning(fs, mid, i, n - 1);
      AddedOnce(fs, mid, fs', i, n - 1);
    }
  }

  lemma AddedNone(fs: Fs, i: nat)
    requires fs.Valid() && fs.HasTree(i)
    ensures fs.Trees() && Resized(fs, fs, i)
  {
    fs.ValidIs();
    ResizedRefl(fs, i);
  }

  lemma AddedOnce(fs: Fs, mid: Fs, fs': Fs, i: nat, n: nat)
    requires fs.HasTree(i) && mid.Trees() && mid.HasTree(i) && Resized(fs, mid, i)
    requires mid.N(i) == fs.N(i) + n < SINGLYINDIRECT && AddOutcome(mid, fs', i, 0)
    requires |fs.free| == |mid.free| + Needed(fs.N(i), fs.N(i) + n)
    requires fs.inodes[i].size + n * BLKSIZE < TWO32 ==> mid.inodes[i].size == fs.inodes[i].size + n * BLKSIZE
    ensures fs'.Trees() && fs'.HasTree(i) && Resized(fs, fs', i)
    ensures fs'.N(i) == fs.N(i) + n + 1
    ensures |fs.free| == |fs'.free| + Needed(fs.N(i), fs.N(i) + n + 1)
    ensures fs.inodes[i].size + (n + 1) * BLKSIZE < TWO32 ==>
              fs'.inodes[i].size == fs.inodes[i].size + (n + 1) * BLKSIZE
  {
    AddStep(mid, fs', i);
    ResizedTrans(fs, mid, fs', i);
  }

  lemma {:induction false} DroppedMeaning(fs: Fs, fs': Fs, i: nat, n: nat)
    requires fs.Trees() && fs.HasTree(i) && n <= fs.N(i) && Dropped(fs, fs', i, n)
    requires n == 0 || fs.N(i) <= SINGLYINDIRECT || SINGLYINDIRECT + NINDIRECT <= fs.N(i) - n
    ensures fs'.Trees() && fs'.HasTree(i) && Resized(fs, fs', i)
    ensures fs'.N(i) == fs.N(i) - n
    ensures n * BLKSIZE <= fs.inodes[i].size ==> fs'.inodes[i].size == fs.inodes[i].size - n * BLKSIZE
    decreases n
  {
    if n == 0 {
      ResizedRefl(fs, i);
    } else {
      var mid := LastDropped(fs, fs', i, n);
      DroppedMeaning(fs, mid, i, n - 1);
      RemoveStep(mid, fs', i);
      ResizedTrans(fs, mid, fs', i);
    }
  }

  lemma AddStep(fs: Fs, fs': Fs, i: nat)
    requires fs.Trees() && fs.HasTree(i) && fs.N(i) < SINGLYINDIRECT && AddOutcome(fs, fs', i, 0)
    ensures fs'.Trees() && fs'.HasTree(i) && Resized(fs, fs', i)
    ensures fs'.N(i) == fs.N(i) + 1 && fs'.inodes[i].size == Add32(fs.inodes[i].size, BLKSIZE)
    ensures |fs.free| == |fs'.free| + Needed(fs.N(i), fs.N(i) + 1)
  {
    AddBlockExact(fs, fs', i, 0);
    GrownIsResized(fs, fs', i);
    GrownCount(fs, fs', i);
  }

  lemma RemoveStep(fs: Fs, fs': Fs, i: nat)
    requires fs.Trees() && fs.HasTree(i) && fs.N(i) > 0
    requires fs.N(i) <= SINGLYINDIRECT || SINGLYINDIRECT + NINDIRECT < fs.N(i)
    requires RemoveOutcome(fs, fs', i, 0)
    ensures fs'.Trees() && fs'.HasTree(i) && Resized(fs, fs', i)
    ensures fs'.N(i) == fs.N(i) - 1 && fs'.inodes[i].size == Sub32(fs.inodes[i].size, BLKSIZE)
  {
    RemoveBlockExact(fs, fs', i, 0);
    GrownIsResized(fs', fs, i);
  }

  // What the loops of change_size need before and after each call.

  lemma AddReady(fs: Fs, fs': Fs, i: nat, n: nat)
    requires Added(fs, fs', i, n) && fs.HasTree(i) && fs.N(i) + n <= SINGLYINDIRECT
    ensures InRange(fs', i)
  {
    AddedMeaning(fs, fs', i, n);
    TreesAreInRange(fs', i);
  }

  lemma AddDone(fs: Fs, mid: Fs, fs': Fs, i: nat, n: nat)
    requires Added(fs, mid, i, n) && fs.HasTree(i) && fs.N(i) + n < SINGLYINDIRECT
    requires mid.HasTree(i) && AddOutcome(mid, fs', i, 0)
    ensures Added(fs, fs', i, n + 1) && fs'.HasTree(i) && fs'.N(i) == fs.N(i) + n + 1
  {
    AddedMeaning(fs, fs', i, n + 1);
  }

  lemma DropReady(fs0: Fs, fs: Fs, fs': Fs, i: nat, k: nat, d: nat)
    requires Added(fs0, fs, i, k) && fs0.HasTree(i) && (k == 0 || fs0.N(i) + k <= SINGLYINDIRECT)
    requires Dropped(fs, fs', i, d) && d < fs0.N(i) + k
    requires fs0.N(i) + k <= SINGLYINDIRECT || SINGLYINDIRECT + NINDIRECT < fs0.N(i) + k - d
    ensures InRange(fs', i) && fs'.HasTree(i)
  {
    StartOfDrops(fs0, fs, i, k);
    assert fs'.Trees() && fs'.HasTree(i) by {
      DroppedMeaning(fs, fs', i, d);
    }
    TreesAreInRange(fs', i);
  }

  lemma StartOfDrops(fs0: Fs, fs: Fs, i: nat, k: nat)
    requires Added(fs0, fs, i, k) && fs0.HasTree(i) && (k == 0 || fs0.N(i) + k <= SINGLYINDIRECT)
    ensures fs.Trees() && fs.HasTree(i) && fs.N(i) == fs0.N(i) + k
  {
    if k > 0 {
      AddedMeaning(fs0, fs, i, k);
    } else {
      fs.ValidIs();
    }
  }

  lemma DropMore(fs: Fs, mid: Fs, fs': Fs, i: nat, d: nat)
    requires Dropped(fs, mid, i, d) && mid.HasTree(i) && RemoveOutcome(mid, fs', i, 0)
    ensures Dropped(fs, fs', i, d + 1)
  {
  }

  lemma DropDone(fs0: Fs, fs: Fs, mid: Fs, fs': Fs, i: nat, k: nat, d: nat, r: int)
    requires Added(fs0, fs, i, k) && fs0.HasTree(i) && (k == 0 || fs0.N(i) + k <= SINGLYINDIRECT)
    requires Dropped(fs, mid, i, d) && d < fs0.N(i) + k
    requires fs0.N(i) + k <= SINGLYINDIRECT || SINGLYINDIRECT + NINDIRECT < fs0.N(i) + k - d
    requires mid.HasTree(i) && RemoveOutcome(mid, fs', i, r)
    ensures r == 0 && Dropped(fs, fs', i, d + 1) && fs'.HasTree(i) && fs'.N(i) == fs0.N(i) + k - d - 1
  {
    StartOfDrops(fs0, fs, i, k);
    assert mid.N(i) == fs.N(i) - d by {
      DroppedMeaning(fs, mid, i, d);
    }
    assert r == 0 by {
      RemoveOutcomeIs(mid, fs', i, r);
    }
    DropMore(fs, mid, fs', i, d);
    assert fs'.HasTree(i) && fs'.N(i) == fs.N(i) - (d + 1) by {
      DroppedMeaning(fs, fs', i, d + 1);
    }
  }

  /** change_size as a relation: add blocks until there are enough; drop them again on -ENOSPC; drop what is too much;
      set the size. */
  ghost predicate ChangeSizeOutcome(fs: Fs, fs': Fs, i: nat, newSize: uint32, r: int)
    requires fs.HasTree(i)
  {
    var a, b := fs.N(i), Size2NBlocks(newSize);
    if b <= a then
      r == 0 && exists mid: Fs :: Dropped(fs, mid, i, a - b) && Sized(mid, fs', i, newSize)
    else if r == 0 then
      exists mid: Fs :: Added(fs, mid, i, b - a) && Sized(mid, fs', i, newSize)
    else
      exists mid: Fs, k: nat ::
        && k < b - a && Added(fs, mid, i, k)
        && mid.HasTree(i) && AddOutcome(mid, mid, i, r)
        && Dropped(mid, fs', i, if r == -ENOSPC then k else 0)
  }

  lemma ChangeSizeFails(fs: Fs, mid: Fs, fs': Fs, i: nat, newSize: uint32, r: int, k: nat)
    requires fs.HasTree(i) && fs.N(i) + k < Size2NBlocks(newSize) && Added(fs, mid, i, k)
    requires r != 0 && mid.HasTree(i) && AddOutcome(mid, mid, i, r)
    requires Dropped(mid, fs', i, if r == -ENOSPC then k else 0)
    ensures ChangeSizeOutcome(fs, fs', i, newSize, r)
  {
  }

  lemma ChangeSizeWorks(fs: Fs, grown: Fs, mid: Fs, fs': Fs, i: nat, newSize: uint32, k: nat)
    requires fs.HasTree(i) && Added(fs, grown, i, k)
    requires k == if fs.N(i) < Size2NBlocks(newSize) then Size2NBlocks(newSize) - fs.N(i) else 0
    requires Dropped(grown, mid, i, fs.N(i) + k - Size2NBlocks(newSize)) && Sized(mid, fs', i, newSize)
    ensures ChangeSizeOutcome(fs, fs', i, newSize, 0)
  {
  }

  ghost predicate Sized(fs: Fs, fs': Fs, i: nat, newSize: uint32) {
    i < |fs.inodes| && fs' == fs.(inodes := fs.inodes[i := fs.inodes[i].(size := newSize)])
  }

  /** Setting the size to another one with as many blocks leaves the trees alone. */
  lemma SameCount(fs: Fs, fs': Fs, i: nat, newSize: uint32)
    requires fs.Trees() && fs.HasTree(i) && Sized(fs, fs', i, newSize) && fs.N(i) == Size2NBlocks(newSize)
    ensures fs'.Trees() && fs'.HasTree(i) && Resized(fs, fs', i)
  {
    assert forall j: nat :: fs'.HasTree(j) ==> fs.HasTree(j) && fs'.N(j) == fs.N(j);
    forall j, s ensures fs'.Owns(j, s) <==> fs.Owns(j, s) {
    }
    forall j, s | fs.Owns(j, s) ensures fs'.AtI(j, s) == fs.AtI(j, s) {
    }
  }

  lemma OthersStayValid(fs: Fs, fs': Fs, i: nat)
    requires fs.Valid() && fs.HasTree(i) && fs'.Trees() && Resized(fs, fs', i)
    ensures fs'.Valid() <==> fs'.inodes[i].size <= TWO32 - BLKSIZE
  {
    fs.ValidIs();
    fs'.ValidIs();
    Size2NBlocksIsCeiling(fs'.inodes[i].size);
    assert fs'.HasTree(i);
    assert forall j: nat :: j != i ==> (fs'.HasTree(j) <==> fs.HasTree(j));
  }

  /** change_size is exact: its result depends on the block counts and the number of free blocks only; on success the
      size is the one asked for; on -ENOSPC nothing has changed; on -EIO the file has grown to its ten direct blocks. */
  lemma ChangeSizeExact(fs: Fs, fs': Fs, i: nat, newSize: uint32, r: int)
    requires fs.Valid() && fs.HasTree(i)
    requires SoundPath(fs.N(i), Size2NBlocks(newSize)) && ChangeSizeOutcome(fs, fs', i, newSize, r)
    ensures fs'.Trees() && Resized(fs, fs', i)
    ensures r == ResizeResult(fs.N(i), Size2NBlocks(newSize), |fs.free|)
    ensures r == 0 ==> fs'.inodes[i].size == newSize
    ensures r == -ENOSPC ==> Restored(fs, fs', i)
    ensures r == -EIO ==> fs'.N(i) == NDIRECT && (Restored(fs, fs', i) <==> fs.N(i) == NDIRECT)
    ensures fs'.Valid() <==> r != 0 || newSize <= TWO32 - BLKSIZE
  {
    fs.ValidIs();
    var a, b := fs.N(i), Size2NBlocks(newSize);
    if b <= a {
      var mid: Fs :| Dropped(fs, mid, i, a - b) && Sized(mid, fs', i, newSize);
      DroppedMeaning(fs, mid, i, a - b);
      SetSize(fs, mid, fs', i, newSize);
    } else if r == 0 {
      GrowthSucceeds(fs, fs', i, newSize);
    } else {
      GrowthFails(fs, fs', i, newSize, r);
    }
  }

  lemma GrowthSucceeds(fs: Fs, fs': Fs, i: nat, newSize: uint32)
    requires fs.Valid() && fs.HasTree(i) && fs.N(i) < Size2NBlocks(newSize) <= SINGLYINDIRECT
    requires ChangeSizeOutcome(fs, fs', i, newSize, 0)
    ensures fs'.Trees() && Resized(fs, fs', i) && fs'.inodes[i].size == newSize
    ensures Needed(fs.N(i), Size2NBlocks(newSize)) <= |fs.free|
    ensures fs'.Valid() <==> newSize <= TWO32 - BLKSIZE
  {
    var n := Size2NBlocks(newSize) - fs.N(i);
    var mid: Fs :| Added(fs, mid, i, n) && Sized(mid, fs', i, newSize);
    AddedMeaning(fs, mid, i, n);
    SetSize(fs, mid, fs', i, newSize);
  }

  lemma GrowthFails(fs: Fs, fs': Fs, i: nat, newSize: uint32, r: int)
    requires fs.Valid() && fs.HasTree(i) && fs.N(i) < Size2NBlocks(newSize) <= SINGLYINDIRECT
    requires r != 0 && ChangeSizeOutcome(fs, fs', i, newSize, r)
    ensures fs'.Trees() && fs'.Valid() && Resized(fs, fs', i)
    ensures r == ResizeResult(fs.N(i), Size2NBlocks(newSize), |fs.free|)
    ensures r == -ENOSPC ==> Restored(fs, fs', i)
    ensures r == -EIO ==> fs'.N(i) == NDIRECT && (Restored(fs, fs', i) <==> fs.N(i) == NDIRECT)
  {
    var b := Size2NBlocks(newSize);
    var mid: Fs, k: nat :|
      && k < b - fs.N(i) && Added(fs, mid, i, k)
      && mid.HasTree(i) && AddOutcome(mid, mid, i, r)
      && Dropped(mid, fs', i, if r == -ENOSPC then k else 0);
    assert fs.inodes[i].size <= fs.N(i) * BLKSIZE by {
      Size2NBlocksIsCeiling(fs.inodes[i].size);
    }
    AddedMeaning(fs, mid, i, k);
    FailureCode(fs, mid, i, b, r, k);
    RolledBack(fs, mid, fs', i, r, k);
    OthersStayValid(fs, fs', i);
  }

  lemma FailureCode(fs: Fs, mid: Fs, i: nat, b: nat, r: int, k: nat)
    requires fs.HasTree(i) && mid.HasTree(i) && mid.N(i) == fs.N(i) + k < b <= SINGLYINDIRECT
    requires |fs.free| == |mid.free| + Needed(fs.N(i), fs.N(i) + k)
    requires r != 0 && AddOutcome(mid, mid, i, r)
    ensures r == ResizeResult(fs.N(i), b, |fs.free|)
    ensures r == -EIO ==> mid.N(i) == NDIRECT
  {
    AddBlockFailure(mid, mid, i, r);
  }

  lemma SetSize(fs: Fs, mid: Fs, fs': Fs, i: nat, newSize: uint32)
    requires fs.Valid() && fs.HasTree(i) && mid.Trees() && mid.HasTree(i)
    requires Resized(fs, mid, i) && mid.N(i) == Size2NBlocks(newSize) && Sized(mid, fs', i, newSize)
    ensures fs'.Trees() && Resized(fs, fs', i) && fs'.inodes[i].size == newSize
    ensures fs'.Valid() <==> newSize <= TWO32 - BLKSIZE
  {
    SameCount(mid, fs', i, newSize);
    ResizedTrans(fs, mid, fs', i);
    OthersStayValid(fs, fs', i);
  }

  lemma RolledBack(fs: Fs, mid: Fs, fs': Fs, i: nat, r: int, k: nat)
    requires fs.Valid() && fs.HasTree(i) && mid.Trees() && mid.HasTree(i) && Resized(fs, mid, i)
    requires mid.N(i) == fs.N(i) + k <= SINGLYINDIRECT && (r == -EIO ==> mid.N(i) == NDIRECT)
    requires mid.inodes[i].size == fs.inodes[i].size + k * BLKSIZE
    requires Dropped(mid, fs', i, if r == -ENOSPC then k else 0)
    ensures fs'.Trees() && Resized(fs, fs', i) && fs'.HasTree(i)
    ensures fs'.inodes[i].size == fs.inodes[i].size + if r == -ENOSPC then 0 else k * BLKSIZE
    ensures r == -ENOSPC || k == 0 ==> Restored(fs, fs', i)
    ensures r != -ENOSPC ==> fs' == mid
    ensures fs'.inodes[i].size <= TWO32 - BLKSIZE
  {
    fs.ValidIs();
    DroppedMeaning(mid, fs', i, if r == -ENOSPC then k else 0);
    ResizedTrans(fs, mid, fs', i);
    if r == -ENOSPC || k == 0 {
      ResizedBack(fs, fs', i);
    }
    assert fs'.inodes[i].size <= TWO32 - BLKSIZE;
  }
}
