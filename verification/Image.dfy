// The state of a mounted OSPFS image and what it means for its block trees
// to be safe: no two files, and no two places of one file, share a block,
// and no block in use is marked free.
module Image {
  import opened Words
  import opened Layout

  /** The one place that holds a block number. */
  datatype Owner = Owner(ino: nat, slot: Slot)

  // 'first' is the first data block, 'free' the set of blocks whose bitmap bit
  // is set; 'owner' records, for every block in some tree, which place names it.
  datatype Fs = Fs(first: nat, free: set<nat>, blocks: seq<Block>, inodes: seq<Inode>, owner: map<nat, Owner>)
  {
    /** Number of blocks of file i, as the code computes it from the size. */
    function N(i: nat): nat
      requires i < |inodes|
    {
      Size2NBlocks(inodes[i].size)
    }

    function AtI(i: nat, s: Slot): uint32
      requires i < |inodes|
    {
      At(blocks, inodes[i], s)
    }

    predicate HasTree(i: nat) {
      i < |inodes| && inodes[i].ftype != FTYPE_SYMLINK
    }

    /** Place s is in use in the block tree of inode i. */
    predicate Owns(i: nat, s: Slot) {
      HasTree(i) && Has(N(i), s)
    }

    /** Block safety. */
    ghost predicate Trees() {
      && 3 <= first <= |blocks| <= BLKBITSIZE
      && (forall b :: b in free ==> first <= b < |blocks| && b !in owner)
      && (forall b :: b in owner ==>
            && first <= b < |blocks|
            && Owns(owner[b].ino, owner[b].slot)
            && AtI(owner[b].ino, owner[b].slot) == b)
      && (forall i, s :: Owns(i, s) ==> AtI(i, s) in owner && owner[AtI(i, s)] == Owner(i, s))
      && (forall i: nat :: HasTree(i) ==> N(i) <= MAXFILEBLKS)
    }

    /** Block safety, and every size is one that its blocks can hold. */
    ghost predicate Valid()
      ensures Valid() ==> forall i: nat :: HasTree(i) ==> inodes[i].size <= MAXFILEBLKS * BLKSIZE
    {
      ValidAfter(1 + |blocks|)
    }

    // The countdown keeps the definition of Trees out of proofs that only pass validity on; ValidIs opens it.
    ghost predicate ValidAfter(n: nat)
      ensures ValidAfter(n) ==> forall i: nat :: HasTree(i) ==> inodes[i].size <= MAXFILEBLKS * BLKSIZE
    {
      if n == 0 then
        Trees() && forall i: nat :: HasTree(i) ==> inodes[i].size <= MAXFILEBLKS * BLKSIZE
      else
        ValidAfter(n - 1)
    }

    lemma ValidIs()
      ensures Valid() <==> Trees() && forall i: nat :: HasTree(i) ==> inodes[i].size <= MAXFILEBLKS * BLKSIZE
    {
      ValidAfterIs(1 + |blocks|);
    }

    lemma {:induction false} ValidAfterIs(n: nat)
      ensures ValidAfter(n) <==> Trees() && forall i: nat :: HasTree(i) ==> inodes[i].size <= MAXFILEBLKS * BLKSIZE
    {
      if n > 0 {
        ValidAfterIs(n - 1);
      }
    }

    /** Byte 'off' of file i. */
    function FileByte(i: nat, off: nat): byte
      requires i < |inodes| && off < MAXFILEBLKS * BLKSIZE
    {
      Bytes(Fetch(blocks, AtI(i, DataSlot(off / BLKSIZE))))[off % BLKSIZE]
    }

    /** The byte string of file i. */
    function Contents(i: nat): (bs: seq<byte>)
      requires i < |inodes| && inodes[i].size <= MAXFILEBLKS * BLKSIZE
      ensures |bs| == inodes[i].size
    {
      Prefix(i, inodes[i].size)
    }

    function Prefix(i: nat, n: nat): (bs: seq<byte>)
      requires i < |inodes| && n <= MAXFILEBLKS * BLKSIZE
      ensures |bs| == n
    {
      if n == 0 then [] else Prefix(i, n - 1) + [FileByte(i, n - 1)]
    }

    lemma {:induction false} PrefixAt(i: nat, n: nat, k: nat)
      requires i < |inodes| && k < n <= MAXFILEBLKS * BLKSIZE
      ensures Prefix(i, n)[k] == FileByte(i, k)
    {
      if k < n - 1 {
        PrefixAt(i, n - 1, k);
      }
    }
  }

  /** Block safety in full: every block in use lies in the data region, is marked allocated, and is named once. */
  lemma NoSharing(fs: Fs, i: nat, s: Slot, j: nat, t: Slot)
    requires fs.Trees() && fs.Owns(i, s) && fs.Owns(j, t)
    ensures fs.first <= fs.AtI(i, s) < |fs.blocks| && fs.AtI(i, s) !in fs.free
    ensures fs.AtI(i, s) == fs.AtI(j, t) <==> i == j && s == t
  {
    assert fs.owner[fs.AtI(i, s)] == Owner(i, s);
    assert fs.owner[fs.AtI(j, t)] == Owner(j, t);
  }

  /** The blocks that the tree of file i has for n + 1 file blocks and not for n. */
  function NewBlocks(fs: Fs, i: nat, n: nat): set<nat>
    requires i < |fs.inodes| && n < MAXFILEBLKS
  {
    {fs.AtI(i, DataSlot(n))}
    + (if n == NDIRECT then {fs.AtI(i, Indirect)} else {})
    + (if n == NDIRECT + NINDIRECT then {fs.AtI(i, Indirect2)} else {})
    + (match DataSlot(n) case Double(k, j) => if j == 0 then {fs.AtI(i, Leaf(k))} else {} case _ => {})
  }

  /** The same disk and inode table apart from inode i and the blocks that hold its pointers. */
  ghost predicate OthersKept(fs: Fs, fs': Fs, i: nat) {
    && fs'.first == fs.first && |fs'.blocks| == |fs.blocks| && |fs'.inodes| == |fs.inodes|
    && (forall j :: 0 <= j < |fs.inodes| && j != i ==> fs'.inodes[j] == fs.inodes[j])
    && (forall j, s :: j != i && fs.Owns(j, s) ==> fs'.AtI(j, s) == fs.AtI(j, s))
  }

  /** What the data blocks hold is as before. */
  ghost predicate DataKept(fs: Fs, fs': Fs)
    requires |fs'.inodes| == |fs.inodes|
  {
    forall j, s :: fs.Owns(j, s) && fs'.Owns(j, s) && s.IsData() ==>
      Fetch(fs'.blocks, fs.AtI(j, s)) == Fetch(fs.blocks, fs.AtI(j, s))
  }

  /** The places that n blocks use hold the same block numbers. */
  ghost predicate PrefixKept(fs: Fs, fs': Fs, i: nat, n: nat)
    requires i < |fs.inodes| == |fs'.inodes|
  {
    forall s :: Has(n, s) ==> fs'.AtI(i, s) == fs.AtI(i, s)
  }

  /** fs' is fs with exactly one more block at the end of file i. */
  ghost predicate Grown(fs: Fs, fs': Fs, i: nat)
    requires i < |fs.inodes|
  {
    var n := fs.N(i);
    && OthersKept(fs, fs', i)
    && n < MAXFILEBLKS
    && fs'.inodes[i].ftype == fs.inodes[i].ftype
    && fs'.inodes[i].nlink == fs.inodes[i].nlink
    && fs'.inodes[i].mode == fs.inodes[i].mode
    && fs'.inodes[i].size == Add32(fs.inodes[i].size, BLKSIZE)
    && fs'.N(i) == n + 1
    && PrefixKept(fs, fs', i, n)
    && NewBlocks(fs', i, n) <= fs.free
    && fs'.free == fs.free - NewBlocks(fs', i, n)
    && DataKept(fs, fs')
  }

  /** Giving free blocks to new places keeps the trees safe. */
  lemma TreesExtend(fs: Fs, fs': Fs, taken: map<nat, Owner>)
    requires fs.Trees()
    requires fs'.first == fs.first && |fs'.blocks| == |fs.blocks| && |fs'.inodes| == |fs.inodes|
    requires taken.Keys <= fs.free && fs'.free == fs.free - taken.Keys && fs'.owner == fs.owner + taken
    requires forall b :: b in taken ==>
      fs'.Owns(taken[b].ino, taken[b].slot) && fs'.AtI(taken[b].ino, taken[b].slot) == b
    requires forall j, s :: fs.Owns(j, s) ==> fs'.Owns(j, s) && fs'.AtI(j, s) == fs.AtI(j, s)
    requires forall j, s :: fs'.Owns(j, s) ==>
      fs.Owns(j, s) || (fs'.AtI(j, s) in taken && taken[fs'.AtI(j, s)] == Owner(j, s))
    requires forall j: nat :: fs'.HasTree(j) ==> fs'.N(j) <= MAXFILEBLKS
    ensures fs'.Trees()
  {
  }

  // ----- what add_block does below 266 blocks

  /** One more block x, named by the inode itself. */
  ghost function AddDirect(fs: Fs, i: nat, x: uint32): Fs
    requires fs.HasTree(i) && fs.N(i) < NDIRECT
  {
    var n, oi := fs.N(i), fs.inodes[i];
    fs.(free := fs.free - {x},
        inodes := fs.inodes[i := oi.(direct := oi.direct[n := x], size := Add32(oi.size, BLKSIZE))],
        owner := fs.owner[x := Owner(i, Direct(n))])
  }

  lemma AddDirectGrows(fs: Fs, i: nat, x: uint32)
    requires fs.Trees() && fs.HasTree(i) && fs.N(i) < NDIRECT && x in fs.free
    ensures AddDirect(fs, i, x).Trees() && Grown(fs, AddDirect(fs, i, x), i)
  {
    var n, fs' := fs.N(i), AddDirect(fs, i, x);
    SizeStep(fs.inodes[i].size);
    forall s ensures Has(n + 1, s) <==> Has(n, s) || s == Direct(n) {
      HasNext(n, s);
    }
    assert forall j: nat :: fs'.HasTree(j) ==> fs.HasTree(j) && (j != i ==> fs'.N(j) == fs.N(j));
    forall j, s | fs.Owns(j, s) ensures fs'.Owns(j, s) && fs'.AtI(j, s) == fs.AtI(j, s) {
    }
    TreesExtend(fs, fs', map[x := Owner(i, Direct(n))]);
  }

  /** One more block x, named by the indirect block; 'ind' is that block, old or just taken. */
  ghost function AddSingle(fs: Fs, i: nat, ind: uint32, x: uint32): Fs
    requires fs.HasTree(i) && NDIRECT <= fs.N(i) < NDIRECT + NINDIRECT && ind < |fs.blocks|
  {
    var n, oi := fs.N(i), fs.inodes[i];
    var taken := SingleTaken(i, n, ind, x);
    fs.(free := if n == NDIRECT then fs.free - {x} - {ind} else fs.free - {x},
        blocks := fs.blocks[ind := fs.blocks[ind][n - NDIRECT := x]],
        inodes := fs.inodes[i := oi.(indirect := ind, size := Add32(oi.size, BLKSIZE))],
        owner := fs.owner + taken)
  }

  ghost function SingleTaken(i: nat, n: nat, ind: uint32, x: uint32): map<nat, Owner>
    requires NDIRECT <= n < NDIRECT + NINDIRECT
  {
    if n == NDIRECT then map[ind := Owner(i, Indirect), x := Owner(i, Single(0))]
    else map[x := Owner(i, Single(n - NDIRECT))]
  }

  ghost predicate SingleReady(fs: Fs, i: nat, ind: uint32, x: uint32) {
    && fs.Trees() && fs.HasTree(i) && NDIRECT <= fs.N(i) < NDIRECT + NINDIRECT
    && x in fs.free
    && if fs.N(i) == NDIRECT then ind in fs.free && ind != x else ind == fs.inodes[i].indirect
  }

  lemma AddSingleInRange(fs: Fs, i: nat, ind: uint32, x: uint32)
    requires SingleReady(fs, i, ind, x)
    ensures fs.first <= ind < |fs.blocks|
    ensures ind in fs.free || (fs.Owns(i, Indirect) && ind == fs.AtI(i, Indirect))
    ensures forall j, s :: fs.Owns(j, s) && s.IsData() ==> fs.AtI(j, s) != ind
  {
    if fs.N(i) != NDIRECT {
      assert fs.Owns(i, Indirect) && ind == fs.AtI(i, Indirect);
    }
  }

  lemma AddSingleKeeps(fs: Fs, i: nat, ind: uint32, x: uint32)
    requires SingleReady(fs, i, ind, x)
    ensures ind < |fs.blocks|
    ensures var fs' := AddSingle(fs, i, ind, x);
            forall j, s :: fs.Owns(j, s) ==> fs'.Owns(j, s) && fs'.AtI(j, s) == fs.AtI(j, s)
  {
    AddSingleInRange(fs, i, ind, x);
    var n, fs' := fs.N(i), AddSingle(fs, i, ind, x);
    SizeStep(fs.inodes[i].size);
    forall j, s | fs.Owns(j, s) ensures fs'.Owns(j, s) && fs'.AtI(j, s) == fs.AtI(j, s) {
      if j != i {
        OthersUntouched(fs, fs', i, {ind}, j, s);
      } else {
        HasNext(n, s);
        assert fs.Owns(i, s) && s.Single? ==> fs.Owns(i, Indirect);
      }
    }
  }

  lemma AddSingleNew(fs: Fs, i: nat, ind: uint32, x: uint32, j: nat, s: Slot)
    requires SingleReady(fs, i, ind, x) && ind < |fs.blocks|
    requires AddSingle(fs, i, ind, x).Owns(j, s) && !fs.Owns(j, s)
    ensures var fs', taken := AddSingle(fs, i, ind, x), SingleTaken(i, fs.N(i), ind, x);
            j == i && fs'.AtI(j, s) in taken && taken[fs'.AtI(j, s)] == Owner(j, s)
  {
    SizeStep(fs.inodes[i].size);
    HasNext(fs.N(i), s);
  }

  lemma AddSingleTrees(fs: Fs, i: nat, ind: uint32, x: uint32)
    requires SingleReady(fs, i, ind, x) && ind < |fs.blocks|
    ensures AddSingle(fs, i, ind, x).Trees()
  {
    AddSingleKeeps(fs, i, ind, x);
    var n, fs' := fs.N(i), AddSingle(fs, i, ind, x);
    var taken := SingleTaken(i, n, ind, x);
    SizeStep(fs.inodes[i].size);
    forall j, s | fs'.Owns(j, s)
      ensures fs.Owns(j, s) || (fs'.AtI(j, s) in taken && taken[fs'.AtI(j, s)] == Owner(j, s))
    {
      if !fs.Owns(j, s) {
        AddSingleNew(fs, i, ind, x, j, s);
      }
    }
    HasNext(n, DataSlot(n));
    HasNext(n, Indirect);
    assert forall j: nat :: fs'.HasTree(j) ==> fs.HasTree(j) && (j != i ==> fs'.N(j) == fs.N(j));
    assert fs'.free == fs.free - taken.Keys;
    TreesExtend(fs, fs', taken);
  }

  lemma AddSingleGrown(fs: Fs, i: nat, ind: uint32, x: uint32)
    requires SingleReady(fs, i, ind, x) && ind < |fs.blocks|
    ensures Grown(fs, AddSingle(fs, i, ind, x), i)
  {
    var n, fs' := fs.N(i), AddSingle(fs, i, ind, x);
    SizeStep(fs.inodes[i].size);
    assert PrefixKept(fs, fs', i, n) && OthersKept(fs, fs', i) by {
      AddSingleKeeps(fs, i, ind, x);
      forall s | Has(n, s) ensures fs'.AtI(i, s) == fs.AtI(i, s) {
        assert fs.Owns(i, s);
      }
    }
    assert DataKept(fs, fs') by {
      AddSingleInRange(fs, i, ind, x);
    }
    assert NewBlocks(fs', i, n) == SingleTaken(i, n, ind, x).Keys by {
      assert DataSlot(n) == Single(n - NDIRECT);
    }
  }

  lemma AddSingleGrows(fs: Fs, i: nat, ind: uint32, x: uint32)
    requires SingleReady(fs, i, ind, x)
    ensures ind < |fs.blocks|
    ensures AddSingle(fs, i, ind, x).Trees() && Grown(fs, AddSingle(fs, i, ind, x), i)
  {
    AddSingleInRange(fs, i, ind, x);
    AddSingleTrees(fs, i, ind, x);
    AddSingleGrown(fs, i, ind, x);
  }

  /** Changes confined to free blocks and to blocks of file i move no block of another file. */
  lemma OthersUntouched(fs: Fs, fs': Fs, i: nat, touched: set<nat>, j: nat, s: Slot)
    requires fs.Trees() && fs.Owns(j, s) && j != i
    requires |fs'.inodes| == |fs.inodes| && |fs'.blocks| == |fs.blocks|
    requires forall b :: b in touched ==> b in fs.free || (b in fs.owner && fs.owner[b].ino == i)
    requires forall b :: 0 <= b < |fs.blocks| && b !in touched ==> fs'.blocks[b] == fs.blocks[b]
    requires fs'.inodes[j] == fs.inodes[j]
    ensures fs'.AtI(j, s) == fs.AtI(j, s)
  {
    match s {
      case Direct(_) =>
      case Indirect =>
      case Indirect2 =>
      case Single(_) =>
        assert fs.Owns(j, Indirect);
        assert fs.AtI(j, Indirect) in fs.owner;
      case Leaf(k) =>
        assert fs.Owns(j, Indirect2);
        assert fs.AtI(j, Indirect2) in fs.owner;
      case Double(k, _) =>
        assert fs.Owns(j, Indirect2) && fs.Owns(j, Leaf(k));
        assert fs.AtI(j, Indirect2) in fs.owner;
        assert fs.AtI(j, Leaf(k)) in fs.owner;
    }
  }

  // ----- what remove_block does where it is right

  /** Taking places out of use and freeing what they held keeps the trees safe. */
  lemma TreesShrink(fs: Fs, fs': Fs, dropped: set<nat>)
    requires fs.Trees()
    requires fs'.first == fs.first && |fs'.blocks| == |fs.blocks| && |fs'.inodes| == |fs.inodes|
    requires dropped <= fs.owner.Keys && fs'.free == fs.free + dropped && fs'.owner == fs.owner - dropped
    requires forall j, s :: fs'.Owns(j, s) ==> fs.Owns(j, s) && fs'.AtI(j, s) == fs.AtI(j, s)
    requires forall j, s :: fs.Owns(j, s) ==> (fs'.Owns(j, s) <==> fs.AtI(j, s) !in dropped)
    requires forall j: nat :: fs'.HasTree(j) ==> fs'.N(j) <= MAXFILEBLKS
    ensures fs'.Trees()
  {
    forall b | b in fs'.owner
      ensures fs'.Owns(fs'.owner[b].ino, fs'.owner[b].slot) && fs'.AtI(fs'.owner[b].ino, fs'.owner[b].slot) == b
    {
      assert fs.Owns(fs.owner[b].ino, fs.owner[b].slot);
    }
  }

  /** The state after the last block of file i has gone, given the blocks and pointers left behind. */
  ghost function Removed(fs: Fs, i: nat, blocks: seq<Block>, oi: Inode): Fs
    requires fs.HasTree(i) && 0 < fs.N(i) <= MAXFILEBLKS
  {
    var dropped := NewBlocks(fs, i, fs.N(i) - 1);
    fs.(free := fs.free + dropped, blocks := blocks,
        inodes := fs.inodes[i := oi.(size := Sub32(fs.inodes[i].size, BLKSIZE))],
        owner := fs.owner - dropped)
  }

  /** What a removal may do: only words of file i's own pointer blocks change, and the places that stay keep their
      values. */
  ghost predicate CleanRemoval(fs: Fs, i: nat, blocks: seq<Block>, oi: Inode) {
    && fs.Trees() && fs.HasTree(i) && 0 < fs.N(i)
    && |blocks| == |fs.blocks|
    && oi.ftype == fs.inodes[i].ftype && oi.nlink == fs.inodes[i].nlink && oi.mode == fs.inodes[i].mode
    && (forall b :: 0 <= b < |blocks| && !(b in fs.owner && fs.owner[b].ino == i && !fs.owner[b].slot.IsData()) ==>
          blocks[b] == fs.blocks[b])
    && (forall s :: Has(fs.N(i) - 1, s) ==> At(blocks, oi, s) == fs.AtI(i, s))
  }

  lemma RemovedSlots(fs: Fs, i: nat, blocks: seq<Block>, oi: Inode)
    requires CleanRemoval(fs, i, blocks, oi)
    ensures var fs' := Removed(fs, i, blocks, oi);
            forall j, s :: fs'.Owns(j, s) ==> fs.Owns(j, s) && fs'.AtI(j, s) == fs.AtI(j, s)
  {
    var n, fs' := fs.N(i), Removed(fs, i, blocks, oi);
    SizeStep(fs.inodes[i].size);
    forall j, s | fs'.Owns(j, s) ensures fs.Owns(j, s) && fs'.AtI(j, s) == fs.AtI(j, s) {
      if j == i {
        HasNext(n - 1, s);
      } else {
        assert fs.Owns(j, s);
        var touched := set b | b in fs.owner && fs.owner[b].ino == i;
        OthersUntouched(fs, fs', i, touched, j, s);
      }
    }
  }

  lemma RemovedIsDropped(fs: Fs, i: nat, n: nat, j: nat, s: Slot)
    requires fs.Trees() && fs.HasTree(i) && fs.N(i) == n + 1 && fs.Owns(j, s)
    ensures fs.AtI(j, s) in NewBlocks(fs, i, n) <==> j == i && !Has(n, s)
  {
    DataSlotIs(n);
    HasNext(n, s);
    HasNext(n, DataSlot(n));
    assert fs.Owns(i, DataSlot(n));
    if n == NDIRECT {
      assert fs.Owns(i, Indirect);
    }
    if n == NDIRECT + NINDIRECT {
      assert fs.Owns(i, Indirect2);
    }
    if DataSlot(n).Double? && DataSlot(n).j == 0 {
      assert fs.Owns(i, Leaf(DataSlot(n).k));
    }
  }

  lemma NewBlocksOwned(fs: Fs, i: nat, n: nat)
    requires fs.Trees() && fs.HasTree(i) && fs.N(i) == n + 1
    ensures NewBlocks(fs, i, n) <= fs.owner.Keys
  {
    DataSlotIs(n);
    assert fs.Owns(i, DataSlot(n));
    if n == NDIRECT {
      assert fs.Owns(i, Indirect);
    }
    if n == NDIRECT + NINDIRECT {
      assert fs.Owns(i, Indirect2);
    }
    if DataSlot(n).Double? && DataSlot(n).j == 0 {
      assert fs.Owns(i, Leaf(DataSlot(n).k));
    }
  }

  lemma RemovedCounts(fs: Fs, i: nat, blocks: seq<Block>, oi: Inode)
    requires CleanRemoval(fs, i, blocks, oi)
    ensures var fs' := Removed(fs, i, blocks, oi);
      && |fs'.inodes| == |fs.inodes| && fs'.HasTree(i) && fs'.N(i) == fs.N(i) - 1
      && forall j: nat :: (fs'.HasTree(j) <==> fs.HasTree(j)) && (fs'.HasTree(j) && j != i ==> fs'.N(j) == fs.N(j))
  {
    SizeStep(fs.inodes[i].size);
  }

  lemma RemovedOwns(fs: Fs, i: nat, blocks: seq<Block>, oi: Inode)
    requires CleanRemoval(fs, i, blocks, oi)
    ensures var fs' := Removed(fs, i, blocks, oi);
      forall j, s :: fs.Owns(j, s) ==> (fs'.Owns(j, s) <==> fs.AtI(j, s) !in NewBlocks(fs, i, fs.N(i) - 1))
  {
    RemovedCounts(fs, i, blocks, oi);
    forall j, s | fs.Owns(j, s)
      ensures Removed(fs, i, blocks, oi).Owns(j, s) <==> fs.AtI(j, s) !in NewBlocks(fs, i, fs.N(i) - 1)
    {
      RemovedIsDropped(fs, i, fs.N(i) - 1, j, s);
    }
  }

  lemma RemovedTrees(fs: Fs, i: nat, blocks: seq<Block>, oi: Inode)
    requires CleanRemoval(fs, i, blocks, oi)
    ensures Removed(fs, i, blocks, oi).Trees()
  {
    var n, fs' := fs.N(i), Removed(fs, i, blocks, oi);
    RemovedCounts(fs, i, blocks, oi);
    RemovedSlots(fs, i, blocks, oi);
    NewBlocksOwned(fs, i, n - 1);
    RemovedOwns(fs, i, blocks, oi);
    TreesShrink(fs, fs', NewBlocks(fs, i, n - 1));
  }

  lemma RemovedKeepsData(fs: Fs, i: nat, blocks: seq<Block>, oi: Inode)
    requires CleanRemoval(fs, i, blocks, oi)
    ensures DataKept(Removed(fs, i, blocks, oi), fs)
  {
    var fs' := Removed(fs, i, blocks, oi);
    forall j, s | fs'.Owns(j, s) && fs.Owns(j, s) && s.IsData()
      ensures Fetch(fs.blocks, fs'.AtI(j, s)) == Fetch(fs'.blocks, fs'.AtI(j, s))
    {
      RemovedSlots(fs, i, blocks, oi);
      assert fs.owner[fs.AtI(j, s)] == Owner(j, s);
    }
  }

  lemma RemovedKeepsRest(fs: Fs, i: nat, blocks: seq<Block>, oi: Inode)
    requires CleanRemoval(fs, i, blocks, oi)
    ensures var fs' := Removed(fs, i, blocks, oi);
            PrefixKept(fs', fs, i, fs.N(i) - 1) && OthersKept(fs', fs, i)
  {
    RemovedSlots(fs, i, blocks, oi);
    SizeStep(fs.inodes[i].size);
    var fs' := Removed(fs, i, blocks, oi);
    forall s | Has(fs.N(i) - 1, s) ensures fs'.AtI(i, s) == fs.AtI(i, s) {
      assert fs'.Owns(i, s);
    }
  }

  /** Removing the last block is exactly the inverse of adding it. */
  lemma RemovedUngrows(fs: Fs, i: nat, blocks: seq<Block>, oi: Inode)
    requires CleanRemoval(fs, i, blocks, oi)
    ensures Grown(Removed(fs, i, blocks, oi), fs, i)
  {
    var n, fs' := fs.N(i), Removed(fs, i, blocks, oi);
    SizeStep(fs.inodes[i].size);
    RemovedKeepsData(fs, i, blocks, oi);
    RemovedKeepsRest(fs, i, blocks, oi);
    NewBlocksOwned(fs, i, n - 1);
    var dropped := NewBlocks(fs, i, n - 1);
    assert dropped !! fs.free;
    assert fs.free == fs'.free - dropped;
  }
}
