// storeblk and what the formatter's file-writing loop adds up to, on states:
// blocks are handed out in order, and every new one extends one file at any
// of the three levels of its block map.
module Storing {
  import opened Words
  import opened Layout
  import opened Image
  import opened DoublyIndirect

  /** The blocks not yet handed out. */
  function Rest(next: nat, limit: nat): (r: set<nat>)
    ensures forall b :: b in r <==> next <= b < limit
    decreases limit - next
  {
    if next >= limit then {} else {next} + Rest(next + 1, limit)
  }

  /** How many pointer blocks have to be opened before file block n has a place. */
  function Opened(n: nat): nat
    requires n < MAXFILEBLKS
  {
    if n == NDIRECT then 1
    else if n == NDIRECT + NINDIRECT then 2
    else match DataSlot(n) case Double(_, j) => (if j == 0 then 1 else 0) case _ => 0
  }

  /** Something put into a block that no file has. */
  function Scribbled(fs: Fs, b: nat, data: Block): Fs
    requires b < |fs.blocks|
  {
    fs.(blocks := fs.blocks[b := data])
  }

  lemma ScribbleMissesPlace(fs: Fs, b: nat, data: Block, j: nat, s: Slot)
    requires fs.Trees() && b in fs.free && b < |fs.blocks| && fs.Owns(j, s)
    ensures Scribbled(fs, b, data).AtI(j, s) == fs.AtI(j, s)
  {
    match s {
      case Direct(_) =>
      case Indirect =>
      case Indirect2 =>
      case Single(_) =>
        NoSharing(fs, j, Indirect, j, Indirect);
      case Leaf(k) =>
        NoSharing(fs, j, Indirect2, j, Indirect2);
      case Double(k, _) =>
        NoSharing(fs, j, Indirect2, j, Indirect2);
        NoSharing(fs, j, Leaf(k), j, Leaf(k));
    }
  }

  /** Growing after scribbling on a free block is growing. */
  lemma GrownAfterScribbling(fs: Fs, b: nat, data: Block, fs': Fs, i: nat)
    requires fs.Trees() && b in fs.free && b < |fs.blocks| && fs.HasTree(i)
    requires Grown(Scribbled(fs, b, data), fs', i)
    ensures Grown(fs, fs', i)
  {
    var mid := Scribbled(fs, b, data);
    forall j, s | j != i && fs.Owns(j, s) ensures fs'.AtI(j, s) == fs.AtI(j, s) {
      assert mid.Owns(j, s);
      ScribbleMissesPlace(fs, b, data, j, s);
    }
    forall s | Has(fs.N(i), s) ensures fs'.AtI(i, s) == fs.AtI(i, s) {
      assert fs.Owns(i, s);
      ScribbleMissesPlace(fs, b, data, i, s);
    }
    forall j, s | fs.Owns(j, s) && fs'.Owns(j, s) && s.IsData()
      ensures Fetch(fs'.blocks, fs.AtI(j, s)) == Fetch(fs.blocks, fs.AtI(j, s))
    {
      assert mid.Owns(j, s);
      NoSharing(fs, j, s, j, s);
    }
  }

  // ----- pointers not yet in use

  /** The pointer fields that file i does not use hold 0: storeblk opens a pointer block when it finds a 0. */
  ghost predicate Blank(fs: Fs, i: nat)
    requires i < |fs.inodes|
  {
    var n, oi := fs.N(i), fs.inodes[i];
    && (n <= NDIRECT ==> oi.indirect == 0)
    && (n <= NDIRECT + NINDIRECT ==> oi.indirect2 == 0)
    && (n > NDIRECT + NINDIRECT ==> LeavesBlank(Fetch(fs.blocks, oi.indirect2), n))
  }

  ghost predicate LeavesBlank(words: Block, n: nat) {
    forall k: IndirectNumber :: !Has(n, Leaf(k)) ==> words[k] == 0
  }

  ghost predicate Blanks(fs: Fs) {
    forall i: nat :: fs.HasTree(i) ==> Blank(fs, i)
  }

  /** storeblk's tests for 0 tell whether a pointer block is there. */
  lemma ZeroMeansNone(fs: Fs, i: nat)
    requires fs.Trees() && fs.HasTree(i) && Blank(fs, i) && fs.N(i) < MAXFILEBLKS
    ensures fs.inodes[i].indirect == 0 <==> fs.N(i) <= NDIRECT
    ensures fs.inodes[i].indirect2 == 0 <==> fs.N(i) <= NDIRECT + NINDIRECT
    ensures fs.N(i) > NDIRECT + NINDIRECT ==>
      (Fetch(fs.blocks, fs.inodes[i].indirect2)[NextLeaf(fs, i)] == 0 <==> NextWord(fs, i) == 0)
  {
    if fs.N(i) > NDIRECT {
      NoSharing(fs, i, Indirect, i, Indirect);
    }
    if fs.N(i) > NDIRECT + NINDIRECT {
      NoSharing(fs, i, Indirect2, i, Indirect2);
      NextIs(fs, i);
      if NextWord(fs, i) != 0 {
        NoSharing(fs, i, Leaf(NextLeaf(fs, i)), i, Leaf(NextLeaf(fs, i)));
      }
    }
  }

  /** Other files' unused pointers stay as they are. */
  lemma OthersBlank(fs: Fs, fs': Fs, i: nat, touched: set<nat>)
    requires fs.Trees() && Blanks(fs)
    requires |fs'.inodes| == |fs.inodes| && |fs'.blocks| == |fs.blocks|
    requires forall b :: b in touched ==> b in fs.free || (b in fs.owner && fs.owner[b].ino == i)
    requires forall b :: 0 <= b < |fs.blocks| && b !in touched ==> fs'.blocks[b] == fs.blocks[b]
    requires forall j :: 0 <= j < |fs.inodes| && j != i ==> fs'.inodes[j] == fs.inodes[j]
    requires fs'.HasTree(i) ==> Blank(fs', i)
    ensures Blanks(fs')
  {
    forall j: nat | fs'.HasTree(j) ensures Blank(fs', j) {
      if j != i {
        assert fs.HasTree(j);
        if fs.N(j) > NDIRECT + NINDIRECT {
          assert fs.Owns(j, Indirect2);
          NoSharing(fs, j, Indirect2, j, Indirect2);
        }
      }
    }
  }

  /** The formatter's invariant on files. */
  ghost predicate Orderly(fs: Fs) {
    OrderlyAfter(1 + |fs.blocks|, fs)
  }

  // The countdown keeps the definition out of proofs that only pass the invariant on; OrderlyIs opens it.
  ghost predicate OrderlyAfter(n: nat, fs: Fs)
    decreases n
  {
    if n == 0 then fs.Trees() && Blanks(fs) else OrderlyAfter(n - 1, fs)
  }

  lemma OrderlyIs(fs: Fs)
    ensures Orderly(fs) <==> fs.Trees() && Blanks(fs)
  {
    OrderlyAfterIs(1 + |fs.blocks|, fs);
  }

  lemma {:induction false} OrderlyAfterIs(n: nat, fs: Fs)
    ensures OrderlyAfter(n, fs) <==> fs.Trees() && Blanks(fs)
    decreases n
  {
    if n > 0 {
      OrderlyAfterIs(n - 1, fs);
    }
  }

  lemma ScribbledOrderly(fs: Fs, b: nat, data: Block)
    requires Orderly(fs) && b in fs.free
    ensures b < |fs.blocks| && Orderly(Scribbled(fs, b, data))
  {
    OrderlyIs(fs);
    var fs' := Scribbled(fs, b, data);
    OrderlyIs(fs');
    ScribbledTrees(fs, b, data);
    ScribbledBlanks(fs, b, data);
  }

  lemma ScribbledTrees(fs: Fs, b: nat, data: Block)
    requires fs.Trees() && b in fs.free
    ensures b < |fs.blocks| && Scribbled(fs, b, data).Trees()
  {
    var fs' := Scribbled(fs, b, data);
    assert forall j: nat :: fs'.HasTree(j) <==> fs.HasTree(j);
    forall j, s ensures fs'.Owns(j, s) <==> fs.Owns(j, s) {
    }
    forall j, s | fs.Owns(j, s) ensures fs'.AtI(j, s) == fs.AtI(j, s) {
      ScribbleMissesPlace(fs, b, data, j, s);
    }
  }

  lemma ScribbledBlanks(fs: Fs, b: nat, data: Block)
    requires fs.Trees() && Blanks(fs) && b in fs.free && b < |fs.blocks|
    ensures Blanks(Scribbled(fs, b, data))
  {
    var fs' := Scribbled(fs, b, data);
    forall j: nat | fs'.HasTree(j) ensures Blank(fs', j) {
      assert fs.HasTree(j);
      if fs.N(j) > NDIRECT + NINDIRECT {
        NoSharing(fs, j, Indirect2, j, Indirect2);
      }
    }
  }

  // ----- storeblk

  /** File i is longer by block x, whose contents are untouched. */
  ghost predicate Placed(fs: Fs, fs': Fs, i: nat, x: nat) {
    PlacedAfter(1 + |fs.blocks|, fs, fs', i, x)
  }

  // The countdown keeps the definition out of proofs that only pass the outcome on; PlacedIs opens it.
  ghost predicate PlacedAfter(n: nat, fs: Fs, fs': Fs, i: nat, x: nat)
    decreases n
  {
    if n == 0 then IsPlaced(fs, fs', i, x) else PlacedAfter(n - 1, fs, fs', i, x)
  }

  ghost predicate IsPlaced(fs: Fs, fs': Fs, i: nat, x: nat) {
    && fs.HasTree(i) && fs.N(i) < MAXFILEBLKS && x < |fs.blocks|
    && Grown(fs, fs', i)
    && fs'.AtI(i, DataSlot(fs.N(i))) == x
    && fs'.blocks[x] == fs.blocks[x]
  }

  lemma PlacedIs(fs: Fs, fs': Fs, i: nat, x: nat)
    ensures Placed(fs, fs', i, x) <==> IsPlaced(fs, fs', i, x)
  {
    PlacedAfterIs(1 + |fs.blocks|, fs, fs', i, x);
  }

  lemma {:induction false} PlacedAfterIs(n: nat, fs: Fs, fs': Fs, i: nat, x: nat)
    ensures PlacedAfter(n, fs, fs', i, x) <==> IsPlaced(fs, fs', i, x)
    decreases n
  {
    if n > 0 {
      PlacedAfterIs(n - 1, fs, fs', i, x);
    }
  }

  lemma PlacedAfterScribbling(fs: Fs, b: nat, data: Block, fs': Fs, i: nat, x: nat)
    requires Orderly(fs) && b in fs.free && b < |fs.blocks| && fs.HasTree(i) && b != x
    requires Placed(Scribbled(fs, b, data), fs', i, x)
    ensures Placed(fs, fs', i, x)
  {
    OrderlyIs(fs);
    PlacedIs(fs, fs', i, x);
    PlacedIs(Scribbled(fs, b, data), fs', i, x);
    GrownAfterScribbling(fs, b, data, fs', i);
  }

  /** Block x, the first one not yet recorded anywhere, can become the next block of file i if there is room for its
      pointer blocks. */
  ghost predicate Storable(fs: Fs, i: nat, x: nat) {
    && Orderly(fs) && fs.HasTree(i) && fs.N(i) < MAXFILEBLKS
    && fs.free == Rest(x, |fs.blocks|) && x < |fs.blocks| <= BLKBITSIZE
  }

  ghost predicate StoreReady(fs: Fs, i: nat, x: nat) {
    Storable(fs, i, x) && x + 1 + Opened(fs.N(i)) <= |fs.blocks|
  }

  /** Placed, and the blocks after x are the pointer blocks that had to be opened for it. */
  ghost predicate Stored(fs: Fs, fs': Fs, i: nat, x: nat) {
    && fs.HasTree(i) && fs.N(i) < MAXFILEBLKS
    && Orderly(fs') && Placed(fs, fs', i, x) && fs'.free == Rest(x + 1 + Opened(fs.N(i)), |fs.blocks|)
  }

  lemma StoreDirect(fs: Fs, i: nat, x: nat)
    requires StoreReady(fs, i, x) && fs.N(i) < NDIRECT
    ensures Stored(fs, AddDirect(fs, i, x), i, x)
  {
    var fs' := AddDirect(fs, i, x);
    OrderlyIs(fs);
    OrderlyIs(fs');
    PlacedIs(fs, fs', i, x);
    AddDirectGrows(fs, i, x);
    OthersBlank(fs, fs', i, {});
    DataSlotIs(fs.N(i));
  }

  lemma PointerInRange(fs: Fs, i: nat, s: Slot)
    requires Orderly(fs) && fs.Owns(i, s)
    ensures 3 <= fs.first <= fs.AtI(i, s) < |fs.blocks| && fs.AtI(i, s) !in fs.free
  {
    OrderlyIs(fs);
    NoSharing(fs, i, s, i, s);
  }

  // What the two cases at the second level share.
  lemma SinglePlaced(fs: Fs, i: nat, ind: uint32, x: uint32)
    requires Orderly(fs) && fs.HasTree(i) && NDIRECT <= fs.N(i) < NDIRECT + NINDIRECT && x in fs.free
    requires if fs.N(i) == NDIRECT then ind in fs.free && ind != x else ind == fs.inodes[i].indirect
    ensures ind < |fs.blocks|
    ensures Orderly(AddSingle(fs, i, ind, x)) && Placed(fs, AddSingle(fs, i, ind, x), i, x)
  {
    OrderlyIs(fs);
    AddSingleGrows(fs, i, ind, x);
    AddSingleInRange(fs, i, ind, x);
    var fs' := AddSingle(fs, i, ind, x);
    OrderlyIs(fs');
    OthersBlank(fs, fs', i, {ind});
    if fs.N(i) > NDIRECT {
      PointerInRange(fs, i, Indirect);
    }
    DataSlotIs(fs.N(i));
    assert fs'.AtI(i, Single(fs.N(i) - NDIRECT)) == x && fs'.blocks[x] == fs.blocks[x];
    PlacedIs(fs, fs', i, x);
  }

  /** Under an indirect block that is there already. */
  lemma StoreSingle(fs: Fs, i: nat, x: nat)
    requires StoreReady(fs, i, x) && NDIRECT < fs.N(i) < NDIRECT + NINDIRECT
    ensures 0 < fs.inodes[i].indirect < |fs.blocks|
    ensures Stored(fs, AddSingle(fs, i, fs.inodes[i].indirect, x), i, x)
  {
    PointerInRange(fs, i, Indirect);
    SinglePlaced(fs, i, fs.inodes[i].indirect, x);
  }

  /** Under a new indirect block, zeroed before use. */
  lemma StoreFirstSingle(fs: Fs, i: nat, x: nat)
    requires StoreReady(fs, i, x) && fs.N(i) == NDIRECT
    ensures Stored(fs, AddSingle(Scribbled(fs, x + 1, ZEROBLOCK), i, x + 1, x), i, x)
  {
    var mid := Scribbled(fs, x + 1, ZEROBLOCK);
    ScribbledOrderly(fs, x + 1, ZEROBLOCK);
    SinglePlaced(mid, i, x + 1, x);
    PlacedAfterScribbling(fs, x + 1, ZEROBLOCK, AddSingle(mid, i, x + 1, x), i, x);
  }

  // What the three cases at the third level share; a new ind2 has been zeroed.
  lemma DoublePlaced(fs: Fs, i: nat, ind2: uint32, leaf: uint32, x: uint32)
    requires Orderly(fs) && DoubleChoice(fs, i, ind2, leaf, x)
    requires ind2 < |fs.blocks| && (ind2 in fs.free ==> fs.blocks[ind2] == ZEROBLOCK)
    ensures leaf < |fs.blocks|
    ensures Orderly(AddDouble(fs, i, ind2, leaf, x)) && Placed(fs, AddDouble(fs, i, ind2, leaf, x), i, x)
  {
    DoubleOrderly(fs, i, ind2, leaf, x);
    DoubleIsPlaced(fs, i, ind2, leaf, x);
  }

  lemma DoubleOrderly(fs: Fs, i: nat, ind2: uint32, leaf: uint32, x: uint32)
    requires Orderly(fs) && DoubleChoice(fs, i, ind2, leaf, x)
    requires ind2 < |fs.blocks| && (ind2 in fs.free ==> fs.blocks[ind2] == ZEROBLOCK)
    ensures leaf < |fs.blocks| && Orderly(AddDouble(fs, i, ind2, leaf, x))
  {
    OrderlyIs(fs);
    DoubleInRange(fs, i, ind2, leaf, x);
    OrderlyIs(AddDouble(fs, i, ind2, leaf, x));
    AddDoubleTrees(fs, i, ind2, leaf, x);
    DoubleBlanks(fs, i, ind2, leaf, x);
  }

  lemma DoubleBlanks(fs: Fs, i: nat, ind2: uint32, leaf: uint32, x: uint32)
    requires DoubleReady(fs, i, ind2, leaf, x) && ind2 < |fs.blocks| && leaf < |fs.blocks| && Blanks(fs)
    requires ind2 in fs.free ==> fs.blocks[ind2] == ZEROBLOCK
    ensures Blanks(AddDouble(fs, i, ind2, leaf, x))
  {
    DoubleBlank(fs, i, ind2, leaf, x);
    DoubleInRange(fs, i, ind2, leaf, x);
    OthersBlank(fs, AddDouble(fs, i, ind2, leaf, x), i, {ind2, leaf});
  }

  lemma DoubleIsPlaced(fs: Fs, i: nat, ind2: uint32, leaf: uint32, x: uint32)
    requires Orderly(fs) && DoubleChoice(fs, i, ind2, leaf, x) && ind2 < |fs.blocks| && leaf < |fs.blocks|
    ensures Placed(fs, AddDouble(fs, i, ind2, leaf, x), i, x)
  {
    OrderlyIs(fs);
    DoubleInRange(fs, i, ind2, leaf, x);
    AddDoubleGrown(fs, i, ind2, leaf, x);
    PlacedIs(fs, AddDouble(fs, i, ind2, leaf, x), i, x);
    DataSlotIs(fs.N(i));
  }

  lemma DoubleBlank(fs: Fs, i: nat, ind2: uint32, leaf: uint32, x: uint32)
    requires DoubleReady(fs, i, ind2, leaf, x) && ind2 < |fs.blocks| && leaf < |fs.blocks| && Blanks(fs)
    requires ind2 in fs.free ==> fs.blocks[ind2] == ZEROBLOCK
    ensures Blank(AddDouble(fs, i, ind2, leaf, x), i)
  {
    var n, fs' := fs.N(i), AddDouble(fs, i, ind2, leaf, x);
    DoubleInRange(fs, i, ind2, leaf, x);
    SizeStep(fs.inodes[i].size);
    if n > NDIRECT + NINDIRECT {
      NoSharing(fs, i, Indirect2, i, Indirect2);
    }
    forall k': IndirectNumber | !Has(n + 1, Leaf(k')) ensures fs'.blocks[ind2][k'] == 0 {
      NextIs(fs, i);
      HasNext(n, Leaf(k'));
    }
  }

  /** Under an indirect block of the doubly indirect block, both there already. */
  lemma StoreDouble(fs: Fs, i: nat, x: nat)
    requires StoreReady(fs, i, x) && NDIRECT + NINDIRECT < fs.N(i) && NextWord(fs, i) != 0
    ensures 0 < fs.inodes[i].indirect2 < |fs.blocks| && 0 < fs.AtI(i, Leaf(NextLeaf(fs, i))) < |fs.blocks|
    ensures Stored(fs, AddDouble(fs, i, fs.inodes[i].indirect2, fs.AtI(i, Leaf(NextLeaf(fs, i))), x), i, x)
  {
    var ind2, leaf := fs.inodes[i].indirect2, fs.AtI(i, Leaf(NextLeaf(fs, i)));
    PointerInRange(fs, i, Indirect2);
    NextIs(fs, i);
    PointerInRange(fs, i, Leaf(NextLeaf(fs, i)));
    DoublePlaced(fs, i, ind2, leaf, x);
  }

  /** Under a new indirect block. */
  lemma StoreNextLeaf(fs: Fs, i: nat, x: nat)
    requires StoreReady(fs, i, x) && NDIRECT + NINDIRECT < fs.N(i) && NextWord(fs, i) == 0
    ensures 0 < fs.inodes[i].indirect2 < |fs.blocks|
    ensures Stored(fs, AddDouble(Scribbled(fs, x + 1, ZEROBLOCK), i, fs.inodes[i].indirect2, x + 1, x), i, x)
  {
    var ind2, mid := fs.inodes[i].indirect2, Scribbled(fs, x + 1, ZEROBLOCK);
    PointerInRange(fs, i, Indirect2);
    ScribbledOrderly(fs, x + 1, ZEROBLOCK);
    DoublePlaced(mid, i, ind2, x + 1, x);
    PlacedAfterScribbling(fs, x + 1, ZEROBLOCK, AddDouble(mid, i, ind2, x + 1, x), i, x);
  }

  /** Under a new doubly indirect block and its first indirect block. */
  lemma StoreFirstDouble(fs: Fs, i: nat, x: nat)
    requires StoreReady(fs, i, x) && fs.N(i) == NDIRECT + NINDIRECT
    ensures var mid := Scribbled(Scribbled(fs, x + 1, ZEROBLOCK), x + 2, ZEROBLOCK);
            Stored(fs, AddDouble(mid, i, x + 1, x + 2, x), i, x)
  {
    var mid1 := Scribbled(fs, x + 1, ZEROBLOCK);
    var mid := Scribbled(mid1, x + 2, ZEROBLOCK);
    var fs' := AddDouble(mid, i, x + 1, x + 2, x);
    NextIs(fs, i);
    ScribbledOrderly(fs, x + 1, ZEROBLOCK);
    ScribbledOrderly(mid1, x + 2, ZEROBLOCK);
    DoublePlaced(mid, i, x + 1, x + 2, x);
    PlacedAfterScribbling(mid1, x + 2, ZEROBLOCK, fs', i, x);
    PlacedAfterScribbling(fs, x + 1, ZEROBLOCK, fs', i, x);
  }

  // ----- the third level

  // The doubly indirect block and the indirect block below it that storing x uses, and the blocks once both are open.
  ghost function Ind2For(fs: Fs, i: nat, x: nat): nat
    requires i < |fs.inodes|
  {
    if fs.N(i) == NDIRECT + NINDIRECT then x + 1 else fs.inodes[i].indirect2
  }

  ghost function LeafFor(fs: Fs, i: nat, x: nat): nat
    requires i < |fs.inodes| && NDIRECT + NINDIRECT <= fs.N(i) < MAXFILEBLKS
  {
    if fs.N(i) == NDIRECT + NINDIRECT then x + 2
    else if NextWord(fs, i) == 0 then x + 1
    else fs.AtI(i, Leaf(NextLeaf(fs, i)))
  }

  lemma DoubleNumbers(fs: Fs, i: nat, x: nat)
    requires Storable(fs, i, x) && NDIRECT + NINDIRECT <= fs.N(i)
    ensures 3 <= fs.first <= x && fs.first <= Ind2For(fs, i, x) && fs.first <= LeafFor(fs, i, x) != Ind2For(fs, i, x)
    ensures x + 1 + Opened(fs.N(i)) <= |fs.blocks| ==>
              Ind2For(fs, i, x) < |fs.blocks| && LeafFor(fs, i, x) < |fs.blocks|
    ensures fs.N(i) == NDIRECT + NINDIRECT ==> Opened(fs.N(i)) == 2 && NextLeaf(fs, i) == 0 && NextWord(fs, i) == 0
    ensures fs.N(i) > NDIRECT + NINDIRECT ==>
      && Ind2For(fs, i, x) < |fs.blocks|
      && Opened(fs.N(i)) == (if NextWord(fs, i) == 0 then 1 else 0)
      && fs.blocks[Ind2For(fs, i, x)][NextLeaf(fs, i)] == if NextWord(fs, i) == 0 then 0 else LeafFor(fs, i, x)
  {
    OrderlyIs(fs);
    NextIs(fs, i);
    ZeroMeansNone(fs, i);
    if fs.N(i) > NDIRECT + NINDIRECT {
      NoSharing(fs, i, Indirect2, i, Indirect2);
      if NextWord(fs, i) != 0 {
        NoSharing(fs, i, Leaf(NextLeaf(fs, i)), i, Indirect2);
      }
    }
  }

  ghost function DoubleOpened(fs: Fs, i: nat, x: nat): (blocks: seq<Block>)
    requires Storable(fs, i, x) && NDIRECT + NINDIRECT <= fs.N(i) && x + 1 + Opened(fs.N(i)) <= |fs.blocks|
    ensures |blocks| == |fs.blocks| && LeafFor(fs, i, x) < |blocks|
  {
    DoubleNumbers(fs, i, x);
    var k, ind2, leaf := NextLeaf(fs, i), Ind2For(fs, i, x), LeafFor(fs, i, x);
    if fs.N(i) == NDIRECT + NINDIRECT then
      fs.blocks[ind2 := ZEROBLOCK][leaf := ZEROBLOCK][ind2 := ZEROBLOCK[k := leaf]]
    else if NextWord(fs, i) == 0 then
      fs.blocks[leaf := ZEROBLOCK][ind2 := fs.blocks[ind2][k := leaf]]
    else fs.blocks
  }

  /** Whatever was there before, storeblk's third case ends in a file longer by block x. */
  lemma DoubleStores(fs: Fs, i: nat, x: nat) returns (fs': Fs)
    requires StoreReady(fs, i, x) && NDIRECT + NINDIRECT <= fs.N(i)
    ensures Ind2For(fs, i, x) < TWO32 && Stored(fs, fs', i, x)
    ensures var leaf, blocks := LeafFor(fs, i, x), DoubleOpened(fs, i, x);
            leaf < |blocks| && fs'.blocks == blocks[leaf := blocks[leaf][NextWord(fs, i) := x]]
    ensures var oi := fs.inodes[i];
            fs' == fs.(free := fs'.free, owner := fs'.owner, blocks := fs'.blocks,
                       inodes := fs.inodes[i := oi.(indirect2 := Ind2For(fs, i, x), size := Add32(oi.size, BLKSIZE))])
  {
    DoubleNumbers(fs, i, x);
    var ind2, leaf := Ind2For(fs, i, x), LeafFor(fs, i, x);
    if fs.N(i) == NDIRECT + NINDIRECT {
      var mid := Scribbled(Scribbled(fs, x + 1, ZEROBLOCK), x + 2, ZEROBLOCK);
      StoreFirstDouble(fs, i, x);
      fs' := AddDouble(mid, i, x + 1, x + 2, x);
    } else if NextWord(fs, i) == 0 {
      StoreNextLeaf(fs, i, x);
      fs' := AddDouble(Scribbled(fs, x + 1, ZEROBLOCK), i, ind2, x + 1, x);
    } else {
      StoreDouble(fs, i, x);
      fs' := AddDouble(fs, i, ind2, leaf, x);
      assert fs.blocks[ind2][NextLeaf(fs, i) := leaf] == fs.blocks[ind2];
      assert fs.blocks[ind2 := fs.blocks[ind2]] == fs.blocks;
    }
  }
}
