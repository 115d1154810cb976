// The formatter: blocks handed out in order through the block cache, files
// written block by block, and the bitmap made at the end.
module Formatter {
  import opened Words
  import opened Freemap
  import opened Layout
  import opened Image
  import opened Storing
  import opened Copying
  import opened DoublyIndirect
  import opened InodeTable
  import opened BlockCache
  import opened Mounting

  // What the users of the cache hold while block x is being stored: few blocks, and none that can be a pointer block.
  ghost predicate Hands(pins: multiset<nat>, fs: Fs, x: nat, spare: nat) {
    && |pins| + spare <= CACHESIZE
    && forall b :: b in pins ==> b < fs.first || b == x || (b in fs.owner && fs.owner[b].slot.IsData())
  }

  lemma PointerNotHeld(pins: multiset<nat>, fs: Fs, x: nat, spare: nat, i: nat, s: Slot)
    requires Hands(pins, fs, x, spare) && Orderly(fs) && fs.Owns(i, s) && !s.IsData() && x in fs.free
    ensures fs.AtI(i, s) !in pins && fs.first <= fs.AtI(i, s) < |fs.blocks|
  {
    OrderlyIs(fs);
    NoSharing(fs, i, s, i, s);
  }

  lemma FreshNotHeld(pins: multiset<nat>, fs: Fs, x: nat, spare: nat, y: nat)
    requires Hands(pins, fs, x, spare) && Orderly(fs) && fs.free == Rest(x, |fs.blocks|) && x in fs.free && x < y
    ensures y !in pins && fs.first <= x
  {
    OrderlyIs(fs);
  }

  /** storeblk's tests for 0, on the inode. */
  lemma BlankPointers(fs: Fs, i: nat)
    requires Orderly(fs) && fs.HasTree(i) && fs.N(i) < MAXFILEBLKS
    ensures fs.inodes[i].indirect == 0 <==> fs.N(i) <= NDIRECT
    ensures fs.inodes[i].indirect2 == 0 <==> fs.N(i) <= NDIRECT + NINDIRECT
  {
    OrderlyIs(fs);
    ZeroMeansNone(fs, i);
  }

  /** What storeblk's second case has made once the word is written. */
  lemma SingleStored(fs: Fs, i: nat, x: nat, view: seq<Block>, shape: Shape, sz: uint32, ind: uint32,
                     blocks: seq<Block>)
    returns (fs': Fs)
    requires StoreReady(fs, i, x) && NDIRECT <= fs.N(i) < NDIRECT + NINDIRECT
    requires if fs.N(i) == NDIRECT then ind == x + 1 && blocks == fs.blocks[x + 1 := ZEROBLOCK]
             else ind == fs.inodes[i].indirect && blocks == fs.blocks
    requires shape.first == fs.first <= ind < |view| == |fs.blocks|
    requires Shows(view, shape, blocks, fs.inodes[i := fs.inodes[i].(indirect := ind)], Filling(i, sz))
    ensures Stored(fs, fs', i, x) && fs'.first == fs.first && |fs'.blocks| == |view|
    ensures Shows(view[ind := view[ind][fs.N(i) - NDIRECT := x]], shape, fs'.blocks, fs'.inodes, Filling(i, sz))
  {
    var inodes, size := fs.inodes[i := fs.inodes[i].(indirect := ind)], Add32(fs.inodes[i].size, BLKSIZE);
    if fs.N(i) == NDIRECT {
      fs' := AddSingle(Scribbled(fs, x + 1, ZEROBLOCK), i, x + 1, x);
      StoreFirstSingle(fs, i, x);
    } else {
      fs' := AddSingle(fs, i, ind, x);
      StoreSingle(fs, i, x);
    }
    ShownBlock(view, shape, blocks, inodes, Filling(i, sz), ind);
    var word := blocks[ind][fs.N(i) - NDIRECT := x];
    ShowsBlock(view, shape, blocks, inodes, Filling(i, sz), ind, word);
    ShowsSize(view[ind := word], shape, blocks[ind := word], inodes, Filling(i, sz), size);
    assert fs'.inodes == inodes[i := inodes[i].(size := size)];
    assert fs'.blocks == blocks[ind := word];
  }

  /** What storeblk's third case has made once the word is written. */
  lemma DoubleStored(fs: Fs, i: nat, x: nat, view: seq<Block>, shape: Shape, sz: uint32) returns (fs': Fs)
    requires StoreReady(fs, i, x) && NDIRECT + NINDIRECT <= fs.N(i) && shape.first == fs.first && |view| == |fs.blocks|
    requires Ind2For(fs, i, x) < TWO32
    requires Shows(view, shape, DoubleOpened(fs, i, x),
                   fs.inodes[i := fs.inodes[i].(indirect2 := Ind2For(fs, i, x))], Filling(i, sz))
    ensures Stored(fs, fs', i, x) && fs'.first == fs.first && |fs'.blocks| == |view|
    ensures var leaf := LeafFor(fs, i, x);
      && leaf < |view|
      && Shows(view[leaf := view[leaf][NextWord(fs, i) := x]], shape, fs'.blocks, fs'.inodes, Filling(i, sz))
  {
    DoubleNumbers(fs, i, x);
    fs' := DoubleStores(fs, i, x);
    var ind2, leaf, blocks := Ind2For(fs, i, x), LeafFor(fs, i, x), DoubleOpened(fs, i, x);
    var inodes, size := fs.inodes[i := fs.inodes[i].(indirect2 := ind2)], Add32(fs.inodes[i].size, BLKSIZE);
    ShownBlock(view, shape, blocks, inodes, Filling(i, sz), leaf);
    var word := blocks[leaf][NextWord(fs, i) := x];
    ShowsBlock(view, shape, blocks, inodes, Filling(i, sz), leaf, word);
    ShowsSize(view[leaf := word], shape, blocks[leaf := word], inodes, Filling(i, sz), size);
    assert fs'.inodes == inodes[i := inodes[i].(size := size)];
  }

  // The indirect block that storing x uses is held by nobody.
  lemma LeafNotHeld(pins: multiset<nat>, fs: Fs, i: nat, x: nat, spare: nat)
    requires Hands(pins, fs, x, spare) && Storable(fs, i, x) && NDIRECT + NINDIRECT <= fs.N(i)
    ensures LeafFor(fs, i, x) !in pins && LeafFor(fs, i, x) != Ind2For(fs, i, x)
  {
    DoubleNumbers(fs, i, x);
    FreshNotHeld(pins, fs, x, spare, x + 1);
    FreshNotHeld(pins, fs, x, spare, x + 2);
    NextIs(fs, i);
    if NextWord(fs, i) != 0 {
      PointerNotHeld(pins, fs, x, spare, i, Leaf(NextLeaf(fs, i)));
    }
  }

  // What the users of the cache hold between blocks: inode blocks, and data blocks of files.
  ghost predicate Pinned(pins: multiset<nat>, fs: Fs) {
    forall b :: b in pins ==> b < fs.first || (b in fs.owner && fs.owner[b].slot.IsData())
  }

  // Whoever holds this block holds it as a block of inodes.
  ghost predicate InodesHeld(s: State, b: nat) {
    b in s.pins ==> exists h :: Holds(s, h, b, INODES)
  }

  lemma PinnedKept(pins: multiset<nat>, fs: Fs, fs': Fs)
    requires Pinned(pins, fs) && fs'.first == fs.first
    requires forall b :: b in fs.owner ==> b in fs'.owner && fs'.owner[b] == fs.owner[b]
    ensures Pinned(pins, fs')
  {
  }

  lemma NextNotHeld(pins: multiset<nat>, fs: Fs, x: nat)
    requires Pinned(pins, fs) && Orderly(fs) && fs.free == Rest(x, |fs.blocks|) && x <= |fs.blocks|
    ensures x !in pins
    ensures x in fs.free ==> 3 <= fs.first <= x
  {
    OrderlyIs(fs);
  }

  // The first data block, after one block of bitmap and the inode blocks.
  function DataStart(ninodes: nat): nat {
    FREEMAP_BLK + 1 + (ninodes + BLKINODES - 1) / BLKINODES
  }

  class Formatter {
    const c: Cache
    const shape: Shape
    var nextb: nat
    var nextinode: nat
    // The size that the inode being filled shows.
    ghost var pending: uint32

    ghost predicate Ready()
      reads c, c.disk, c.cache
    {
      c.Valid() && c.disk.Length == |c.view| <= BLKBITSIZE && c.cache.Length == CACHESIZE
    }

    /** The files of fs are what the image under construction has, up to the size of inode i. */
    ghost predicate Depicts(fs: Fs, i: nat)
      reads this, c
    {
      && fs.first == shape.first && i < shape.ninodes && |fs.blocks| == |c.view|
      && Shows(c.view, shape, fs.blocks, fs.inodes, Filling(i, pending))
    }

    // opendisk, with the arguments that main accepts; the bitmap is one block then.
    constructor (nblocks: nat, ninodes: nat)
      requires 2 <= nblocks <= BLKBITSIZE && 2 <= ninodes < nblocks - 2 - nblocks / BLKBITSIZE
      ensures Ready() && fresh(c) && fresh(c.disk) && fresh(c.cache) && c.pins == multiset{}
      ensures shape == Shape(FREEMAP_BLK + 1, ninodes, DataStart(ninodes)) && shape.Fits(nblocks) && |c.view| == nblocks
      ensures nextb == shape.first && nextinode == 0
      ensures var fs := Empty(shape, nblocks); Shows(c.view, shape, fs.blocks, fs.inodes, Settled)
    {
      c := new Cache(nblocks);
      shape := Shape(FREEMAP_BLK + 1, ninodes, DataStart(ninodes));
      nextb, nextinode := DataStart(ninodes), 0;
      new;
      MakeBitmap();
      MakeInodeBlocks();
      ShowsEmpty(c.view, shape);
    }

    // The first loop of opendisk.
    method MakeBitmap()
      requires Ready() && c.pins == multiset{} && |c.view| > 2
      modifies c, c.cache, c.disk
      ensures Ready() && c.pins == multiset{} && c.view == old(c.view)[2 := ONESBLOCK]
    {
      var r := Get(FREEMAP_BLK, false, BITS);
      Set(r.slot, ONESBLOCK, FREEMAP_BLK, BITS);
      Put(r.slot, FREEMAP_BLK, BITS);
    }

    // The second loop of opendisk; every block but the bitmap is zero already.
    method MakeInodeBlocks()
      requires Ready() && c.pins == multiset{} && 2 < shape.firstinob <= shape.first <= |c.view|
      requires forall b :: 0 <= b < |c.view| && b != 2 ==> c.view[b] == ZEROBLOCK
      modifies c, c.cache, c.disk
      ensures Ready() && c.pins == multiset{} && c.view == old(c.view)
    {
      var i := 0;
      while i < shape.first - shape.firstinob
        invariant Ready() && c.pins == multiset{} && c.view == old(c.view)
      {
        var r := Get(shape.firstinob + i, true, INODES);
        Put(r.slot, shape.firstinob + i, INODES);
        i := i + 1;
      }
    }

    // getblk of a block that nobody holds.
    method Get(bno: nat, clr: bool, typ: BlockType) returns (r: Result)
      requires Ready() && bno !in c.pins && |c.pins| < CACHESIZE
      modifies c, c.cache, c.disk
      ensures r.Got? <==> bno < |old(c.view)|
      ensures r.Got? ==>
        && Ready()
        && c.view == (if clr then old(c.view)[bno := ZEROBLOCK] else old(c.view))
        && c.pins == old(c.pins) + multiset{bno}
        && Holds(c.Now(), r.slot, bno, typ)
        && forall h, b, t :: Holds(old(c.Now()), h, b, t) ==> b != bno && Holds(c.Now(), h, b, t)
    {
      ghost var s := c.Now();
      RoomLeft(s, bno);
      NotHeld(s, bno, typ);
      r := c.Getblk(bno, clr, typ);
      if r.Got? {
        forall h, b, t | Holds(s, h, b, t) ensures b != bno && Holds(c.Now(), h, b, t) {
          HeldData(s, h, b, t);
          HeldStays(s, c.Now(), r.slot, bno, clr, typ, h, b, t);
        }
      }
    }

    // putblk.
    method Put(slot: nat, ghost b: nat, ghost t: BlockType)
      requires Ready() && Holds(c.Now(), slot, b, t)
      modifies c, c.cache
      ensures Ready() && c.view == old(c.view) && c.pins == old(c.pins) - multiset{b}
      ensures forall h, b2, t2 :: Holds(old(c.Now()), h, b2, t2) && (b2 != b || old(c.pins)[b] > 1) ==>
              Holds(c.Now(), h, b2, t2)
    {
      ghost var s := c.Now();
      HeldCount(s, slot, b, t);
      c.Putblk(slot);
    }

    // A new value for a block that is held.
    method Set(slot: nat, data: Block, ghost b: nat, ghost t: BlockType)
      requires Ready() && Holds(c.Now(), slot, b, t)
      modifies c, c.cache
      ensures Ready() && b < |old(c.view)| && c.view == old(c.view)[b := data] && c.pins == old(c.pins)
      ensures forall h, b2, t2 :: Holds(old(c.Now()), h, b2, t2) ==> Holds(c.Now(), h, b2, t2)
    {
      HeldData(c.Now(), slot, b, t);
      c.Modify(slot, data);
    }

    // A block number goes into word j of a pointer block, which is then let go.
    method SetWord(slot: nat, j: IndirectNumber, word: uint32, ghost b: nat)
      requires Ready() && Holds(c.Now(), slot, b, BITS)
      modifies c, c.cache
      ensures Ready() && b < |old(c.view)| && c.view == old(c.view)[b := old(c.view)[b][j := word]]
      ensures c.pins == old(c.pins) - multiset{b}
      ensures forall h, b2, t2 :: Holds(old(c.Now()), h, b2, t2) && b2 != b ==> Holds(c.Now(), h, b2, t2)
    {
      HeldData(c.Now(), slot, b, BITS);
      Set(slot, c.cache[slot].data[j := word], b, BITS);
      Put(slot, b, BITS);
    }

    // What storeblk needs: block x is held in entry b, the inode in entry 'inob', and x is the last block handed out.
    ghost predicate StoreCall(fs: Fs, i: nat, inob: nat, b: nat, x: nat, t: BlockType)
      reads this, c, c.disk, c.cache
    {
      && Ready() && Depicts(fs, i) && Orderly(fs) && fs.HasTree(i)
      && fs.free == Rest(x, |c.view|) && x < |c.view| && nextb == x + 1
      && Holds(c.Now(), inob, shape.InodeBlock(i), INODES)
      && Holds(c.Now(), b, x, t)
      && Hands(c.pins, fs, x, 2)
    }

    // storeblk, second case, first part: the file's indirect block, opened when there is none.
    method OpenIndirect(ghost fs: Fs, i: nat, inob: nat, b: nat, ghost x: nat, ghost t: BlockType)
      returns (r: Result, ghost ind: nat, ghost blocks: seq<Block>)
      requires StoreCall(fs, i, inob, b, x, t) && NDIRECT <= fs.N(i) < NDIRECT + NINDIRECT
      modifies this`nextb, c, c.cache, c.disk
      ensures r.Got? <==> x + 1 + Opened(fs.N(i)) <= |old(c.view)|
      ensures r.Got? ==>
        && Ready() && |c.view| == |old(c.view)| && nextb == x + 1 + Opened(fs.N(i))
        && (if fs.N(i) == NDIRECT then ind == x + 1 && blocks == fs.blocks[x + 1 := ZEROBLOCK]
            else ind == fs.inodes[i].indirect && blocks == fs.blocks)
        && shape.first <= ind < |c.view|
        && Shows(c.view, shape, blocks, fs.inodes[i := fs.inodes[i].(indirect := ind)], Filling(i, pending))
        && c.pins == old(c.pins) + multiset{ind} && Holds(c.Now(), r.slot, ind, BITS)
        && forall h, b2, t2 :: Holds(old(c.Now()), h, b2, t2) ==> b2 != ind && Holds(c.Now(), h, b2, t2)
    {
      ghost var inoblk := shape.InodeBlock(i);
      HeldData(c.Now(), inob, inoblk, INODES);
      ShownInode(c.view, shape, fs.blocks, fs.inodes, Filling(i, pending), i);
      BlankPointers(fs, i);
      var oi := ReadInode(c.cache[inob].data, i % BLKINODES);
      if oi.indirect == 0 {
        FreshNotHeld(c.pins, fs, x, 2, x + 1);
        ind, blocks := x + 1, fs.blocks;
        r := Get(nextb, true, BITS);
        if r.Abort? {
          return;
        }
        nextb := nextb + 1;
        blocks := fs.blocks[x + 1 := ZEROBLOCK];
        ShowsBlock(old(c.view), shape, fs.blocks, fs.inodes, Filling(i, pending), x + 1, ZEROBLOCK);
        HeldData(c.Now(), inob, inoblk, INODES);
        ShowsPointers(c.view, shape, blocks, fs.inodes, Filling(i, pending), oi.(indirect := x + 1), fs.inodes[i].size);
        Set(inob, WriteInode(c.cache[inob].data, i % BLKINODES, oi.(indirect := c.cache[r.slot].bno)), inoblk, INODES);
      } else {
        ind, blocks := oi.indirect, fs.blocks;
        PointerNotHeld(c.pins, fs, x, 2, i, Indirect);
        r := Get(oi.indirect, false, BITS);
        assert fs.inodes[i := fs.inodes[i].(indirect := ind)] == fs.inodes;
      }
    }

    // storeblk, second case: the place is a word of the indirect block.
    method StoreSingly(ghost fs: Fs, i: nat, inob: nat, b: nat, ghost x: nat, ghost t: BlockType, nblk: nat)
      returns (ok: bool, ghost fs': Fs)
      requires StoreCall(fs, i, inob, b, x, t) && fs.N(i) == nblk && NDIRECT <= nblk < NDIRECT + NINDIRECT
      modifies this`nextb, c, c.cache, c.disk
      ensures ok <==> x + 1 + Opened(nblk) <= |old(c.view)|
      ensures ok ==>
        && Ready() && Depicts(fs', i) && Stored(fs, fs', i, x)
        && nextb == x + 1 + Opened(nblk) && c.pins == old(c.pins)
        && forall h, b2, t2 :: Holds(old(c.Now()), h, b2, t2) ==> Holds(c.Now(), h, b2, t2)
    {
      fs' := fs;
      var r, ind, blocks := OpenIndirect(fs, i, inob, b, x, t);
      if r.Abort? {
        return false, fs;
      }
      fs' := SingleStored(fs, i, x, c.view, shape, pending, ind, blocks);
      SetWord(r.slot, nblk - NDIRECT, c.cache[b].bno, ind);
      ok := true;
    }

    // storeblk, third case, first part: the file's doubly indirect block, opened when there is none.
    method OpenIndirect2(ghost fs: Fs, i: nat, inob: nat, b: nat, ghost x: nat, ghost t: BlockType)
      returns (r: Result, ghost ind2: nat, ghost blocks: seq<Block>)
      requires StoreCall(fs, i, inob, b, x, t) && NDIRECT + NINDIRECT <= fs.N(i) < MAXFILEBLKS
      modifies this`nextb, c, c.cache, c.disk
      ensures r.Abort? ==> fs.N(i) == NDIRECT + NINDIRECT && x + 1 >= |old(c.view)|
      ensures r.Got? ==>
        && Ready() && |c.view| == |old(c.view)|
        && (if fs.N(i) == NDIRECT + NINDIRECT
            then nextb == x + 2 <= |fs.blocks| && ind2 == x + 1 && blocks == fs.blocks[x + 1 := ZEROBLOCK]
            else nextb == x + 1 && ind2 == fs.inodes[i].indirect2 && blocks == fs.blocks)
        && shape.first <= ind2 < |c.view|
        && Shows(c.view, shape, blocks, fs.inodes[i := fs.inodes[i].(indirect2 := ind2)], Filling(i, pending))
        && c.pins == old(c.pins) + multiset{ind2} && Holds(c.Now(), r.slot, ind2, BITS)
        && forall h, b2, t2 :: Holds(old(c.Now()), h, b2, t2) ==> b2 != ind2 && Holds(c.Now(), h, b2, t2)
    {
      ghost var inoblk := shape.InodeBlock(i);
      HeldData(c.Now(), inob, inoblk, INODES);
      ShownInode(c.view, shape, fs.blocks, fs.inodes, Filling(i, pending), i);
      BlankPointers(fs, i);
      var oi := ReadInode(c.cache[inob].data, i % BLKINODES);
      if oi.indirect2 == 0 {
        FreshNotHeld(c.pins, fs, x, 2, x + 1);
        ind2, blocks := x + 1, fs.blocks;
        r := Get(nextb, true, BITS);
        if r.Abort? {
          return;
        }
        nextb := nextb + 1;
        blocks := fs.blocks[x + 1 := ZEROBLOCK];
        ShowsBlock(old(c.view), shape, fs.blocks, fs.inodes, Filling(i, pending), x + 1, ZEROBLOCK);
        HeldData(c.Now(), inob, inoblk, INODES);
        ShowsPointers(c.view, shape, blocks, fs.inodes, Filling(i, pending), oi.(indirect2 := x + 1),
            fs.inodes[i].size);
        Set(inob, WriteInode(c.cache[inob].data, i % BLKINODES, oi.(indirect2 := c.cache[r.slot].bno)), inoblk, INODES);
      } else {
        ind2, blocks := oi.indirect2, fs.blocks;
        PointerNotHeld(c.pins, fs, x, 2, i, Indirect2);
        r := Get(oi.indirect2, false, BITS);
        assert fs.inodes[i := fs.inodes[i].(indirect2 := ind2)] == fs.inodes;
      }
    }

    // storeblk, third case, second part: the indirect block below it, opened when there is none.
    method OpenLeaf(ghost fs: Fs, i: nat, ghost x: nat, slot2: nat, ghost blocks: seq<Block>, k: IndirectNumber)
      returns (r: Result)
      requires Ready() && Storable(fs, i, x) && NDIRECT + NINDIRECT <= fs.N(i) && k == NextLeaf(fs, i)
      requires |fs.blocks| == |c.view| && fs.first == shape.first && Ind2For(fs, i, x) < |c.view|
      requires if fs.N(i) == NDIRECT + NINDIRECT
               then nextb == x + 2 && blocks == fs.blocks[x + 1 := ZEROBLOCK] else nextb == x + 1 && blocks == fs.blocks
      requires Shows(c.view, shape, blocks,
                     fs.inodes[i := fs.inodes[i].(indirect2 := Ind2For(fs, i, x))], Filling(i, pending))
      requires Holds(c.Now(), slot2, Ind2For(fs, i, x), BITS) && LeafFor(fs, i, x) !in c.pins && |c.pins| < CACHESIZE
      modifies this`nextb, c, c.cache, c.disk
      ensures r.Got? <==> x + 1 + Opened(fs.N(i)) <= |old(c.view)|
      ensures r.Got? ==>
        && Ready() && |c.view| == |old(c.view)| && nextb == x + 1 + Opened(fs.N(i))
        && Shows(c.view, shape, DoubleOpened(fs, i, x),
                 fs.inodes[i := fs.inodes[i].(indirect2 := Ind2For(fs, i, x))], Filling(i, pending))
        && c.pins == old(c.pins) + multiset{LeafFor(fs, i, x)} && Holds(c.Now(), r.slot, LeafFor(fs, i, x), BITS)
        && forall h, b2, t2 :: Holds(old(c.Now()), h, b2, t2) ==> b2 != LeafFor(fs, i, x) && Holds(c.Now(), h, b2, t2)
    {
      ghost var ind2, leaf := Ind2For(fs, i, x), LeafFor(fs, i, x);
      ghost var inodes := fs.inodes[i := fs.inodes[i].(indirect2 := ind2)];
      DoubleNumbers(fs, i, x);
      HeldData(c.Now(), slot2, ind2, BITS);
      ShownBlock(c.view, shape, blocks, inodes, Filling(i, pending), ind2);
      var word := c.cache[slot2].data[k];
      if word == 0 {
        assert leaf == nextb;
        r := Get(nextb, true, BITS);
        if r.Abort? {
          return;
        }
        nextb := nextb + 1;
        ShowsBlock(old(c.view), shape, blocks, inodes, Filling(i, pending), leaf, ZEROBLOCK);
        HeldData(c.Now(), slot2, ind2, BITS);
        ShowsBlock(c.view, shape, blocks[leaf := ZEROBLOCK], inodes, Filling(i, pending), ind2,
            blocks[ind2][k := leaf]);
        Set(slot2, c.cache[slot2].data[k := c.cache[r.slot].bno], ind2, BITS);
      } else {
        r := Get(word, false, BITS);
      }
    }

    // storeblk, third case, both parts.
    method OpenDoubly(ghost fs: Fs, i: nat, inob: nat, b: nat, ghost x: nat, ghost t: BlockType, k: IndirectNumber)
      returns (r2: Result, r: Result)
      requires StoreCall(fs, i, inob, b, x, t) && NDIRECT + NINDIRECT <= fs.N(i) < MAXFILEBLKS && k == NextLeaf(fs, i)
      modifies this`nextb, c, c.cache, c.disk
      ensures r.Got? <==> x + 1 + Opened(fs.N(i)) <= |old(c.view)|
      ensures r.Got? ==> r2.Got?
      ensures r.Got? ==>
        && Ready() && |c.view| == |old(c.view)| && nextb == x + 1 + Opened(fs.N(i)) && Ind2For(fs, i, x) < TWO32
        && Shows(c.view, shape, DoubleOpened(fs, i, x),
                 fs.inodes[i := fs.inodes[i].(indirect2 := Ind2For(fs, i, x))], Filling(i, pending))
        && c.pins == old(c.pins) + multiset{Ind2For(fs, i, x)} + multiset{LeafFor(fs, i, x)}
        && LeafFor(fs, i, x) != Ind2For(fs, i, x)
        && Holds(c.Now(), r2.slot, Ind2For(fs, i, x), BITS) && Holds(c.Now(), r.slot, LeafFor(fs, i, x), BITS)
        && forall h, b2, t2 :: Holds(old(c.Now()), h, b2, t2) ==>
             b2 != LeafFor(fs, i, x) && b2 != Ind2For(fs, i, x) && Holds(c.Now(), h, b2, t2)
    {
      r := Abort;
      DoubleNumbers(fs, i, x);
      LeafNotHeld(c.pins, fs, i, x, 2);
      ghost var ind2, blocks;
      r2, ind2, blocks := OpenIndirect2(fs, i, inob, b, x, t);
      if r2.Abort? {
        return;
      }
      r := OpenLeaf(fs, i, x, r2.slot, blocks, k);
    }

    // storeblk, third case: the place is a word of an indirect block that the doubly indirect block names.
    method StoreDoubly(ghost fs: Fs, i: nat, inob: nat, b: nat, ghost x: nat, ghost t: BlockType, nblk: nat)
      returns (ok: bool, ghost fs': Fs)
      requires StoreCall(fs, i, inob, b, x, t) && fs.N(i) == nblk && NDIRECT + NINDIRECT <= nblk < MAXFILEBLKS
      modifies this`nextb, c, c.cache, c.disk
      ensures ok <==> x + 1 + Opened(nblk) <= |old(c.view)|
      ensures ok ==>
        && Ready() && Depicts(fs', i) && Stored(fs, fs', i, x)
        && nextb == x + 1 + Opened(nblk) && c.pins == old(c.pins)
        && forall h, b2, t2 :: Holds(old(c.Now()), h, b2, t2) ==> Holds(c.Now(), h, b2, t2)
    {
      fs' := fs;
      var off := nblk - (NDIRECT + NINDIRECT);
      assert off / NINDIRECT == NextLeaf(fs, i) && off % NINDIRECT == NextWord(fs, i) by {
        NextIs(fs, i);
      }
      var r2, r := OpenDoubly(fs, i, inob, b, x, t, off / NINDIRECT);
      if r.Abort? {
        return false, fs;
      }
      fs' := NameDoubly(fs, i, b, x, t, r2.slot, r.slot, off % NINDIRECT);
      ok := true;
    }

    // storeblk, third case, last part: the number of the block is put in its place.
    method NameDoubly(ghost fs: Fs, i: nat, b: nat, ghost x: nat, ghost t: BlockType, slot2: nat, slot: nat,
                      j: IndirectNumber)
      returns (ghost fs': Fs)
      requires Ready() && StoreReady(fs, i, x) && NDIRECT + NINDIRECT <= fs.N(i) && j == NextWord(fs, i)
      requires shape.first == fs.first && |c.view| == |fs.blocks| && i < shape.ninodes
      requires Ind2For(fs, i, x) < TWO32 && LeafFor(fs, i, x) != Ind2For(fs, i, x)
      requires Shows(c.view, shape, DoubleOpened(fs, i, x),
                     fs.inodes[i := fs.inodes[i].(indirect2 := Ind2For(fs, i, x))], Filling(i, pending))
      requires Holds(c.Now(), b, x, t)
      requires Holds(c.Now(), slot2, Ind2For(fs, i, x), BITS) && Holds(c.Now(), slot, LeafFor(fs, i, x), BITS)
      modifies c, c.cache
      ensures Ready() && Depicts(fs', i) && Stored(fs, fs', i, x)
      ensures c.pins == old(c.pins) - multiset{LeafFor(fs, i, x)} - multiset{Ind2For(fs, i, x)}
      ensures forall h, b2, t2 ::
                Holds(old(c.Now()), h, b2, t2) && b2 != LeafFor(fs, i, x) && b2 != Ind2For(fs, i, x) ==>
                Holds(c.Now(), h, b2, t2)
    {
      fs' := DoubleStored(fs, i, x, c.view, shape, pending);
      SetWord(slot, j, c.cache[b].bno, LeafFor(fs, i, x));
      Put(slot2, Ind2For(fs, i, x), BITS);
    }

    /** storeblk: the block in entry b becomes block nblk of file i. It aborts when the file would be too large, and
        when there is no room for the pointer blocks that have to be opened. */
    method StoreBlk(ghost fs: Fs, i: nat, inob: nat, b: nat, ghost x: nat, ghost t: BlockType, nblk: nat)
      returns (ok: bool, ghost fs': Fs)
      requires StoreCall(fs, i, inob, b, x, t) && fs.N(i) == nblk <= MAXFILEBLKS
      modifies this`nextb, c, c.cache, c.disk
      ensures ok <==> nblk < MAXFILEBLKS && x + 1 + Opened(nblk) <= |old(c.view)|
      ensures ok ==>
        && Ready() && Depicts(fs', i) && Stored(fs, fs', i, x)
        && nextb == x + 1 + Opened(nblk) && c.pins == old(c.pins)
        && forall h, b2, t2 :: Holds(old(c.Now()), h, b2, t2) ==> Holds(c.Now(), h, b2, t2)
    {
      fs' := fs;
      if nblk < NDIRECT {
        StoreDirect(fs, i, x);
        fs' := AddDirect(fs, i, x);
        ShownInode(c.view, shape, fs.blocks, fs.inodes, Filling(i, pending), i);
        HeldData(c.Now(), inob, shape.InodeBlock(i), INODES);
        var oi := ReadInode(c.cache[inob].data, i % BLKINODES);
        oi := oi.(direct := oi.direct[nblk := c.cache[b].bno]);
        ShowsPointers(c.view, shape, fs.blocks, fs.inodes, Filling(i, pending), oi, Add32(fs.inodes[i].size, BLKSIZE));
        Set(inob, WriteInode(c.cache[inob].data, i % BLKINODES, oi), shape.InodeBlock(i), INODES);
        ok := true;
      } else if nblk < NDIRECT + NINDIRECT {
        ok, fs' := StoreSingly(fs, i, inob, b, x, t, nblk);
      } else if nblk < MAXFILEBLKS {
        ok, fs' := StoreDoubly(fs, i, inob, b, x, t, nblk);
      } else {
        ok := false;
      }
    }

    // Between the blocks of a file: the inode is held, and x is the next block to be handed out.
    ghost predicate FileCall(fs: Fs, i: nat, inob: nat)
      reads this, c, c.disk, c.cache
    {
      && Ready() && Depicts(fs, i) && Orderly(fs) && fs.HasTree(i)
      && fs.free == Rest(nextb, |c.view|) && nextb <= |c.view|
      && Holds(c.Now(), inob, shape.InodeBlock(i), INODES)
      && Pinned(c.pins, fs) && |c.pins| + 3 <= CACHESIZE
    }

    // A block number is taken for the bytes just read.
    method FillBlock(ghost fs: Fs, i: nat, inob: nat, chunk: seq<byte>) returns (r: Result, ghost mid: Fs)
      requires FileCall(fs, i, inob) && |chunk| <= BLKSIZE
      modifies c, c.cache, c.disk
      ensures r.Got? <==> nextb < |old(c.view)|
      ensures r.Got? ==>
        && Ready() && |c.view| == |old(c.view)| && nextb in fs.free && mid == Scribbled(fs, nextb, Filled(chunk))
        && Orderly(mid) && Depicts(mid, i)
        && c.pins == old(c.pins) + multiset{nextb} && nextb !in old(c.pins) && Holds(c.Now(), r.slot, nextb, FILE)
        && forall h, b, t :: Holds(old(c.Now()), h, b, t) ==> b != nextb && Holds(c.Now(), h, b, t)
    {
      mid := fs;
      ghost var x := nextb;
      NextNotHeld(c.pins, fs, x);
      r := Get(nextb, true, FILE);
      if r.Abort? {
        return;
      }
      ScribbledOrderly(fs, x, Filled(chunk));
      ShowsBlock(old(c.view), shape, fs.blocks, fs.inodes, Filling(i, pending), x, ZEROBLOCK);
      ShowsBlock(c.view, shape, fs.blocks[x := ZEROBLOCK], fs.inodes, Filling(i, pending), x, Filled(chunk));
      Set(r.slot, Filled(chunk), x, FILE);
      mid := Scribbled(fs, x, Filled(chunk));
      assert mid.blocks == fs.blocks[x := ZEROBLOCK][x := Filled(chunk)];
    }

    // The block that was filled is kept, and becomes the next block of the file.
    method StoreFilled(ghost fs: Fs, ghost mid: Fs, i: nat, inob: nat, slot: nat, nblk: nat)
      returns (ok: bool, ghost fs': Fs)
      requires Ready() && Orderly(mid) && Depicts(mid, i) && mid.HasTree(i) && mid.N(i) == nblk <= MAXFILEBLKS
      requires mid.free == Rest(nextb, |c.view|) && nextb < |c.view| && mid.owner == fs.owner && mid.first == fs.first
      requires Holds(c.Now(), inob, shape.InodeBlock(i), INODES) && Holds(c.Now(), slot, nextb, FILE)
      requires |c.pins| + 2 <= CACHESIZE && c.pins[nextb] == 1 && Pinned(c.pins - multiset{nextb}, fs)
      modifies this`nextb, c, c.cache, c.disk
      ensures ok <==> nblk < MAXFILEBLKS && old(nextb) + 1 + Opened(nblk) <= |old(c.view)|
      ensures ok ==>
        && Ready() && Depicts(fs', i) && Stored(mid, fs', i, old(nextb)) && |c.view| == |old(c.view)|
        && nextb == old(nextb) + 1 + Opened(nblk) && c.pins == old(c.pins) - multiset{old(nextb)}
        && forall h, b, t :: Holds(old(c.Now()), h, b, t) && b != old(nextb) ==> Holds(c.Now(), h, b, t)
    {
      ghost var x := nextb;
      assert forall b :: b in c.pins && b != x ==> b in c.pins - multiset{x};
      nextb := nextb + 1;
      ok, fs' := StoreBlk(mid, i, inob, slot, x, FILE, nblk);
      if ok {
        Put(slot, x, FILE);
      }
    }

    // The bytes read, now in block x, become the next part of the file.
    method KeepChunk(ghost fs0: Fs, ghost fs: Fs, ghost mid: Fs, i: nat, inob: nat, slot: nat, nblk: nat,
                     ghost data: seq<byte>, ghost chunk: seq<byte>)
      returns (ok: bool, ghost fs': Fs)
      requires Ready() && Orderly(mid) && Depicts(mid, i) && Orderly(fs) && Copied(fs0, fs, i, data, nblk)
      requires |chunk| <= BLKSIZE && nextb < |fs.blocks| && mid == Scribbled(fs, nextb, Filled(chunk))
      requires fs.free == Rest(nextb, |c.view|) && nextb < |c.view| && nextb != shape.InodeBlock(i)
      requires Holds(c.Now(), inob, shape.InodeBlock(i), INODES) && Holds(c.Now(), slot, nextb, FILE)
      requires |c.pins| + 2 <= CACHESIZE && c.pins[nextb] == 1 && Pinned(c.pins - multiset{nextb}, fs0)
      requires nblk * BLKSIZE + |chunk| <= |data| && chunk == data[nblk * BLKSIZE..nblk * BLKSIZE + |chunk|]
      requires |chunk| == BLKSIZE || nblk * BLKSIZE + |chunk| == |data|
      modifies this`nextb, c, c.cache, c.disk
      ensures ok <==> nblk < MAXFILEBLKS && old(nextb) + 1 + Opened(nblk) <= |old(c.view)|
      ensures ok ==> FileCall(fs', i, inob) && Copied(fs0, fs', i, data, nblk + 1)
      ensures ok ==> |c.view| == |old(c.view)| && c.pins == old(c.pins) - multiset{old(nextb)}
      ensures ok ==> nextb == old(nextb) + 1 + Opened(nblk)
      ensures ok ==> forall h, b, t :: Holds(old(c.Now()), h, b, t) && b != old(nextb) ==> Holds(c.Now(), h, b, t)
    {
      ghost var x := nextb;
      CopiedCount(fs0, fs, i, data, nblk);
      PinnedKept(c.pins - multiset{x}, fs0, fs);
      ok, fs' := StoreFilled(fs, mid, i, inob, slot, nblk);
      if ok {
        CopiedMore(fs0, fs, fs', i, data, nblk, x, chunk);
        CopiedCount(fs0, fs', i, data, nblk + 1);
        PinnedKept(c.pins, fs0, fs');
      }
    }

    // The block that found the end of the file is given back; nothing will be stored there.
    method DropChunk(ghost fs0: Fs, ghost fs: Fs, ghost mid: Fs, i: nat, inob: nat, slot: nat, ghost nblk: nat,
                     ghost data: seq<byte>, ghost blk: Block)
      requires Ready() && Orderly(mid) && Depicts(mid, i) && Copied(fs0, fs, i, data, nblk) && mid.HasTree(i)
      requires nextb in fs.free && nextb < |fs.blocks| && mid == Scribbled(fs, nextb, blk)
      requires fs.free == Rest(nextb, |c.view|) && nextb != shape.InodeBlock(i)
      requires Holds(c.Now(), inob, shape.InodeBlock(i), INODES) && Holds(c.Now(), slot, nextb, FILE)
      requires c.pins[nextb] == 1 && Pinned(c.pins - multiset{nextb}, fs) && |c.pins| + 2 <= CACHESIZE
      modifies c, c.cache
      ensures FileCall(mid, i, inob) && Copied(fs0, mid, i, data, nblk)
      ensures |c.view| == |old(c.view)| && c.pins == old(c.pins) - multiset{nextb}
      ensures forall h, b, t :: Holds(old(c.Now()), h, b, t) && b != nextb ==> Holds(c.Now(), h, b, t)
    {
      CopiedScribbled(fs0, fs, i, data, nblk, nextb, blk);
      Put(slot, nextb, FILE);
      PinnedKept(c.pins, fs, mid);
    }

    // What becomes of a block with the bytes read: it is stored unless there were none.
    method UseChunk(ghost fs0: Fs, ghost fs: Fs, ghost mid: Fs, i: nat, inob: nat, slot: nat, nblk: nat,
                    ghost data: seq<byte>, chunk: seq<byte>)
      returns (ok: bool, ghost fs': Fs)
      requires Ready() && Orderly(mid) && Depicts(mid, i) && Orderly(fs) && Copied(fs0, fs, i, data, nblk)
      requires fs.HasTree(i) && |chunk| <= BLKSIZE && nextb < |fs.blocks| && mid == Scribbled(fs, nextb, Filled(chunk))
      requires fs.free == Rest(nextb, |c.view|) && nextb < |c.view| && nextb != shape.InodeBlock(i)
      requires Holds(c.Now(), inob, shape.InodeBlock(i), INODES) && Holds(c.Now(), slot, nextb, FILE)
      requires |c.pins| + 2 <= CACHESIZE && c.pins[nextb] == 1
      requires Pinned(c.pins - multiset{nextb}, fs0) && Pinned(c.pins - multiset{nextb}, fs)
      requires nblk * BLKSIZE + |chunk| <= |data| && chunk == data[nblk * BLKSIZE..nblk * BLKSIZE + |chunk|]
      requires |chunk| == BLKSIZE || nblk * BLKSIZE + |chunk| == |data|
      modifies this`nextb, c, c.cache, c.disk
      ensures ok <==> chunk == [] || (nblk < MAXFILEBLKS && old(nextb) + 1 + Opened(nblk) <= |old(c.view)|)
      ensures ok ==> FileCall(fs', i, inob) && Copied(fs0, fs', i, data, if chunk == [] then nblk else nblk + 1)
      ensures ok ==> |c.view| == |old(c.view)| && c.pins == old(c.pins) - multiset{old(nextb)}
      ensures ok ==> nextb == if chunk == [] then old(nextb) else old(nextb) + 1 + Opened(nblk)
      ensures ok ==> forall h, b, t :: Holds(old(c.Now()), h, b, t) && b != old(nextb) ==> Holds(c.Now(), h, b, t)
    {
      if chunk == [] {
        DropChunk(fs0, fs, mid, i, inob, slot, nblk, data, Filled(chunk));
        return true, mid;
      }
      ok, fs' := KeepChunk(fs0, fs, mid, i, inob, slot, nblk, data, chunk);
    }

    // One round of the loop of writefile: a block is filled with the bytes read, and stored unless there were none.
    method CopyBlock(ghost fs0: Fs, ghost fs: Fs, i: nat, inob: nat, data: seq<byte>, nblk: nat)
      returns (ok: bool, n: nat, ghost fs': Fs)
      requires FileCall(fs, i, inob) && Copied(fs0, fs, i, data, nblk) && nblk * BLKSIZE <= |data|
      requires Pinned(c.pins, fs0)
      modifies this`nextb, c, c.cache, c.disk
      ensures n == if |data| - nblk * BLKSIZE < BLKSIZE then |data| - nblk * BLKSIZE else BLKSIZE
      ensures ok <==> if n == 0 then old(nextb) < |old(c.view)|
                      else nblk < MAXFILEBLKS && old(nextb) + 1 + Opened(nblk) <= |old(c.view)|
      ensures ok ==> FileCall(fs', i, inob) && Copied(fs0, fs', i, data, if n == 0 then nblk else nblk + 1)
      ensures ok ==> |c.view| == |old(c.view)| && c.pins == old(c.pins)
      ensures ok ==> nextb == if n == 0 then old(nextb) else old(nextb) + 1 + Opened(nblk)
      ensures ok ==> forall h, b2, t2 :: Holds(old(c.Now()), h, b2, t2) ==> Holds(c.Now(), h, b2, t2)
    {
      n := if |data| - nblk * BLKSIZE < BLKSIZE then |data| - nblk * BLKSIZE else BLKSIZE;
      var chunk := data[nblk * BLKSIZE..nblk * BLKSIZE + n];
      var r;
      r, fs' := FillBlock(fs, i, inob, chunk);
      if r.Abort? {
        return false, n, fs;
      }
      assert c.pins - multiset{nextb} == old(c.pins);
      ok, fs' := UseChunk(fs0, fs, fs', i, inob, r.slot, nblk, data, chunk);
    }

    // The loop of writefile: nblk full blocks, and a last read of n bytes.
    method CopyRounds(ghost fs: Fs, i: nat, inob: nat, data: seq<byte>)
      returns (ok: bool, nblk: nat, n: nat, ghost fs': Fs)
      requires FileCall(fs, i, inob) && fs.inodes[i].size == 0
      modifies this`nextb, c, c.cache, c.disk
      ensures nblk * BLKSIZE <= |data|
      ensures ok ==> |data| == nblk * BLKSIZE + n && n < BLKSIZE
      ensures !ok ==> if |data| == nblk * BLKSIZE then old(nextb) + Cost(nblk) >= |old(c.view)|
                      else nblk >= MAXFILEBLKS || old(nextb) + Cost(nblk) + 1 + Opened(nblk) > |old(c.view)|
      ensures ok && n == 0 ==> old(nextb) + Cost(nblk) < |old(c.view)|
      ensures ok ==> var total := if n == 0 then nblk else nblk + 1;
        && FileCall(fs', i, inob) && Copied(fs, fs', i, data, total)
        && nextb == old(nextb) + Cost(total) && |c.view| == |old(c.view)|
        && c.pins == old(c.pins) && forall h, b, t :: Holds(old(c.Now()), h, b, t) ==> Holds(c.Now(), h, b, t)
    {
      nblk, n := 0, 0;
      CopiedNone(fs, i, data);
      fs' := fs;
      while true
        invariant FileCall(fs', i, inob) && Copied(fs, fs', i, data, nblk) && nblk * BLKSIZE <= |data|
        invariant nextb == old(nextb) + Cost(nblk) && |c.view| == |old(c.view)| && c.pins == old(c.pins)
        invariant forall h, b, t :: Holds(old(c.Now()), h, b, t) ==> Holds(c.Now(), h, b, t)
        decreases |data| - nblk * BLKSIZE
      {
        ok, n, fs' := CopyBlock(fs, fs', i, inob, data, nblk);
        if !ok {
          return;
        }
        if n == 0 {
          return;
        }
        if n < BLKSIZE {
          return;
        }
        nblk := nblk + 1;
      }
    }

    // What that comes to in terms of the length of the file.
    method CopyLoop(ghost fs: Fs, i: nat, inob: nat, data: seq<byte>)
      returns (ok: bool, nblk: nat, n: nat, ghost fs': Fs)
      requires FileCall(fs, i, inob) && fs.inodes[i].size == 0
      modifies this`nextb, c, c.cache, c.disk
      ensures ok <==> old(nextb) + Room(|data|) <= |old(c.view)|
      ensures ok ==>
        && FileCall(fs', i, inob) && Copied(fs, fs', i, data, BlocksOf(|data|)) && |data| == nblk * BLKSIZE + n
        && nextb == old(nextb) + Cost(BlocksOf(|data|)) && |c.view| == |old(c.view)|
        && c.pins == old(c.pins) && forall h, b, t :: Holds(old(c.Now()), h, b, t) ==> Holds(c.Now(), h, b, t)
    {
      ok, nblk, n, fs' := CopyRounds(fs, i, inob, data);
      if ok {
        LastBlock(|data|, nblk, n);
      } else {
        OutOfRoom(|data|, nblk, old(nextb), |old(c.view)|);
      }
    }

    /** The file-writing part of writefile: 'data' becomes the contents of the empty file i. It aborts exactly when
        the disk has too few blocks left for the data, the pointer blocks, and the block that finds the end. */
    method WriteData(ghost fs: Fs, i: nat, inob: nat, data: seq<byte>) returns (ok: bool, ghost fs': Fs)
      requires FileCall(fs, i, inob) && fs.Valid() && fs.inodes[i].size == 0
      modifies this`nextb, c, c.cache, c.disk
      ensures ok <==> old(nextb) + Room(|data|) <= |old(c.view)|
      ensures ok ==>
        && FileWritten(fs, fs', i, data) && nextb == old(nextb) + Cost(BlocksOf(|data|)) <= |c.view|
        && Ready() && Shows(c.view, shape, fs'.blocks, fs'.inodes, Settled) && fs'.free == Rest(nextb, |c.view|)
        && fs'.first == shape.first && |fs'.blocks| == |c.view| && Pinned(c.pins, fs')
        && c.pins == old(c.pins) && forall h, b, t :: Holds(old(c.Now()), h, b, t) ==> Holds(c.Now(), h, b, t)
    {
      var nblk, n;
      ghost var cur;
      ok, nblk, n, cur := CopyLoop(fs, i, inob, data);
      fs' := cur;
      if !ok {
        return;
      }
      CopiedCount(fs, cur, i, data, BlocksOf(|data|));
      HeldData(c.Now(), inob, shape.InodeBlock(i), INODES);
      ShownInode(c.view, shape, cur.blocks, cur.inodes, Filling(i, pending), i);
      var oi := ReadInode(c.cache[inob].data, i % BLKINODES).(size := nblk * BLKSIZE + n);
      ShowsExactly(c.view, shape, cur.blocks, cur.inodes, Filling(i, pending), i, oi);
      Set(inob, WriteInode(c.cache[inob].data, i % BLKINODES, oi), shape.InodeBlock(i), INODES);
      fs' := cur.(inodes := cur.inodes[i := oi]);
      CopyDone(fs, cur, fs', i, data);
    }

    /** allocinode: the next inode, in its block; aborts when there is none left. */
    method AllocInode(ghost fs: Fs) returns (r: Result, ino: nat)
      requires Ready() && Shows(c.view, shape, fs.blocks, fs.inodes, Settled) && nextinode <= shape.ninodes
      requires |c.pins| < CACHESIZE
      requires nextinode < shape.ninodes ==> InodesHeld(c.Now(), shape.InodeBlock(nextinode))
      modifies this`nextinode, c, c.cache, c.disk
      ensures r.Got? <==> old(nextinode) < shape.ninodes
      ensures r.Got? ==>
        && ino == old(nextinode) && nextinode == ino + 1 && Ready() && c.view == old(c.view)
        && c.pins == old(c.pins) + multiset{shape.InodeBlock(ino)}
        && Holds(c.Now(), r.slot, shape.InodeBlock(ino), INODES)
        && forall h, b, t :: Holds(old(c.Now()), h, b, t) ==> Holds(c.Now(), h, b, t)
    {
      if nextinode == shape.ninodes {
        return Abort, 0;
      }
      ino := nextinode;
      nextinode := nextinode + 1;
      ghost var s, b := c.Now(), shape.InodeBlock(ino);
      ShownInode(c.view, shape, fs.blocks, fs.inodes, Settled, ino);
      InodeBlockInTable(shape, |c.view|, ino);
      RoomLeft(s, b);
      if b in s.pins {
        var h :| Holds(s, h, b, INODES);
        HeldOnce(s, h, b, INODES);
      } else {
        NotHeld(s, b, INODES);
      }
      r := c.Getblk(shape.firstinob + ino / BLKINODES, false, INODES);
      forall h, b2, t | Holds(s, h, b2, t) ensures Holds(c.Now(), h, b2, t) {
        HeldStays(s, c.Now(), r.slot, b, false, INODES, h, b2, t);
      }
    }

    // One bit of the bitmap is cleared.
    method TakeBit(b: nat)
      requires Ready() && c.pins == multiset{} && b < BLKBITSIZE && |c.view| > 2
      modifies c, c.cache, c.disk
      ensures Ready() && c.pins == multiset{} && c.view == old(c.view)[2 := Taken(old(c.view)[2], b)]
    {
      var r := Get(FREEMAP_BLK + b / BLKBITSIZE, false, BITS);
      HeldData(c.Now(), r.slot, FREEMAP_BLK, BITS);
      var ws := c.cache[r.slot].data;
      Set(r.slot, ws[b / 32 := ClearBit(ws[b / 32], b % 32)], FREEMAP_BLK, BITS);
      Put(r.slot, FREEMAP_BLK, BITS);
    }

    // The first loop of finishfs: the blocks handed out.
    method TakeUsed()
      requires Ready() && c.pins == multiset{} && |c.view| > 2 && c.view[2] == ONESBLOCK && nextb <= |c.view|
      modifies c, c.cache, c.disk
      ensures Ready() && c.pins == multiset{}
      ensures c.view == old(c.view)[2 := TakenRange(ONESBLOCK, 0, nextb)]
    {
      ghost var view := c.view;
      var i := 0;
      while i < nextb
        invariant i <= nextb && Ready() && c.pins == multiset{}
        invariant c.view == view[2 := TakenRange(ONESBLOCK, 0, i)]
      {
        TakeBit(i);
        i := i + 1;
      }
    }

    // The second loop of finishfs, in one block held throughout: the bits past the disk.
    method TakePast()
      requires Ready() && c.pins == multiset{} && |c.view| > 2 && |c.view| == c.disk.Length
      modifies c, c.cache, c.disk
      ensures Ready() && c.pins == multiset{}
      ensures c.view == old(c.view)[2 := TakenRange(old(c.view)[2], |old(c.view)|, BLKBITSIZE)]
    {
      if c.disk.Length == BLKBITSIZE {
        return;
      }
      var r := Get(FREEMAP_BLK, false, BITS);
      HeldData(c.Now(), r.slot, FREEMAP_BLK, BITS);
      ghost var bits := c.view[2];
      var ws, i := c.cache[r.slot].data, c.disk.Length % BLKBITSIZE;
      while i < BLKBITSIZE
        invariant c.disk.Length <= i <= BLKBITSIZE
        invariant ws == TakenRange(bits, c.disk.Length, i)
      {
        ws := ws[i / 32 := ClearBit(ws[i / 32], i % 32)];
        i := i + 1;
      }
      Set(r.slot, ws, FREEMAP_BLK, BITS);
      Put(r.slot, FREEMAP_BLK, BITS);
    }

    /** finishfs: the bitmap and the superblock. */
    method FinishFs(ghost fs: Fs)
      requires Ready() && c.pins == multiset{} && Shows(c.view, shape, fs.blocks, fs.inodes, Settled)
      requires fs.first == shape.first && shape.first <= nextb <= |c.view|
      modifies c, c.cache, c.disk
      ensures Ready() && c.pins == multiset{} && Finished(c.view, shape, fs, nextb)
    {
      ghost var view: seq<Block> := c.view;
      ShowsOnes(view, shape, fs.blocks, fs.inodes, Settled);
      FinishedIs(view, shape, fs, nextb);
      TakeUsed();
      TakePast();
      assert c.view == view[2 := FinalBits(nextb, |view|)];
      var r := Get(1, true, SUPER);
      HeldData(c.Now(), r.slot, 1, SUPER);
      Set(r.slot, Superblock(c.disk.Length, shape), 1, SUPER);
      Put(r.slot, 1, SUPER);
      assert c.view == view[2 := FinalBits(nextb, |view|)][1 := Superblock(|view|, shape)];
    }

    /** What a new inode gets before anything is stored in it. */
    method InitInode(ghost fs: Fs, i: nat, inob: nat, ftype: uint32, mode: uint32) returns (ghost fs': Fs)
      requires Ready() && i < shape.ninodes && ftype != FTYPE_SYMLINK
               && Shows(c.view, shape, fs.blocks, fs.inodes, Settled)
      requires fs.first == shape.first && |fs.blocks| == |c.view|
      requires |fs.inodes| == shape.ninodes && fs.inodes[i] == ZEROINODE
      requires Orderly(fs) && fs.Valid()
      requires Holds(c.Now(), inob, shape.InodeBlock(i), INODES)
      modifies this`pending, c, c.cache
      ensures Ready() && c.pins == old(c.pins) && |c.view| == |old(c.view)|
      ensures fs' == fs.(inodes := fs.inodes[i := ZEROINODE.(nlink := 1, ftype := ftype, mode := mode)])
      ensures Orderly(fs') && fs'.Valid() && fs'.HasTree(i)
      ensures Depicts(fs', i) && Shows(c.view, shape, fs'.blocks, fs'.inodes, Settled)
      ensures forall h, b, t :: Holds(old(c.Now()), h, b, t) ==> Holds(c.Now(), h, b, t)
    {
      ShownInode(c.view, shape, fs.blocks, fs.inodes, Settled, i);
      HeldData(c.Now(), inob, shape.InodeBlock(i), INODES);
      var oi := ReadInode(c.cache[inob].data, i % BLKINODES).(nlink := 1, ftype := ftype, mode := mode);
      ShowsExactly(c.view, shape, fs.blocks, fs.inodes, Settled, i, oi);
      Set(inob, WriteInode(c.cache[inob].data, i % BLKINODES, oi), shape.InodeBlock(i), INODES);
      fs' := fs.(inodes := fs.inodes[i := oi]);
      pending := 0;
      ShowsFilling(c.view, shape, fs'.blocks, fs'.inodes, i);
      AttributesKeepOrder(fs, fs', i);
    }
  }

  /** Inode i of fs' differs from that of fs in its attributes, not in its size or its pointers. */
  ghost predicate SameTree(fs: Fs, fs': Fs, i: nat) {
    && fs.HasTree(i) && fs'.HasTree(i) && |fs'.inodes| == |fs.inodes|
    && fs' == fs.(inodes := fs.inodes[i := fs'.inodes[i]])
    && fs'.inodes[i] ==
       fs.inodes[i].(nlink := fs'.inodes[i].nlink, ftype := fs'.inodes[i].ftype, mode := fs'.inodes[i].mode)
  }

  lemma SamePlaces(fs: Fs, fs': Fs, i: nat, j: nat)
    requires SameTree(fs, fs', i)
    ensures fs'.HasTree(j) <==> fs.HasTree(j)
    ensures fs.HasTree(j) ==> fs'.N(j) == fs.N(j) && fs'.inodes[j].size == fs.inodes[j].size
    ensures fs.HasTree(j) ==> forall s :: fs'.AtI(j, s) == fs.AtI(j, s)
  {
  }

  lemma SameTrees(fs: Fs, fs': Fs, i: nat)
    requires SameTree(fs, fs', i) && fs.Trees()
    ensures fs'.Trees()
  {
    forall j: nat ensures fs'.HasTree(j) <==> fs.HasTree(j) {
      SamePlaces(fs, fs', i, j);
    }
    forall j, s ensures fs'.Owns(j, s) <==> fs.Owns(j, s) {
      SamePlaces(fs, fs', i, j);
    }
    forall j, s | fs.Owns(j, s) ensures fs'.AtI(j, s) == fs.AtI(j, s) {
      SamePlaces(fs, fs', i, j);
    }
  }

  lemma SameBlanks(fs: Fs, fs': Fs, i: nat)
    requires SameTree(fs, fs', i) && Blanks(fs)
    ensures Blanks(fs')
  {
    forall j: nat | fs'.HasTree(j) ensures Blank(fs', j) {
      SamePlaces(fs, fs', i, j);
      assert Blank(fs, j);
    }
  }

  /** Attributes other than the size, and being a symbolic link, do not matter to the trees. */
  lemma AttributesKeepOrder(fs: Fs, fs': Fs, i: nat)
    requires Orderly(fs) && fs.Valid() && SameTree(fs, fs', i)
    ensures Orderly(fs') && fs'.Valid()
  {
    OrderlyIs(fs);
    OrderlyIs(fs');
    fs.ValidIs();
    fs'.ValidIs();
    SameTrees(fs, fs', i);
    SameBlanks(fs, fs', i);
    forall j: nat | fs'.HasTree(j) ensures fs'.inodes[j].size <= MAXFILEBLKS * BLKSIZE {
      SamePlaces(fs, fs', i, j);
    }
  }

  /** An image with no files: inode blocks all zero, every data block still to be handed out. */
  ghost function Empty(shape: Shape, nblocks: nat): Fs
    requires shape.Fits(nblocks)
  {
    Fs(shape.first, Rest(shape.first, nblocks), seq(nblocks, _ => ZEROBLOCK), seq(shape.ninodes, _ => ZEROINODE), map[])
  }

  lemma EmptyIsOrderly(shape: Shape, nblocks: nat)
    requires shape.Fits(nblocks) && nblocks <= BLKBITSIZE
    ensures Orderly(Empty(shape, nblocks)) && Empty(shape, nblocks).Valid()
  {
    var fs := Empty(shape, nblocks);
    OrderlyIs(fs);
    fs.ValidIs();
    Size2NBlocksIsCeiling(0);
    assert forall i: nat :: fs.HasTree(i) ==> fs.N(i) == 0;
  }
}
