// allocdirentry and writefile: named files on the image under construction.
module FormatFiles {
  import opened Words
  import opened Layout
  import opened Image
  import opened Resize
  import opened FileData
  import opened DirEntries
  import opened Namespace
  import opened DirOps
  import opened Storing
  import opened NamedFiles
  import opened InodeTable
  import opened BlockCache
  import opened Formatter

  // What stands on the image: the files of fs, and nothing yet in the blocks from nextb on.
  ghost predicate Built(f: Formatter, fs: Fs)
    reads f, f.c, f.c.disk, f.c.cache
  {
    && f.Ready() && Shows(f.c.view, f.shape, fs.blocks, fs.inodes, Settled)
    && fs.first == f.shape.first && |fs.blocks| == |f.c.view| && |fs.inodes| == f.shape.ninodes
    && Orderly(fs) && fs.Valid()
    && fs.free == Rest(f.nextb, |f.c.view|) && f.nextb <= |f.c.view|
    && Pinned(f.c.pins, fs)
  }

  // Directory d can be worked on: its inode is held, and none of its blocks is.
  ghost predicate DirHeld(f: Formatter, fs: Fs, d: nat, dinob: nat)
    reads f, f.c, f.c.disk, f.c.cache
  {
    && Built(f, fs) && IsDir(fs, d) && fs.inodes[d].size % BLKSIZE == 0
    && Holds(f.c.Now(), dinob, f.shape.InodeBlock(d), INODES)
    && |f.c.pins| + 3 <= CACHESIZE
    && forall b :: b in f.c.pins && b in fs.owner ==> fs.owner[b].ino != d
  }

  lemma PointerNotPinned(pins: multiset<nat>, fs: Fs, i: nat, s: Slot)
    requires Pinned(pins, fs) && Orderly(fs) && fs.Owns(i, s) && !s.IsData()
    ensures fs.AtI(i, s) !in pins && fs.first <= fs.AtI(i, s) < |fs.blocks|
  {
    OrderlyIs(fs);
    NoSharing(fs, i, s, i, s);
  }

  lemma DataNotPinned(pins: multiset<nat>, fs: Fs, d: nat, n: nat)
    requires Orderly(fs) && fs.HasTree(d) && n < fs.N(d) && n < MAXFILEBLKS
    requires forall b :: b in pins && b in fs.owner ==> fs.owner[b].ino != d
    ensures fs.Owns(d, DataSlot(n)) && fs.AtI(d, DataSlot(n)) !in pins
    ensures fs.first <= fs.AtI(d, DataSlot(n)) < |fs.blocks|
  {
    OrderlyIs(fs);
    DataSlotHas(fs.N(d), n);
    NoSharing(fs, d, DataSlot(n), d, DataSlot(n));
  }

  // The block on the way to a singly indirect block of the file.
  lemma SinglePath(fs: Fs, d: nat, n: nat)
    requires Orderly(fs) && fs.HasTree(d) && NDIRECT <= n < fs.N(d) && n < NDIRECT + NINDIRECT
    ensures fs.Owns(d, Indirect) && fs.Owns(d, DataSlot(n)) && fs.AtI(d, DataSlot(n)) != fs.AtI(d, Indirect)
  {
    OrderlyIs(fs);
    NoSharing(fs, d, DataSlot(n), d, Indirect);
  }

  // The blocks on the way to a doubly indirect block of the file.
  lemma DoublePath(fs: Fs, d: nat, n: nat)
    requires Orderly(fs) && fs.HasTree(d) && NDIRECT + NINDIRECT <= n < fs.N(d) && n < MAXFILEBLKS
    ensures var k, j := DataSlot(n).k, DataSlot(n).j;
      && k == (n - NDIRECT - NINDIRECT) / NINDIRECT && j == (n - NDIRECT - NINDIRECT) % NINDIRECT
      && fs.Owns(d, Indirect2) && fs.Owns(d, Leaf(k)) && fs.Owns(d, Double(k, j))
      && fs.AtI(d, Leaf(k)) != fs.AtI(d, Indirect2)
      && fs.AtI(d, Double(k, j)) != fs.AtI(d, Leaf(k)) && fs.AtI(d, Double(k, j)) != fs.AtI(d, Indirect2)
  {
    OrderlyIs(fs);
    DataSlotIs(n);
    DataSlotHas(fs.N(d), n);
    var k, j := DataSlot(n).k, DataSlot(n).j;
    NoSharing(fs, d, Leaf(k), d, Indirect2);
    NoSharing(fs, d, Double(k, j), d, Leaf(k));
    NoSharing(fs, d, Double(k, j), d, Indirect2);
  }

  // Word j of a pointer block that nobody holds; the block is held afterwards.
  method GetPointer(f: Formatter, b: nat, j: IndirectNumber) returns (slot: nat, word: uint32)
    requires f.Ready() && b < |f.c.view| && b !in f.c.pins && |f.c.pins| < CACHESIZE
    modifies f.c, f.c.cache, f.c.disk
    ensures f.Ready() && f.c.view == old(f.c.view) && word == f.c.view[b][j]
    ensures f.c.pins == old(f.c.pins) + multiset{b} && Holds(f.c.Now(), slot, b, BITS)
    ensures forall h, b2, t :: Holds(old(f.c.Now()), h, b2, t) ==> b2 != b && Holds(f.c.Now(), h, b2, t)
  {
    var r := f.Get(b, false, BITS);
    HeldData(f.c.Now(), r.slot, b, BITS);
    slot, word := r.slot, f.c.cache[r.slot].data[j];
  }

  // The directory block that word j of pointer block p names.
  method GetBelow(f: Formatter, p: nat, j: IndirectNumber) returns (r: Result)
    requires f.Ready() && p < |f.c.view| && p !in f.c.pins && |f.c.pins| + 2 <= CACHESIZE
    requires f.c.view[p][j] < |f.c.view| && f.c.view[p][j] != p && f.c.view[p][j] !in f.c.pins
    modifies f.c, f.c.cache, f.c.disk
    ensures f.Ready() && f.c.view == old(f.c.view) && r.Got?
    ensures var b := f.c.view[p][j];
      && f.c.pins == old(f.c.pins) + multiset{b} && Holds(f.c.Now(), r.slot, b, DIR)
      && forall h, b2, t :: Holds(old(f.c.Now()), h, b2, t) ==> b2 != b && Holds(f.c.Now(), h, b2, t)
  {
    var slot, word := GetPointer(f, p, j);
    r := f.Get(word, false, DIR);
    f.Put(slot, p, BITS);
  }

  /** The getblk calls at the start of allocdirentry: block n of directory d, by way of its pointer blocks. */
  method GetDirBlock(f: Formatter, ghost fs: Fs, d: nat, dinob: nat, n: nat) returns (r: Result)
    requires DirHeld(f, fs, d, dinob) && n < fs.N(d) && n < MAXFILEBLKS
    modifies f.c, f.c.cache, f.c.disk
    ensures r.Got? && f.Ready() && f.c.view == old(f.c.view)
    ensures f.c.pins == old(f.c.pins) + multiset{fs.AtI(d, DataSlot(n))}
    ensures Holds(f.c.Now(), r.slot, fs.AtI(d, DataSlot(n)), DIR)
    ensures forall h, b, t :: Holds(old(f.c.Now()), h, b, t) ==>
              b != fs.AtI(d, DataSlot(n)) && Holds(f.c.Now(), h, b, t)
  {
    ghost var view: seq<Block> := f.c.view;
    DataNotPinned(f.c.pins, fs, d, n);
    HeldData(f.c.Now(), dinob, f.shape.InodeBlock(d), INODES);
    ShownInode(view, f.shape, fs.blocks, fs.inodes, Settled, d);
    var oi := ReadInode(f.c.cache[dinob].data, d % BLKINODES);
    if n >= NDIRECT + NINDIRECT {
      r := GetDoubly(f, fs, d, n, oi.indirect2);
    } else if n >= NDIRECT {
      r := GetSingly(f, fs, d, n, oi.indirect);
    } else {
      r := f.Get(oi.direct[n], false, DIR);
    }
  }

  // Its second case.
  method GetSingly(f: Formatter, ghost fs: Fs, d: nat, n: nat, indirect: uint32) returns (r: Result)
    requires Built(f, fs) && fs.HasTree(d) && NDIRECT <= n < fs.N(d) && n < NDIRECT + NINDIRECT
    requires indirect == fs.inodes[d].indirect && fs.AtI(d, DataSlot(n)) !in f.c.pins && |f.c.pins| + 3 <= CACHESIZE
    modifies f.c, f.c.cache, f.c.disk
    ensures r.Got? && f.Ready() && f.c.view == old(f.c.view)
    ensures f.c.pins == old(f.c.pins) + multiset{fs.AtI(d, DataSlot(n))}
    ensures Holds(f.c.Now(), r.slot, fs.AtI(d, DataSlot(n)), DIR)
    ensures forall h, b, t :: Holds(old(f.c.Now()), h, b, t) ==>
              b != fs.AtI(d, DataSlot(n)) && Holds(f.c.Now(), h, b, t)
  {
    SinglePath(fs, d, n);
    PointerNotPinned(f.c.pins, fs, d, Indirect);
    PointerInRange(fs, d, DataSlot(n));
    ShownBlock(f.c.view, f.shape, fs.blocks, fs.inodes, Settled, indirect);
    r := GetBelow(f, indirect, n - NDIRECT);
  }

  // Its first case.
  method GetDoubly(f: Formatter, ghost fs: Fs, d: nat, n: nat, indirect2: uint32) returns (r: Result)
    requires Built(f, fs) && fs.HasTree(d) && NDIRECT + NINDIRECT <= n < fs.N(d) && n < MAXFILEBLKS
    requires indirect2 == fs.inodes[d].indirect2 && fs.AtI(d, DataSlot(n)) !in f.c.pins && |f.c.pins| + 3 <= CACHESIZE
    modifies f.c, f.c.cache, f.c.disk
    ensures r.Got? && f.Ready() && f.c.view == old(f.c.view)
    ensures f.c.pins == old(f.c.pins) + multiset{fs.AtI(d, DataSlot(n))}
    ensures Holds(f.c.Now(), r.slot, fs.AtI(d, DataSlot(n)), DIR)
    ensures forall h, b, t :: Holds(old(f.c.Now()), h, b, t) ==>
              b != fs.AtI(d, DataSlot(n)) && Holds(f.c.Now(), h, b, t)
  {
    ghost var view: seq<Block> := f.c.view;
    DoublePath(fs, d, n);
    ghost var k := DataSlot(n).k;
    ghost var leaf := fs.AtI(d, Leaf(k));
    PointerNotPinned(f.c.pins, fs, d, Indirect2);
    PointerNotPinned(f.c.pins, fs, d, Leaf(k));
    PointerInRange(fs, d, DataSlot(n));
    ShownBlock(view, f.shape, fs.blocks, fs.inodes, Settled, indirect2);
    ShownBlock(view, f.shape, fs.blocks, fs.inodes, Settled, leaf);
    var off := n - NDIRECT - NINDIRECT;
    var slot2, indirect := GetPointer(f, indirect2, off / NINDIRECT);
    r := GetBelow(f, indirect, off % NINDIRECT);
    f.Put(slot2, indirect2, BITS);
  }

  // ----- the entries of the last block

  // No entry of the last block of the directory is empty; there may be no block at all.
  ghost predicate LastBlockFull(fs: Fs, d: nat)
    requires fs.Valid() && IsDir(fs, d)
  {
    var es := Slots(fs, d);
    forall k :: 0 <= k < |es| && |es| - BLKENTRIES <= k ==> es[k].ino != 0
  }

  lemma EntriesOfBlocks(fs: Fs, d: nat)
    requires fs.Valid() && IsDir(fs, d) && fs.inodes[d].size % BLKSIZE == 0
    ensures |Slots(fs, d)| == BLKENTRIES * fs.N(d)
  {
    WholeBlocks(fs, d);
    SlotsFill(fs, d);
  }

  /** The loop of allocdirentry over the block it got: the first empty entry. */
  method FindInBlock(f: Formatter, ghost fs: Fs, d: nat, n: nat, slot: nat) returns (found: bool, j: nat)
    requires Built(f, fs) && IsDir(fs, d) && fs.inodes[d].size % BLKSIZE == 0
    requires fs.N(d) == n + 1 && n < MAXFILEBLKS && Holds(f.c.Now(), slot, fs.AtI(d, DataSlot(n)), DIR)
    ensures |Slots(fs, d)| == BLKENTRIES * n + BLKENTRIES && j <= BLKENTRIES
    ensures found <==> !LastBlockFull(fs, d)
    ensures found ==> j < BLKENTRIES && Slots(fs, d)[BLKENTRIES * n + j].ino == 0
    ensures forall k :: BLKENTRIES * n <= k < BLKENTRIES * n + j ==> Slots(fs, d)[k].ino != 0
  {
    EntriesOfBlocks(fs, d);
    ghost var b := fs.AtI(d, DataSlot(n));
    HeldData(f.c.Now(), slot, b, DIR);
    j := 0;
    while j < BLKENTRIES
      invariant j <= BLKENTRIES
      invariant forall k :: BLKENTRIES * n <= k < BLKENTRIES * n + j ==> Slots(fs, d)[k].ino != 0
    {
      EntryOfBlock(fs, d, n, j);
      DataBlockShown(f, fs, d, n);
      var bs := Bytes(f.c.cache[slot].data);
      if Decode(bs[DIRENTRY_SIZE * j..DIRENTRY_SIZE * j + 4]) == 0 {
        return true, j;
      }
      j := j + 1;
    }
    return false, j;
  }

  lemma DataBlockShown(f: Formatter, fs: Fs, d: nat, n: nat)
    requires Built(f, fs) && fs.HasTree(d) && n < fs.N(d) && n < MAXFILEBLKS
    ensures fs.first <= fs.AtI(d, DataSlot(n)) < |fs.blocks|
    ensures f.c.view[fs.AtI(d, DataSlot(n))] == fs.blocks[fs.AtI(d, DataSlot(n))]
  {
    DataSlotHas(fs.N(d), n);
    PointerInRange(fs, d, DataSlot(n));
    ShownBlock(f.c.view, f.shape, fs.blocks, fs.inodes, Settled, fs.AtI(d, DataSlot(n)));
  }

  /** Bytes stored into entry j of block n of directory d, through the cache. */
  method StoreInEntry(f: Formatter, ghost fs: Fs, ghost d: nat, ghost n: nat, slot: nat, j: nat, delta: nat,
                      data: seq<byte>)
    returns (ghost fs': Fs)
    requires Built(f, fs) && EntryIn(fs, d, BLKENTRIES * n + j) && n < fs.N(d) && n < MAXFILEBLKS
    requires Holds(f.c.Now(), slot, fs.AtI(d, DataSlot(n)), DIR)
    requires j < BLKENTRIES && 0 < |data| && delta + |data| <= DIRENTRY_SIZE
    modifies f.c, f.c.cache
    ensures Built(f, fs') && Wrote(fs, fs', d, DIRENTRY_SIZE * (BLKENTRIES * n + j) + delta, data)
    ensures f.c.pins == old(f.c.pins) && |f.c.view| == |old(f.c.view)|
    ensures fs'.AtI(d, DataSlot(n)) == fs.AtI(d, DataSlot(n))
    ensures forall h, b, t :: Holds(old(f.c.Now()), h, b, t) ==> Holds(f.c.Now(), h, b, t)
  {
    ghost var b := fs.AtI(d, DataSlot(n));
    StoredInEntry(fs, d, n, j, delta, data);
    fs' := EntryStored(fs, d, n, j, delta, data);
    HeldData(f.c.Now(), slot, b, DIR);
    DataBlockShown(f, fs, d, n);
    var bs := Bytes(f.c.cache[slot].data);
    var block := Pack(Splice(bs, DIRENTRY_SIZE * j + delta, data));
    ShowsBlock(f.c.view, f.shape, fs.blocks, fs.inodes, Settled, b, block);
    f.Set(slot, block, b, DIR);
  }

  lemma StoredInEntry(fs: Fs, d: nat, n: nat, j: nat, delta: nat, data: seq<byte>)
    requires EntryIn(fs, d, BLKENTRIES * n + j) && j < BLKENTRIES && 0 < |data| && delta + |data| <= DIRENTRY_SIZE
    requires Orderly(fs) && n < fs.N(d)
    ensures n < MAXFILEBLKS && fs.first <= fs.AtI(d, DataSlot(n)) < |fs.blocks|
    ensures var fs' := EntryStored(fs, d, n, j, delta, data);
      && Orderly(fs') && fs'.Valid() && fs'.AtI(d, DataSlot(n)) == fs.AtI(d, DataSlot(n))
      && Wrote(fs, fs', d, DIRENTRY_SIZE * (BLKENTRIES * n + j) + delta, data)
  {
    EntryStoredWrote(fs, d, n, j, delta, data);
    var fs' := EntryStored(fs, d, n, j, delta, data);
    assert fs'.Valid() by {
      fs.ValidIs();
      WroteTrees(fs, fs', d, DIRENTRY_SIZE * (BLKENTRIES * n + j) + delta, data);
    }
    DataSlotHas(fs.N(d), n);
    assert fs.Owns(d, DataSlot(n));
  }

  // ----- a new block of entries

  lemma ClearedZeros(ws: Block, o: nat)
    requires ws == ZEROBLOCK && o + 4 <= BLKSIZE
    ensures Pack(Splice(Bytes(ws), o, Encode(0))) == ws
  {
    var bs := Bytes(ws);
    forall k | 0 <= k < BLKSIZE ensures Splice(bs, o, Encode(0))[k] == bs[k] {
      ZerosAsBytes(ws, k);
    }
    assert Splice(bs, o, Encode(0)) == bs;
    PackBytes(ws);
  }

  // The loop of allocdirentry over the block it opened.
  method ClearEntries(f: Formatter, slot: nat, ghost b: nat)
    requires f.Ready() && Holds(f.c.Now(), slot, b, DIR) && b < |f.c.view| && f.c.view[b] == ZEROBLOCK
    modifies f.c, f.c.cache
    ensures f.Ready() && f.c.view == old(f.c.view) && f.c.pins == old(f.c.pins)
    ensures forall h, b2, t :: Holds(old(f.c.Now()), h, b2, t) ==> Holds(f.c.Now(), h, b2, t)
  {
    var j := 0;
    while j < BLKENTRIES
      invariant f.Ready() && f.c.view == old(f.c.view) && f.c.pins == old(f.c.pins)
      invariant forall h, b2, t :: Holds(old(f.c.Now()), h, b2, t) ==> Holds(f.c.Now(), h, b2, t)
    {
      HeldData(f.c.Now(), slot, b, DIR);
      ClearedZeros(f.c.cache[slot].data, DIRENTRY_SIZE * j);
      f.Set(slot, Pack(Splice(Bytes(f.c.cache[slot].data), DIRENTRY_SIZE * j, Encode(0))), b, DIR);
      j := j + 1;
    }
  }

  // A zeroed block for directory entries, the next one to be handed out.
  method OpenDirBlock(f: Formatter, ghost fs: Fs, d: nat, dinob: nat) returns (r: Result)
    requires DirHeld(f, fs, d, dinob)
    modifies f`nextb, f.c, f.c.cache, f.c.disk
    ensures r.Got? <==> old(f.nextb) < |old(f.c.view)|
    ensures r.Got? ==>
      && f.nextb == old(f.nextb) + 1 && old(f.nextb) in fs.free && |f.c.view| == |old(f.c.view)| && f.Ready()
      && Shows(f.c.view, f.shape, fs.blocks[old(f.nextb) := ZEROBLOCK], fs.inodes, Settled)
      && f.c.pins == old(f.c.pins) + multiset{old(f.nextb)} && Holds(f.c.Now(), r.slot, old(f.nextb), DIR)
      && forall h, b, t :: Holds(old(f.c.Now()), h, b, t) ==> b != old(f.nextb) && Holds(f.c.Now(), h, b, t)
  {
    ghost var x := f.nextb;
    NextNotHeld(f.c.pins, fs, x);
    r := f.Get(f.nextb, true, DIR);
    if r.Abort? {
      return;
    }
    f.nextb := f.nextb + 1;
    ShowsBlock(old(f.c.view), f.shape, fs.blocks, fs.inodes, Settled, x, ZEROBLOCK);
    ClearEntries(f, r.slot, x);
  }

  // Blocks that were held before the directory grew, and its new block, are data blocks.
  lemma PinnedGrown(pins: multiset<nat>, fs: Fs, fs1: Fs, d: nat, x: nat)
    requires Pinned(pins, fs) && Orderly(fs) && Orderly(fs1) && fs1.first == fs.first
    requires fs.HasTree(d) && Resized(fs, fs1, d) && fs.N(d) < MAXFILEBLKS && fs1.N(d) == fs.N(d) + 1
    requires fs1.HasTree(d) && fs1.AtI(d, DataSlot(fs.N(d))) == x
    ensures Pinned(pins + multiset{x}, fs1)
  {
    DataSlotHas(fs1.N(d), fs.N(d));
    OwnerOf(fs1, d, DataSlot(fs.N(d)));
    forall b | b in pins && b >= fs.first ensures b in fs1.owner && fs1.owner[b].slot.IsData() {
      var o := fs.owner[b];
      PlaceOf(fs, b);
      OwnerOf(fs1, o.ino, o.slot);
    }
  }

  lemma PlaceOf(fs: Fs, b: nat)
    requires Orderly(fs) && b in fs.owner
    ensures fs.Owns(fs.owner[b].ino, fs.owner[b].slot) && fs.AtI(fs.owner[b].ino, fs.owner[b].slot) == b
  {
    OrderlyIs(fs);
  }

  lemma OwnerOf(fs: Fs, i: nat, s: Slot)
    requires Orderly(fs) && fs.Owns(i, s)
    ensures fs.AtI(i, s) in fs.owner && fs.owner[fs.AtI(i, s)] == Owner(i, s)
  {
    OrderlyIs(fs);
    NoSharing(fs, i, s, i, s);
  }

  // The size of a directory that storeblk gave a block.
  method AddBlockSize(f: Formatter, ghost fs1: Fs, d: nat, dinob: nat)
    requires f.Ready() && d < f.shape.ninodes && Shows(f.c.view, f.shape, fs1.blocks, fs1.inodes, Filling(d, f.pending))
    requires d < |fs1.inodes| && fs1.inodes[d].size == Add32(f.pending, BLKSIZE)
    requires Holds(f.c.Now(), dinob, f.shape.InodeBlock(d), INODES)
    modifies f.c, f.c.cache
    ensures f.Ready() && Shows(f.c.view, f.shape, fs1.blocks, fs1.inodes, Settled)
    ensures f.c.pins == old(f.c.pins) && |f.c.view| == |old(f.c.view)|
    ensures forall h, b, t :: Holds(old(f.c.Now()), h, b, t) ==> Holds(f.c.Now(), h, b, t)
  {
    ghost var view: seq<Block> := f.c.view;
    HeldData(f.c.Now(), dinob, f.shape.InodeBlock(d), INODES);
    ShownInode(view, f.shape, fs1.blocks, fs1.inodes, Filling(d, f.pending), d);
    var oi := ReadInode(f.c.cache[dinob].data, d % BLKINODES);
    oi := oi.(size := Add32(oi.size, BLKSIZE));
    ShowsExactly(view, f.shape, fs1.blocks, fs1.inodes, Filling(d, f.pending), d, oi);
    assert fs1.inodes[d := oi] == fs1.inodes;
    f.Set(dinob, WriteInode(f.c.cache[dinob].data, d % BLKINODES, oi), f.shape.InodeBlock(d), INODES);
  }

  // What growing directory d by block x makes of the files.
  ghost predicate DirExtended(fs: Fs, fs1: Fs, d: nat, x: nat) {
    && DirGrew(fs, fs1, d) && fs.N(d) < MAXFILEBLKS && fs1.N(d) == fs.N(d) + 1
    && fs1.AtI(d, DataSlot(fs.N(d))) == x
    && BlankFound(fs, fs1, d, Slots(fs1, d)[|Slots(fs, d)|..], |Slots(fs, d)|)
  }

  lemma ExtendedDone(pins: multiset<nat>, fs: Fs, fs1: Fs, d: nat, x: nat)
    requires fs.Valid() && IsDir(fs, d) && fs.inodes[d].size % BLKSIZE == 0 && Orderly(fs) && Orderly(fs1)
    requires x in fs.free && x < |fs.blocks| && Placed(Scribbled(fs, x, ZEROBLOCK), fs1, d, x)
    requires Pinned(pins, fs) && fs1.first == fs.first
    ensures DirExtended(fs, fs1, d, x) && Pinned(pins + multiset{x}, fs1)
    ensures fs1.inodes[d].size == Add32(fs.inodes[d].size, BLKSIZE)
  {
    GrownDirBlocks(fs, fs1, d, x);
    DirGrownByZeros(fs, fs1, d, x);
    NewEntriesFound(fs, fs1, d, |Slots(fs, d)|);
    PlacedIs(Scribbled(fs, x, ZEROBLOCK), fs1, d, x);
    PinnedGrown(pins, fs, fs1, d, x);
  }

  /** The end of allocdirentry: a new block of entries. It aborts when the directory cannot grow or the disk is full. */
  method GrowDir(f: Formatter, ghost fs: Fs, d: nat, dinob: nat, nblk: nat) returns (r: Result, ghost fs1: Fs)
    requires DirHeld(f, fs, d, dinob) && d < f.shape.ninodes && nblk == fs.N(d) <= MAXFILEBLKS
    modifies f`nextb, f`pending, f.c, f.c.cache, f.c.disk
    ensures r.Got? <==> nblk < MAXFILEBLKS && old(f.nextb) + 1 + Opened(nblk) <= |old(f.c.view)|
    ensures r.Got? ==>
      && DirExtended(fs, fs1, d, old(f.nextb)) && Built(f, fs1)
      && f.nextb == old(f.nextb) + 1 + Opened(nblk) && |f.c.view| == |old(f.c.view)|
      && f.c.pins == old(f.c.pins) + multiset{old(f.nextb)} && Holds(f.c.Now(), r.slot, old(f.nextb), DIR)
      && forall h, b, t :: Holds(old(f.c.Now()), h, b, t) ==> b != old(f.nextb) && Holds(f.c.Now(), h, b, t)
  {
    fs1 := fs;
    ghost var x := f.nextb;
    ghost var pins := f.c.pins;
    r := OpenDirBlock(f, fs, d, dinob);
    if r.Abort? {
      return;
    }
    ghost var mid := Scribbled(fs, x, ZEROBLOCK);
    f.pending := fs.inodes[d].size;
    ScribbledOrderly(fs, x, ZEROBLOCK);
    ShowsFilling(f.c.view, f.shape, mid.blocks, mid.inodes, d);
    var ok;
    ok, fs1 := f.StoreBlk(mid, d, dinob, r.slot, x, DIR, nblk);
    if !ok {
      return Abort, fs;
    }
    ExtendedDone(pins, fs, fs1, d, x);
    AddBlockSize(f, fs1, d, dinob);
  }

  // ----- allocdirentry

  // Null is the null pointer returned for a name that is too long.
  datatype Place = Null | Aborted | Place(slot: nat, j: nat)

  // The block numbers that a new entry costs, when the directory has to grow for it.
  ghost function DirCost(fs: Fs, d: nat): nat
    requires fs.Valid() && IsDir(fs, d)
  {
    if LastBlockFull(fs, d) && fs.N(d) < MAXFILEBLKS then 1 + Opened(fs.N(d)) else 0
  }

  ghost predicate DirFits(fs: Fs, d: nat, room: int)
    requires fs.Valid() && IsDir(fs, d)
  {
    LastBlockFull(fs, d) ==> fs.N(d) < MAXFILEBLKS && 1 + Opened(fs.N(d)) <= room
  }

  /** Entry k is the one that allocdirentry takes: the first empty one of the last block, or of a new block. */
  ghost predicate Chosen(fs: Fs, fs1: Fs, d: nat, blanks: seq<DirEntries.Entry>, k: nat) {
    && BlankFound(fs, fs1, d, blanks, k)
    && (if LastBlockFull(fs, d) then k == |Slots(fs, d)| && |blanks| == BLKENTRIES
        else blanks == [] && |Slots(fs, d)| - BLKENTRIES <= k < |Slots(fs, d)| && Slots(fs, d)[k].ino == 0
             && forall i :: |Slots(fs, d)| - BLKENTRIES <= i < k ==> Slots(fs, d)[i].ino != 0)
  }

  // An entry held through the cache: entry k, as entry j of block k / 8 of the directory.
  ghost predicate EntryHeld(f: Formatter, fs: Fs, d: nat, k: nat, place: Place)
    reads f.c, f.c.disk, f.c.cache
  {
    && place.Place? && place.j < BLKENTRIES && EntryIn(fs, d, k)
    && 0 < fs.N(d) <= MAXFILEBLKS && k == BLKENTRIES * (fs.N(d) - 1) + place.j
    && Holds(f.c.Now(), place.slot, fs.AtI(d, DataSlot(fs.N(d) - 1)), DIR)
  }

  // The first part of allocdirentry: the last block, and the first empty entry in it.
  method SearchLast(f: Formatter, ghost fs: Fs, d: nat, dinob: nat, n: nat) returns (place: Place, ghost k: nat)
    requires DirHeld(f, fs, d, dinob) && n + 1 == fs.N(d) <= MAXFILEBLKS
    modifies f.c, f.c.cache, f.c.disk
    ensures place.Place? <==> !LastBlockFull(fs, d)
    ensures Built(f, fs) && |f.c.view| == |old(f.c.view)|
    ensures place.Place? ==>
      && Chosen(fs, fs, d, [], k) && EntryHeld(f, fs, d, k, place)
      && f.c.pins == old(f.c.pins) + multiset{fs.AtI(d, DataSlot(n))}
    ensures !place.Place? ==> DirHeld(f, fs, d, dinob) && f.c.pins == old(f.c.pins)
    ensures place.Place? ==> forall h, b, t :: Holds(old(f.c.Now()), h, b, t) ==>
              b != fs.AtI(d, DataSlot(n)) && Holds(f.c.Now(), h, b, t)
    ensures forall h, b, t :: Holds(old(f.c.Now()), h, b, t) ==> Holds(f.c.Now(), h, b, t)
  {
    ghost var b := fs.AtI(d, DataSlot(n));
    EntriesOfBlocks(fs, d);
    DataNotPinned(f.c.pins, fs, d, n);
    var r := GetDirBlock(f, fs, d, dinob, n);
    OwnedPinned(old(f.c.pins), fs, d, n);
    var found, j := FindInBlock(f, fs, d, n, r.slot);
    k := BLKENTRIES * n + j;
    if found {
      BlankInPlace(fs, d, k);
      return Place(r.slot, j), k;
    }
    f.Put(r.slot, b, DIR);
    place := Aborted;
  }

  lemma OwnedPinned(pins: multiset<nat>, fs: Fs, d: nat, n: nat)
    requires Pinned(pins, fs) && Orderly(fs) && fs.HasTree(d) && n < fs.N(d) && n < MAXFILEBLKS
    ensures Pinned(pins + multiset{fs.AtI(d, DataSlot(n))}, fs)
  {
    OrderlyIs(fs);
    DataSlotHas(fs.N(d), n);
    NoSharing(fs, d, DataSlot(n), d, DataSlot(n));
  }

  // The part from label new_dirb on: the first entry of a new block.
  method GrowPlace(f: Formatter, ghost fs: Fs, d: nat, dinob: nat, nblk: nat)
    returns (place: Place, ghost fs1: Fs, ghost k: nat, ghost blanks: seq<DirEntries.Entry>)
    requires DirHeld(f, fs, d, dinob) && d < f.shape.ninodes && nblk == fs.N(d) <= MAXFILEBLKS && LastBlockFull(fs, d)
    modifies f`nextb, f`pending, f.c, f.c.cache, f.c.disk
    ensures place.Place? <==> DirFits(fs, d, |old(f.c.view)| - old(f.nextb))
    ensures place.Place? ==>
      && Built(f, fs1) && Chosen(fs, fs1, d, blanks, k) && EntryHeld(f, fs1, d, k, place)
      && f.c.pins == old(f.c.pins) + multiset{fs1.AtI(d, DataSlot(fs1.N(d) - 1))}
      && |f.c.view| == |old(f.c.view)| && f.nextb == old(f.nextb) + DirCost(fs, d)
      && forall h, b, t :: Holds(old(f.c.Now()), h, b, t) ==>
           b != fs1.AtI(d, DataSlot(fs1.N(d) - 1)) && Holds(f.c.Now(), h, b, t)
  {
    fs1, k, blanks := fs, 0, [];
    var r;
    r, fs1 := GrowDir(f, fs, d, dinob, nblk);
    if r.Abort? {
      return Aborted, fs, 0, [];
    }
    EntriesOfBlocks(fs, d);
    k := |Slots(fs, d)|;
    blanks := Slots(fs1, d)[k..];
    place := Place(r.slot, 0);
  }

  /** allocdirentry up to its label gotit: an empty entry of directory d. */
  method FindPlace(f: Formatter, ghost fs: Fs, d: nat, dinob: nat)
    returns (place: Place, ghost fs1: Fs, ghost k: nat, ghost blanks: seq<DirEntries.Entry>)
    requires DirHeld(f, fs, d, dinob) && d < f.shape.ninodes
    modifies f`nextb, f`pending, f.c, f.c.cache, f.c.disk
    ensures place.Place? <==> DirFits(fs, d, |old(f.c.view)| - old(f.nextb))
    ensures place.Place? ==>
      && Built(f, fs1) && Chosen(fs, fs1, d, blanks, k) && EntryHeld(f, fs1, d, k, place)
      && f.c.pins == old(f.c.pins) + multiset{fs1.AtI(d, DataSlot(fs1.N(d) - 1))}
      && |f.c.view| == |old(f.c.view)| && f.nextb == old(f.nextb) + DirCost(fs, d)
      && forall h, b, t :: Holds(old(f.c.Now()), h, b, t) ==>
           b != fs1.AtI(d, DataSlot(fs1.N(d) - 1)) && Holds(f.c.Now(), h, b, t)
  {
    fs1, k, blanks := fs, 0, [];
    var nblk := LastBlockNumber(f, fs, d, dinob);
    if nblk >= 0 {
      place, k := SearchLast(f, fs, d, dinob, nblk);
      if place.Place? {
        return;
      }
    }
    if nblk < 0 {
      EntriesOfBlocks(fs, d);
    }
    place, fs1, k, blanks := GrowPlace(f, fs, d, dinob, nblk + 1);
  }

  // The block count that allocdirentry takes from the size.
  method LastBlockNumber(f: Formatter, ghost fs: Fs, d: nat, dinob: nat) returns (nblk: int)
    requires DirHeld(f, fs, d, dinob) && d < f.shape.ninodes
    ensures -1 <= nblk == fs.N(d) - 1 < MAXFILEBLKS
  {
    HeldData(f.c.Now(), dinob, f.shape.InodeBlock(d), INODES);
    ShownInode(f.c.view, f.shape, fs.blocks, fs.inodes, Settled, d);
    WholeBlocks(fs, d);
    nblk := Size2NBlocks(ReadInode(f.c.cache[dinob].data, d % BLKINODES).size) - 1;
  }

  /** Bytes stored into an entry that is held. */
  method FillEntry(f: Formatter, ghost fs: Fs, ghost d: nat, ghost k: nat, place: Place, delta: nat, data: seq<byte>)
    returns (ghost fs': Fs)
    requires Built(f, fs) && EntryHeld(f, fs, d, k, place) && 0 < |data| && delta + |data| <= DIRENTRY_SIZE
    modifies f.c, f.c.cache
    ensures Built(f, fs') && Wrote(fs, fs', d, DIRENTRY_SIZE * k + delta, data)
    ensures fs'.inodes == fs.inodes && fs'.AtI(d, DataSlot(fs.N(d) - 1)) == fs.AtI(d, DataSlot(fs.N(d) - 1))
    ensures f.c.pins == old(f.c.pins) && |f.c.view| == |old(f.c.view)|
    ensures forall h, b, t :: Holds(old(f.c.Now()), h, b, t) ==> Holds(f.c.Now(), h, b, t)
  {
    ghost var n := fs.N(d) - 1;
    assert k == BLKENTRIES * n + place.j;
    fs' := StoreInEntry(f, fs, d, n, place.slot, place.j, delta, data);
  }

  // strcpy(od->od_name, name)
  method FillName(f: Formatter, ghost fs: Fs, ghost d: nat, ghost k: nat, place: Place, name: Name)
    returns (ghost fs': Fs)
    requires Built(f, fs) && EntryHeld(f, fs, d, k, place) && |name| <= MAXNAMELEN
    modifies f.c, f.c.cache
    ensures Built(f, fs') && Wrote(fs, fs', d, DIRENTRY_SIZE * k + 4, name + [0]) && EntryHeld(f, fs', d, k, place)
    ensures fs'.inodes == fs.inodes && fs'.AtI(d, DataSlot(fs.N(d) - 1)) == fs.AtI(d, DataSlot(fs.N(d) - 1))
    ensures f.c.pins == old(f.c.pins) && |f.c.view| == |old(f.c.view)|
    ensures forall h, b, t :: Holds(old(f.c.Now()), h, b, t) ==> Holds(f.c.Now(), h, b, t)
  {
    fs' := FillEntry(f, fs, d, k, place, 4, name + [0]);
    NameStored(fs, fs', d, k, name);
  }

  /** allocdirentry: an empty entry of directory d with its name filled in, the directory growing if its last block
      has none. */
  method AllocDirEntry(f: Formatter, ghost fs: Fs, d: nat, dinob: nat, name: Name)
    returns (place: Place, ghost fs1: Fs, ghost fs2: Fs, ghost k: nat, ghost blanks: seq<DirEntries.Entry>)
    requires DirHeld(f, fs, d, dinob) && d < f.shape.ninodes
    modifies f`nextb, f`pending, f.c, f.c.cache, f.c.disk
    ensures place.Null? <==> |name| > MAXNAMELEN
    ensures place.Place? <==> |name| <= MAXNAMELEN && DirFits(fs, d, |old(f.c.view)| - old(f.nextb))
    ensures place.Place? ==>
      && Built(f, fs2) && Chosen(fs, fs1, d, blanks, k) && EntryHeld(f, fs2, d, k, place)
      && (Wrote(fs1, fs2, d, DIRENTRY_SIZE * k + 4, name + [0]) == true)  // passed on whole, not conjunct by conjunct
      && f.c.pins == old(f.c.pins) + multiset{fs2.AtI(d, DataSlot(fs2.N(d) - 1))}
      && |f.c.view| == |old(f.c.view)| && f.nextb == old(f.nextb) + DirCost(fs, d)
      && forall h, b, t :: Holds(old(f.c.Now()), h, b, t) ==>
           b != fs2.AtI(d, DataSlot(fs2.N(d) - 1)) && Holds(f.c.Now(), h, b, t)
  {
    fs1, fs2, k, blanks := fs, fs, 0, [];
    if |name| > MAXNAMELEN {
      return Null, fs, fs, 0, [];
    }
    place, fs1, k, blanks := FindPlace(f, fs, d, dinob);
    if place.Place? {
      fs2 := FillName(f, fs1, d, k, place, name);
    } else {
      place := Aborted;
    }
  }
}
