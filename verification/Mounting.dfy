// The image as the formatter leaves it and as the module takes it: the
// superblock, the bitmap as bits of block 2, the inode table, and the files.
module Mounting {
  import opened Words
  import opened Freemap
  import opened Layout
  import opened Image
  import opened FileData
  import opened InodeTable

  const MAGIC := 0x013101AE

  // ----- bits of the bitmap block

  predicate FreeBit(ws: Block, b: nat)
    requires b < BLKBITSIZE
  {
    TestBit(ws[b / 32], b % 32)
  }

  function FreeBits(ws: Block): set<nat> {
    set b: nat | b < BLKBITSIZE && FreeBit(ws, b)
  }

  /** One bit of the bitmap block cleared. */
  function Taken(ws: Block, b: nat): Block
    requires b < BLKBITSIZE
  {
    ws[b / 32 := ClearBit(ws[b / 32], b % 32)]
  }

  lemma TakenBit(ws: Block, b: nat, c: nat)
    requires b < BLKBITSIZE && c < BLKBITSIZE
    ensures FreeBit(Taken(ws, b), c) <==> c != b && FreeBit(ws, c)
  {
    DigitAfter(ws[c / 32], b % 32, c % 32);
  }

  /** The bits from lo to hi - 1 cleared. */
  function TakenRange(ws: Block, lo: nat, hi: nat): Block
    requires lo <= hi <= BLKBITSIZE
    decreases hi
  {
    if lo == hi then ws else Taken(TakenRange(ws, lo, hi - 1), hi - 1)
  }

  lemma {:induction false} TakenRangeBit(ws: Block, lo: nat, hi: nat, c: nat)
    requires lo <= hi <= BLKBITSIZE && c < BLKBITSIZE
    ensures FreeBit(TakenRange(ws, lo, hi), c) <==> FreeBit(ws, c) && !(lo <= c < hi)
    decreases hi
  {
    if lo < hi {
      TakenRangeBit(ws, lo, hi - 1, c);
      TakenBit(TakenRange(ws, lo, hi - 1), hi - 1, c);
    }
  }

  lemma OnesFree(b: nat)
    requires b < BLKBITSIZE
    ensures FreeBit(ONESBLOCK, b)
  {
    Pow2Word();
    AllOnes(32, b % 32);
  }

  /** What finishfs puts into the bitmap: of all bits, those below nextb and those past the disk are cleared. */
  function FinalBits(nextb: nat, nblocks: nat): Block
    requires nextb <= nblocks <= BLKBITSIZE
  {
    TakenRange(TakenRange(ONESBLOCK, 0, nextb), nblocks, BLKBITSIZE)
  }

  /** The bits set are exactly those of the blocks not handed out. */
  lemma FinalBit(nextb: nat, nblocks: nat, b: nat)
    requires nextb <= nblocks <= BLKBITSIZE && b < BLKBITSIZE
    ensures FreeBit(FinalBits(nextb, nblocks), b) <==> nextb <= b < nblocks
  {
    OnesFree(b);
    TakenRangeBit(ONESBLOCK, 0, nextb, b);
    TakenRangeBit(TakenRange(ONESBLOCK, 0, nextb), nblocks, BLKBITSIZE, b);
  }

  // ----- a finished image

  /** The image says all that it should about files fs and the next free block. */
  ghost predicate Finished(view: seq<Block>, shape: Shape, fs: Fs, nextb: nat) {
    && shape.Fits(|view|) && nextb <= |view| <= BLKBITSIZE
    && view[1][..4] == [MAGIC, |view|, shape.ninodes, shape.firstinob]
    && view[2] == FinalBits(nextb, |view|)
    && fs.first == shape.first && |fs.blocks| == |view| && |fs.inodes| == shape.ninodes
    && (forall b :: shape.first <= b < |view| ==> view[b] == fs.blocks[b])
    && (forall j: nat :: j < shape.ninodes ==> shape.InodeBlock(j) < |view| && InodeAt(view, shape, j) == fs.inodes[j])
  }

  /** What finishfs writes into the superblock. */
  function Superblock(nblocks: uint32, shape: Shape): Block
    requires shape.ninodes < TWO32 && shape.firstinob < TWO32
  {
    [MAGIC, nblocks, shape.ninodes, shape.firstinob] + ZEROBLOCK[4..]
  }

  lemma FinishedIs(view: seq<Block>, shape: Shape, fs: Fs, nextb: nat)
    requires Shows(view, shape, fs.blocks, fs.inodes, Settled) && fs.first == shape.first
    requires nextb <= |view| <= BLKBITSIZE
    ensures shape.Fits(|view|) && shape.ninodes < TWO32 && shape.firstinob < TWO32
    ensures Finished(view[2 := FinalBits(nextb, |view|)][1 := Superblock(|view|, shape)], shape, fs, nextb)
  {
    ShowsIs(view, shape, fs.blocks, fs.inodes, Settled);
    var view' := view[2 := FinalBits(nextb, |view|)][1 := Superblock(|view|, shape)];
    forall j: nat | j < shape.ninodes ensures shape.InodeBlock(j) < |view| && InodeAt(view', shape, j) == fs.inodes[j] {
      InodeBlockInTable(shape, |view|, j);
    }
    assert view'[1][..4] == [MAGIC, |view|, shape.ninodes, shape.firstinob];
  }

  /** Whether the superblock can be taken at its word. */
  predicate Mountable(disk: seq<Block>) {
    && |disk| > 2 && disk[1][1] == |disk| <= BLKBITSIZE
    && Placement(disk).Fits(|disk|)
  }

  /** The layout that the superblock gives; inode blocks hold sixteen inodes. */
  function Placement(disk: seq<Block>): Shape
    requires |disk| > 2
  {
    Shape(disk[1][3], disk[1][2], disk[1][3] + (disk[1][2] + BLKINODES - 1) / BLKINODES)
  }

  /** The state of the module once the image is mounted; which place names a block is for the proofs only. */
  function Mounted(disk: seq<Block>, owner: map<nat, Owner>): Fs
    requires Mountable(disk)
  {
    var shape := Placement(disk);
    Fs(shape.first, FreeBits(disk[2]), disk, Table(disk, shape), owner)
  }

  /** Mounting a finished image gives back its files, with exactly the blocks not handed out free. */
  lemma FinishedMounts(view: seq<Block>, shape: Shape, fs: Fs, nextb: nat)
    requires Finished(view, shape, fs, nextb) && fs.Valid()
    ensures Mountable(view) && Placement(view) == shape
    ensures var m := Mounted(view, fs.owner);
      && m.first == fs.first && m.inodes == fs.inodes
      && (forall b :: b in m.free <==> nextb <= b < |view|)
      && (forall b :: fs.first <= b < |view| ==> m.blocks[b] == fs.blocks[b])
  {
    var ws := view[1][..4];
    assert ws[1] == view[1][1] && ws[2] == view[1][2] && ws[3] == view[1][3];
    assert Placement(view) == shape;
    var m := Mounted(view, fs.owner);
    forall b | 0 <= b < BLKBITSIZE ensures FreeBit(view[2], b) <==> nextb <= b < |view| {
      FinalBit(nextb, |view|, b);
    }
    forall j: nat | j < shape.ninodes ensures m.inodes[j] == fs.inodes[j] {
      TableAt(view, shape, j);
    }
  }

  /** The blocks before the data blocks are no file's business. */
  lemma SameFiles(fs: Fs, m: Fs)
    requires fs.Valid() && m == fs.(blocks := m.blocks) && |m.blocks| == |fs.blocks|
    requires forall b :: fs.first <= b < |fs.blocks| ==> m.blocks[b] == fs.blocks[b]
    ensures m.Valid()
    ensures forall i: nat :: fs.HasTree(i) ==> m.HasTree(i) && m.Contents(i) == fs.Contents(i)
  {
    fs.ValidIs();
    m.ValidIs();
    forall i, s ensures m.Owns(i, s) <==> fs.Owns(i, s) {
    }
    forall i, s | fs.Owns(i, s) ensures m.AtI(i, s) == fs.AtI(i, s) {
      SamePlace(fs, m, i, s);
    }
    assert forall i: nat :: m.HasTree(i) <==> fs.HasTree(i);
    forall i: nat | fs.HasTree(i) ensures m.Contents(i) == fs.Contents(i) {
      SameContents(fs, m, i);
    }
  }

  lemma SamePlace(fs: Fs, m: Fs, i: nat, s: Slot)
    requires fs.Trees() && fs.Owns(i, s) && m == fs.(blocks := m.blocks) && |m.blocks| == |fs.blocks|
    requires forall b :: fs.first <= b < |fs.blocks| ==> m.blocks[b] == fs.blocks[b]
    ensures m.AtI(i, s) == fs.AtI(i, s)
  {
    match s {
      case Direct(_) =>
      case Indirect =>
      case Indirect2 =>
      case Single(_) =>
        NoSharing(fs, i, Indirect, i, Indirect);
      case Leaf(_) =>
        NoSharing(fs, i, Indirect2, i, Indirect2);
      case Double(k, _) =>
        NoSharing(fs, i, Indirect2, i, Indirect2);
        NoSharing(fs, i, Leaf(k), i, Leaf(k));
    }
  }

  lemma SameContents(fs: Fs, m: Fs, i: nat)
    requires fs.Valid() && fs.HasTree(i) && m == fs.(blocks := m.blocks) && |m.blocks| == |fs.blocks|
    requires forall b :: fs.first <= b < |fs.blocks| ==> m.blocks[b] == fs.blocks[b]
    ensures m.Contents(i) == fs.Contents(i)
  {
    fs.ValidIs();
    SizeFits(fs, i);
    forall k: nat | k < fs.inodes[i].size ensures m.Contents(i)[k] == fs.Contents(i)[k] {
      ByteOwned(fs, i, k);
      SamePlace(fs, m, i, ByteSlot(k));
      fs.PrefixAt(i, fs.inodes[i].size, k);
      m.PrefixAt(i, fs.inodes[i].size, k);
    }
  }

  /** Formatter and module agree: a finished image mounts as a safe file system whose files are those that were written,
      and whose free blocks are those the formatter did not hand out. */
  lemma FormatMounts(view: seq<Block>, shape: Shape, fs: Fs, nextb: nat)
    requires Finished(view, shape, fs, nextb) && fs.Valid()
    requires forall b :: b in fs.free <==> nextb <= b < |view|
    ensures Mountable(view) && Mounted(view, fs.owner).Valid() && Mounted(view, fs.owner).free == fs.free
    ensures forall i: nat :: fs.HasTree(i) ==>
      Mounted(view, fs.owner).HasTree(i) && Mounted(view, fs.owner).Contents(i) == fs.Contents(i)
  {
    FinishedMounts(view, shape, fs, nextb);
    SameFiles(fs, Mounted(view, fs.owner));
  }
}
