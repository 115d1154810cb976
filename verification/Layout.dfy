// The on-disk layout that the formatter writes and the file system module
// reads: blocks, inodes, and the three-level block map of a file.
module Layout {
  import opened Words

  const BLKSIZE := 1024
  const BLKWORDS := 256
  const BLKBITSIZE := 8192
  const NDIRECT := 10
  const NINDIRECT := 256
  const MAXFILEBLKS := NDIRECT + NINDIRECT + NINDIRECT * NINDIRECT

  const FTYPE_REG: uint32 := 0
  const FTYPE_DIR: uint32 := 1
  const FTYPE_SYMLINK: uint32 := 2

  type Block = ws: seq<uint32> | |ws| == 256 witness Zeros(256)
  type Pointers = ps: seq<uint32> | |ps| == 10 witness Zeros(10)
  type DirectNumber = x: nat | x < 10
  type IndirectNumber = x: nat | x < 256

  const ZEROBLOCK: Block := Zeros(256)
  const ZEROPOINTERS: Pointers := Zeros(10)

  datatype Inode = Inode(size: uint32, ftype: uint32, nlink: uint32, mode: uint32,
                         direct: Pointers, indirect: uint32, indirect2: uint32)

  /** ospfs_size2nblocks, with the wrap-around of its 32-bit addition. */
  function Size2NBlocks(size: uint32): (n: nat)
    ensures n < 0x40_0000
  {
    NBlocksAfter(1 + size, size)
  }

  // The countdown keeps the arithmetic out of proofs that only count blocks; Size2NBlocksIs opens it.
  function NBlocksAfter(k: nat, size: uint32): (n: nat)
    ensures n < 0x40_0000
    decreases k
  {
    if k == 0 then Add32(size, BLKSIZE - 1) / BLKSIZE else NBlocksAfter(k - 1, size)
  }

  lemma Size2NBlocksIs(size: uint32)
    ensures Size2NBlocks(size) == Add32(size, BLKSIZE - 1) / BLKSIZE
  {
    NBlocksAfterIs(1 + size, size);
  }

  lemma {:induction false} NBlocksAfterIs(k: nat, size: uint32)
    ensures NBlocksAfter(k, size) == Add32(size, BLKSIZE - 1) / BLKSIZE
    decreases k
  {
    if k > 0 {
      NBlocksAfterIs(k - 1, size);
    }
  }

  /** ospfs_block: what is stored at a block number. Numbers past the disk read as zeros here. */
  function Fetch(blocks: seq<Block>, p: uint32): Block {
    if p < |blocks| then blocks[p] else ZEROBLOCK
  }

  /** ospfs_inode_blockno: the block that holds byte 'offset' of a file, 0 when there is none. */
  function InodeBlockno(blocks: seq<Block>, oi: Inode, offset: uint32): uint32 {
    var blockno := offset / BLKSIZE;
    if offset >= oi.size || oi.ftype == FTYPE_SYMLINK then
      0
    else if blockno >= NDIRECT + NINDIRECT then
      var blockoff := blockno - (NDIRECT + NINDIRECT);
      if blockoff / NINDIRECT >= NINDIRECT then 0 else  // outside the doubly indirect block
      var indirect2Block := Fetch(blocks, oi.indirect2);
      var indirectBlock := Fetch(blocks, indirect2Block[blockoff / NINDIRECT]);
      indirectBlock[blockoff % NINDIRECT]
    else if blockno >= NDIRECT then
      Fetch(blocks, oi.indirect)[blockno - NDIRECT]
    else
      oi.direct[blockno]
  }

  /** Every place in a file's block tree that can hold a block number. */
  datatype Slot =
    | Direct(d: DirectNumber)
    | Indirect
    | Single(j: IndirectNumber)
    | Indirect2
    | Leaf(k: IndirectNumber)
    | Double(k: IndirectNumber, j: IndirectNumber)
  {
    predicate IsData() {
      Direct? || Single? || Double?
    }
  }

  /** The place of file block b. */
  function DataSlot(b: nat): (s: Slot)
    requires b < MAXFILEBLKS
    ensures b < NDIRECT ==> s == Direct(b)
    ensures NDIRECT <= b < NDIRECT + NINDIRECT ==> s == Single(b - NDIRECT)
    ensures NDIRECT + NINDIRECT <= b ==> s.Double?
  {
    SlotAfter(1 + b, b)
  }

  // The countdown keeps division out of proofs that only name places; DataSlotIs opens it.
  function SlotAfter(k: nat, b: nat): (s: Slot)
    requires b < MAXFILEBLKS
    ensures b < NDIRECT ==> s == Direct(b)
    ensures NDIRECT <= b < NDIRECT + NINDIRECT ==> s == Single(b - NDIRECT)
    ensures NDIRECT + NINDIRECT <= b ==> s.Double?
    decreases k
  {
    if k > 0 then SlotAfter(k - 1, b)
    else if b < NDIRECT then Direct(b)
    else if b < NDIRECT + NINDIRECT then Single(b - NDIRECT)
    else Double((b - NDIRECT - NINDIRECT) / NINDIRECT, (b - NDIRECT - NINDIRECT) % NINDIRECT)
  }

  lemma DataSlotIs(b: nat)
    requires b < MAXFILEBLKS
    ensures DataSlot(b) ==
            if b < NDIRECT then Direct(b)
            else if b < NDIRECT + NINDIRECT then Single(b - NDIRECT)
            else Double((b - NDIRECT - NINDIRECT) / NINDIRECT, (b - NDIRECT - NINDIRECT) % NINDIRECT)
  {
    SlotAfterIs(1 + b, b);
  }

  lemma {:induction false} SlotAfterIs(k: nat, b: nat)
    requires b < MAXFILEBLKS
    ensures SlotAfter(k, b) ==
            if b < NDIRECT then Direct(b)
            else if b < NDIRECT + NINDIRECT then Single(b - NDIRECT)
            else Double((b - NDIRECT - NINDIRECT) / NINDIRECT, (b - NDIRECT - NINDIRECT) % NINDIRECT)
    decreases k
  {
    if k > 0 {
      SlotAfterIs(k - 1, b);
    }
  }

  /** Which places a file of n blocks uses. */
  predicate Has(n: nat, s: Slot) {
    match s
    case Direct(d) => d < n
    case Indirect => NDIRECT < n
    case Single(j) => NDIRECT + j < n
    case Indirect2 => NDIRECT + NINDIRECT < n
    case Leaf(k) => NDIRECT + NINDIRECT + NINDIRECT * k < n
    case Double(k, j) => NDIRECT + NINDIRECT + NINDIRECT * k + j < n
  }

  /** The block number stored in a place. */
  function At(blocks: seq<Block>, oi: Inode, s: Slot): uint32 {
    match s
    case Direct(d) => oi.direct[d]
    case Indirect => oi.indirect
    case Single(j) => Fetch(blocks, oi.indirect)[j]
    case Indirect2 => oi.indirect2
    case Leaf(k) => Fetch(blocks, oi.indirect2)[k]
    case Double(k, j) => Fetch(blocks, Fetch(blocks, oi.indirect2)[k])[j]
  }

  /** The places in use form exactly the tree over the first n file blocks. */
  lemma DataSlotHas(n: nat, b: nat)
    requires b < MAXFILEBLKS
    ensures Has(n, DataSlot(b)) <==> b < n
  {
    DataSlotIs(b);
  }

  lemma DataSlotInjective(a: nat, b: nat)
    requires a < MAXFILEBLKS && b < MAXFILEBLKS && DataSlot(a) == DataSlot(b)
    ensures a == b
  {
    DataSlotIs(a);
    DataSlotIs(b);
  }

  /** What one more block adds to the tree: its own place and the pointer blocks it opens. */
  predicate IsNewSlot(n: nat, s: Slot)
    requires n < MAXFILEBLKS
  {
    || s == DataSlot(n)
    || (n == NDIRECT && s == Indirect)
    || (n == NDIRECT + NINDIRECT && s == Indirect2)
    || (n >= NDIRECT + NINDIRECT && DataSlot(n).Double? && DataSlot(n).j == 0 && s == Leaf(DataSlot(n).k))
  }

  lemma HasNext(n: nat, s: Slot)
    requires n < MAXFILEBLKS
    ensures Has(n + 1, s) <==> Has(n, s) || IsNewSlot(n, s)
  {
    DataSlotIs(n);
  }

  /** ospfs_inode_blockno reads the place of the file block that holds the offset. */
  lemma BlocknoReadsSlot(blocks: seq<Block>, oi: Inode, offset: uint32)
    requires offset < oi.size && oi.ftype != FTYPE_SYMLINK
    requires offset / BLKSIZE < MAXFILEBLKS
    ensures InodeBlockno(blocks, oi, offset) == At(blocks, oi, DataSlot(offset / BLKSIZE))
  {
    DataSlotIs(offset / BLKSIZE);
  }

  /** Block number and offset within the block. */
  lemma SplitOffset(pos: nat, q: nat, r: nat)
    requires pos == BLKSIZE * q + r && r < BLKSIZE
    ensures pos / BLKSIZE == q && pos % BLKSIZE == r
  {
  }

  /** Sizes that do not wrap the rounding addition need one block per started 1024 bytes. */
  lemma Size2NBlocksIsCeiling(size: uint32)
    ensures Size2NBlocks(size) == Add32(size, BLKSIZE - 1) / BLKSIZE
    ensures size <= TWO32 - BLKSIZE <==> size <= Size2NBlocks(size) * BLKSIZE
    ensures size <= TWO32 - BLKSIZE ==>
              Size2NBlocks(size) == if size == 0 then 0 else (size - 1) / BLKSIZE + 1
  {
    Size2NBlocksIs(size);
  }

  /** Growing or shrinking oi_size by one block moves the block count by one, wrapped or not. */
  lemma SizeStep(size: uint32)
    ensures Size2NBlocks(size) < 0x3F_FFFF ==> Size2NBlocks(Add32(size, BLKSIZE)) == Size2NBlocks(size) + 1
    ensures Size2NBlocks(size) > 0 ==> Size2NBlocks(Sub32(size, BLKSIZE)) == Size2NBlocks(size) - 1
  {
    Size2NBlocksIsCeiling(size);
    Size2NBlocksIsCeiling(Add32(size, BLKSIZE));
    Size2NBlocksIsCeiling(Sub32(size, BLKSIZE));
  }
}
