// Inodes as they lie in the inode blocks: sixteen words each, sixteen to a
// block. The formatter addresses them by block and index, the module by
// address from the first inode block on.
module InodeTable {
  import opened Words
  import opened Layout

  const BLKINODES := 16
  const INODEWORDS := 16

  // Bitmap blocks start with every bit set.
  const ONESBLOCK: Block := Ones(256)
  const ZEROINODE := Inode(0, 0, 0, 0, ZEROPOINTERS, 0, 0)

  function Ones(n: nat): (ws: seq<uint32>)
    ensures |ws| == n && forall i :: 0 <= i < n ==> ws[i] == 0xFFFF_FFFF
  {
    seq(n, _ => 0xFFFF_FFFF)
  }

  type InodeIndex = k: nat | k < 16

  // Where the inode table lies and where the data blocks start.
  datatype Shape = Shape(firstinob: nat, ninodes: nat, first: nat) {
    predicate Fits(nblocks: nat) {
      // As many inode blocks as the inodes need.
      && 3 <= firstinob < first <= nblocks
      && BLKINODES * (first - firstinob - 1) < ninodes <= BLKINODES * (first - firstinob)
    }

    function InodeBlock(ino: nat): nat {
      firstinob + ino / BLKINODES
    }
  }

  lemma InodeBlockInTable(shape: Shape, nblocks: nat, ino: nat)
    requires shape.Fits(nblocks) && ino < shape.ninodes
    ensures shape.firstinob <= shape.InodeBlock(ino) < shape.first
  {
  }

  /** struct ospfs_inode, field by field. */
  function InodeOf(ws: seq<uint32>): Inode
    requires |ws| == INODEWORDS
  {
    Inode(ws[0], ws[1], ws[2], ws[3], ws[4..14], ws[14], ws[15])
  }

  /** u.ino[k] of a block. */
  function ReadInode(ws: Block, k: InodeIndex): Inode {
    InodeOf(ws[INODEWORDS * k..INODEWORDS * (k + 1)])
  }

  function WriteInode(ws: Block, k: InodeIndex, oi: Inode): Block {
    var words := [oi.size, oi.ftype, oi.nlink, oi.mode] + oi.direct + [oi.indirect, oi.indirect2];
    ws[..INODEWORDS * k] + words + ws[INODEWORDS * (k + 1)..]
  }

  lemma ReadWritten(ws: Block, k: InodeIndex, oi: Inode, j: InodeIndex)
    ensures ReadInode(WriteInode(ws, k, oi), j) == if j == k then oi else ReadInode(ws, j)
  {
    var o, ws' := INODEWORDS * j, WriteInode(ws, k, oi);
    if j == k {
      assert ws'[o..o + INODEWORDS][4..14] == oi.direct;
    } else {
      assert ws'[o..o + INODEWORDS] == ws[o..o + INODEWORDS];
    }
  }

  /** The formatter's way to an inode. */
  function InodeAt(view: seq<Block>, shape: Shape, ino: nat): Inode
    requires shape.InodeBlock(ino) < |view|
  {
    ReadInode(view[shape.InodeBlock(ino)], ino % BLKINODES)
  }

  /** Word w of the image. */
  function WordAt(view: seq<Block>, w: nat): uint32
    requires w < BLKWORDS * |view|
  {
    view[w / BLKWORDS][w % BLKWORDS]
  }

  /** n words of memory, from word w of the image on. */
  function WordsFrom(view: seq<Block>, w: nat, n: nat): (ws: seq<uint32>)
    requires w + n <= BLKWORDS * |view|
    ensures |ws| == n
  {
    seq<uint32>(n, k requires 0 <= k < n => WordAt(view, w + k))
  }

  lemma WordInBlock(view: seq<Block>, b: nat, o: nat)
    requires b < |view| && o < BLKWORDS
    ensures BLKWORDS * b + o < BLKWORDS * |view| && WordAt(view, BLKWORDS * b + o) == view[b][o]
  {
  }

  lemma WordsInBlock(view: seq<Block>, b: nat, o: nat, n: nat)
    requires b < |view| && o + n <= BLKWORDS
    ensures BLKWORDS * b + o + n <= BLKWORDS * |view|
    ensures WordsFrom(view, BLKWORDS * b + o, n) == view[b][o..o + n]
  {
    var ws := WordsFrom(view, BLKWORDS * b + o, n);
    forall k: nat | k < n ensures ws[k] == view[b][o..o + n][k] {
      WordInBlock(view, b, o + k);
    }
  }

  /** ospfs_inode: the module's way to an inode, &oi[ino] in an array that starts at the first inode block. */
  function OspfsInode(view: seq<Block>, firstinob: nat, ino: nat): Inode
    requires BLKWORDS * firstinob + INODEWORDS * ino + INODEWORDS <= BLKWORDS * |view|
  {
    InodeOf(WordsFrom(view, BLKWORDS * firstinob + INODEWORDS * ino, INODEWORDS))
  }

  /** Formatter and module agree on where inodes are. */
  lemma SameInode(view: seq<Block>, shape: Shape, ino: nat)
    requires shape.Fits(|view|) && ino < shape.ninodes
    ensures BLKWORDS * shape.firstinob + INODEWORDS * ino + INODEWORDS <= BLKWORDS * |view|
    ensures shape.InodeBlock(ino) < |view|
    ensures OspfsInode(view, shape.firstinob, ino) == InodeAt(view, shape, ino)
  {
    InodeBlockInTable(shape, |view|, ino);
    SameAddress(shape.firstinob, ino, ino / BLKINODES, ino % BLKINODES);
    WordsInBlock(view, shape.InodeBlock(ino), INODEWORDS * (ino % BLKINODES), INODEWORDS);
  }

  lemma SameAddress(firstinob: nat, ino: nat, q: nat, k: InodeIndex)
    requires ino == BLKINODES * q + k
    ensures BLKWORDS * firstinob + INODEWORDS * ino == BLKWORDS * (firstinob + q) + INODEWORDS * k
    ensures INODEWORDS * k + INODEWORDS <= BLKWORDS
  {
  }

  /** The inode table, as the module sees it. */
  function Table(view: seq<Block>, shape: Shape): (t: seq<Inode>)
    requires shape.Fits(|view|)
    ensures |t| == shape.ninodes
  {
    seq(shape.ninodes, ino requires 0 <= ino < shape.ninodes => OspfsInode(view, shape.firstinob, ino))
  }

  lemma TableAt(view: seq<Block>, shape: Shape, ino: nat)
    requires shape.Fits(|view|) && ino < shape.ninodes
    ensures shape.InodeBlock(ino) < |view|
    ensures Table(view, shape)[ino] == InodeAt(view, shape, ino)
  {
    SameInode(view, shape, ino);
  }

  // ----- an image under construction

  // An inode whose size is written last: until then the image shows the size it had.
  datatype Pending = Settled | Filling(i: nat, size: uint32)

  /** The view has these data blocks and this inode table, except for the size of the inode that is being filled. */
  ghost predicate Shows(view: seq<Block>, shape: Shape, blocks: seq<Block>, inodes: seq<Inode>, p: Pending) {
    ShowsAfter(1 + |view|, view, shape, blocks, inodes, p)
  }

  // The countdown keeps the definition out of proofs that only pass it on; ShowsIs opens it.
  ghost predicate ShowsAfter(n: nat, view: seq<Block>, shape: Shape, blocks: seq<Block>, inodes: seq<Inode>, p: Pending)
    decreases n
  {
    if n == 0 then IsShown(view, shape, blocks, inodes, p) else ShowsAfter(n - 1, view, shape, blocks, inodes, p)
  }

  ghost predicate IsShown(view: seq<Block>, shape: Shape, blocks: seq<Block>, inodes: seq<Inode>, p: Pending) {
    && shape.Fits(|view|) && |blocks| == |view| && |inodes| == shape.ninodes
    && view[2] == ONESBLOCK
    && (forall b :: shape.first <= b < |view| ==> view[b] == blocks[b])
    && (forall j :: 0 <= j < shape.ninodes ==>
          && shape.InodeBlock(j) < shape.first
          && InodeAt(view, shape, j) == if p.Filling? && j == p.i then inodes[j].(size := p.size) else inodes[j])
  }

  lemma ShowsIs(view: seq<Block>, shape: Shape, blocks: seq<Block>, inodes: seq<Inode>, p: Pending)
    ensures Shows(view, shape, blocks, inodes, p) <==> IsShown(view, shape, blocks, inodes, p)
  {
    ShowsAfterIs(1 + |view|, view, shape, blocks, inodes, p);
  }

  lemma {:induction false} ShowsAfterIs(n: nat, view: seq<Block>, shape: Shape, blocks: seq<Block>, inodes: seq<Inode>,
                                        p: Pending)
    ensures ShowsAfter(n, view, shape, blocks, inodes, p) <==> IsShown(view, shape, blocks, inodes, p)
    decreases n
  {
    if n > 0 {
      ShowsAfterIs(n - 1, view, shape, blocks, inodes, p);
    }
  }

  lemma ZeroInode(k: InodeIndex)
    ensures ReadInode(ZEROBLOCK, k) == ZEROINODE
  {
    var ws := ZEROBLOCK[INODEWORDS * k..INODEWORDS * (k + 1)];
    assert forall d :: 0 <= d < INODEWORDS ==> ws[d] == 0;
    assert ws[4..14] == ZEROPOINTERS;
  }

  /** The image that opendisk makes. */
  lemma ShowsEmpty(view: seq<Block>, shape: Shape)
    requires shape.Fits(|view|) && view[2] == ONESBLOCK
    requires forall b :: 0 <= b < |view| && b != 2 ==> view[b] == ZEROBLOCK
    ensures Shows(view, shape, seq(|view|, _ => ZEROBLOCK), seq(shape.ninodes, _ => ZEROINODE), Settled)
  {
    forall j | 0 <= j < shape.ninodes
      ensures shape.InodeBlock(j) < shape.first && InodeAt(view, shape, j) == ZEROINODE
    {
      InodeBlockInTable(shape, |view|, j);
      ZeroInode(j % BLKINODES);
    }
    ShowsIs(view, shape, seq(|view|, _ => ZEROBLOCK), seq(shape.ninodes, _ => ZEROINODE), Settled);
  }

  lemma ShowsBlock(view: seq<Block>, shape: Shape, blocks: seq<Block>, inodes: seq<Inode>, p: Pending, b: nat,
                   data: Block)
    requires Shows(view, shape, blocks, inodes, p) && shape.first <= b < |view|
    ensures 3 <= shape.first && |blocks| == |view| && Shows(view[b := data], shape, blocks[b := data], inodes, p)
  {
    ShowsIs(view, shape, blocks, inodes, p);
    ShowsIs(view[b := data], shape, blocks[b := data], inodes, p);
  }

  lemma ShowsInode(view: seq<Block>, shape: Shape, blocks: seq<Block>, inodes: seq<Inode>, p: Pending, j: nat,
                   oi: Inode)
    requires Shows(view, shape, blocks, inodes, p) && j < shape.ninodes
    requires p.Filling? && p.i == j ==> oi.size == p.size
    ensures |inodes| == shape.ninodes && shape.InodeBlock(j) < |view|
    ensures var b := shape.InodeBlock(j);
            Shows(view[b := WriteInode(view[b], j % BLKINODES, oi)], shape, blocks, inodes[j := oi], p)
  {
    ShowsIs(view, shape, blocks, inodes, p);
    InodeBlockInTable(shape, |view|, j);
    var b, k := shape.InodeBlock(j), j % BLKINODES;
    var view' := view[b := WriteInode(view[b], k, oi)];
    forall l | 0 <= l < shape.ninodes
      ensures InodeAt(view', shape, l) == if l == j then oi else InodeAt(view, shape, l)
    {
      ReadWritten(view[b], k, oi, l % BLKINODES);
      assert shape.InodeBlock(l) == b && l % BLKINODES == k ==> l == j;
    }
    ShowsIs(view', shape, blocks, inodes[j := oi], p);
  }

  lemma ShownInode(view: seq<Block>, shape: Shape, blocks: seq<Block>, inodes: seq<Inode>, p: Pending, j: nat)
    requires Shows(view, shape, blocks, inodes, p) && j < shape.ninodes
    ensures |inodes| == shape.ninodes && shape.InodeBlock(j) < shape.first <= |view| && shape.Fits(|view|)
    ensures InodeAt(view, shape, j) == if p.Filling? && j == p.i then inodes[j].(size := p.size) else inodes[j]
  {
    ShowsIs(view, shape, blocks, inodes, p);
  }

  lemma ShownBlock(view: seq<Block>, shape: Shape, blocks: seq<Block>, inodes: seq<Inode>, p: Pending, b: nat)
    requires Shows(view, shape, blocks, inodes, p) && shape.first <= b < |view|
    ensures |blocks| == |view| && blocks[b] == view[b]
  {
    ShowsIs(view, shape, blocks, inodes, p);
  }

  /** The size of the inode that is being filled does not show. */
  lemma ShowsSize(view: seq<Block>, shape: Shape, blocks: seq<Block>, inodes: seq<Inode>, p: Pending, size: uint32)
    requires Shows(view, shape, blocks, inodes, p) && p.Filling? && p.i < |inodes|
    ensures Shows(view, shape, blocks, inodes[p.i := inodes[p.i].(size := size)], p)
  {
    ShowsIs(view, shape, blocks, inodes, p);
    ShowsIs(view, shape, blocks, inodes[p.i := inodes[p.i].(size := size)], p);
  }

  /** Pointers of the inode that is being filled change. */
  lemma ShowsPointers(view: seq<Block>, shape: Shape, blocks: seq<Block>, inodes: seq<Inode>, p: Pending, oi: Inode,
                      size: uint32)
    requires Shows(view, shape, blocks, inodes, p) && p.Filling? && p.i < shape.ninodes && oi.size == p.size
    ensures |inodes| == shape.ninodes && shape.InodeBlock(p.i) < shape.first <= |view|
    ensures var b := shape.InodeBlock(p.i);
            Shows(view[b := WriteInode(view[b], p.i % BLKINODES, oi)], shape, blocks,
                  inodes[p.i := oi.(size := size)], p)
  {
    ShownInode(view, shape, blocks, inodes, p, p.i);
    ShowsInode(view, shape, blocks, inodes, p, p.i, oi);
    var b := shape.InodeBlock(p.i);
    ShowsSize(view[b := WriteInode(view[b], p.i % BLKINODES, oi)], shape, blocks, inodes[p.i := oi], p, size);
    assert inodes[p.i := oi][p.i := oi.(size := size)] == inodes[p.i := oi.(size := size)];
  }

  /** Once its size is set too, nothing about the inode is left to be written. */
  lemma ShowsExactly(view: seq<Block>, shape: Shape, blocks: seq<Block>, inodes: seq<Inode>, p: Pending, i: nat,
                     oi: Inode)
    requires Shows(view, shape, blocks, inodes, p) && i < shape.ninodes && (p.Filling? ==> p.i == i)
    ensures |inodes| == shape.ninodes && shape.InodeBlock(i) < shape.first <= |view|
    ensures var b := shape.InodeBlock(i);
            Shows(view[b := WriteInode(view[b], i % BLKINODES, oi)], shape, blocks, inodes[i := oi], Settled)
  {
    ShownInode(view, shape, blocks, inodes, p, i);
    ShowsIs(view, shape, blocks, inodes, p);
    ShowsIs(view, shape, blocks, inodes[i := InodeAt(view, shape, i)], Settled);
    ShowsInode(view, shape, blocks, inodes[i := InodeAt(view, shape, i)], Settled, i, oi);
    assert inodes[i := InodeAt(view, shape, i)][i := oi] == inodes[i := oi];
  }

  /** An inode is about to be filled: its size shows as it is. */
  lemma ShowsFilling(view: seq<Block>, shape: Shape, blocks: seq<Block>, inodes: seq<Inode>, i: nat)
    requires Shows(view, shape, blocks, inodes, Settled) && i < |inodes|
    ensures Shows(view, shape, blocks, inodes, Filling(i, inodes[i].size))
  {
    ShowsIs(view, shape, blocks, inodes, Settled);
    ShowsIs(view, shape, blocks, inodes, Filling(i, inodes[i].size));
  }

  lemma ShowsOnes(view: seq<Block>, shape: Shape, blocks: seq<Block>, inodes: seq<Inode>, p: Pending)
    requires Shows(view, shape, blocks, inodes, p)
    ensures |view| > 2 && view[2] == ONESBLOCK
  {
    ShowsIs(view, shape, blocks, inodes, p);
  }
}
