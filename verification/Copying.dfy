// What the file-writing loop of the formatter has made after each block, and
// how many block numbers it uses up.
module Copying {
  import opened Words
  import opened Layout
  import opened Image
  import opened Resize
  import opened BlockCalls
  import opened FileData
  import opened Storing

  // ----- block numbers used

  /** Block numbers handed out for the first n blocks of a file, pointer blocks included. */
  function Cost(n: nat): nat {
    if n == 0 then 0 else Cost(n - 1) + 1 + (if n - 1 < MAXFILEBLKS then Opened(n - 1) else 0)
  }

  lemma {:induction false} CostGrows(a: nat, b: nat)
    requires a <= b
    ensures Cost(a) + (b - a) <= Cost(b)
    decreases b
  {
    if a < b {
      CostGrows(a, b - 1);
    }
  }

  /** One indirect block from the 11th block on; from the 267th on the doubly indirect block, and an indirect block
      for every 256. */
  lemma {:induction false} CostIs(n: nat)
    requires n <= MAXFILEBLKS
    ensures Cost(n) == n + (if n > NDIRECT then 1 else 0)
                       + (if n <= NDIRECT + NINDIRECT then 0
                          else 1 + (n - NDIRECT - NINDIRECT + NINDIRECT - 1) / NINDIRECT)
  {
    if n > 0 {
      CostIs(n - 1);
      DataSlotIs(n - 1);
    }
  }

  /** The number of blocks that hold 'size' bytes. */
  function BlocksOf(size: nat): nat {
    (size + BLKSIZE - 1) / BLKSIZE
  }

  /** What has to be left on the disk: a file that ends on a block boundary also needs the block that finds its end. */
  function Room(size: nat): nat {
    Cost(BlocksOf(size)) + if size % BLKSIZE == 0 then 1 else 0
  }

  lemma LastBlock(size: nat, nblk: nat, n: nat)
    requires size == nblk * BLKSIZE + n && n < BLKSIZE
    ensures BlocksOf(size) == nblk + (if n == 0 then 0 else 1) && size % BLKSIZE == n
    ensures Room(size) == Cost(BlocksOf(size)) + if n == 0 then 1 else 0
  {
  }

  lemma OutOfRoom(size: nat, nblk: nat, start: nat, limit: nat)
    requires nblk * BLKSIZE <= size && limit <= BLKBITSIZE
    requires if size == nblk * BLKSIZE then start + Cost(nblk) >= limit
             else nblk >= MAXFILEBLKS || start + Cost(nblk) + 1 + Opened(nblk) > limit
    ensures start + Room(size) > limit
  {
    if size == nblk * BLKSIZE {
      LastBlock(size, nblk, 0);
    } else {
      assert BlocksOf(size) >= nblk + 1;
      CostGrows(nblk + 1, BlocksOf(size));
      CostGrows(0, nblk);
    }
  }

  // ----- the loop

  /** A block that starts with these bytes and is zero otherwise. */
  function Filled(chunk: seq<byte>): Block
    requires |chunk| <= BLKSIZE
  {
    Pack(Splice(seq(BLKSIZE, _ => 0), 0, chunk))
  }

  /** n blocks have been written to file i, which was empty in fs0: they hold the start of 'data', and nothing else
      has changed. */
  ghost predicate Copied(fs0: Fs, fs: Fs, i: nat, data: seq<byte>, n: nat) {
    CopiedAfter(1 + n, fs0, fs, i, data, n)
  }

  // The countdown keeps the definition out of proofs that only pass it on; CopiedIs opens it.
  ghost predicate CopiedAfter(k: nat, fs0: Fs, fs: Fs, i: nat, data: seq<byte>, n: nat)
    decreases k
  {
    if k == 0 then IsCopied(fs0, fs, i, data, n) else CopiedAfter(k - 1, fs0, fs, i, data, n)
  }

  ghost predicate IsCopied(fs0: Fs, fs: Fs, i: nat, data: seq<byte>, n: nat) {
    && fs0.HasTree(i) && fs0.N(i) == 0 && fs0.Trees() && fs.Trees()
    && fs.HasTree(i) && Resized(fs0, fs, i)
    && n <= MAXFILEBLKS && fs.inodes[i].size == n * BLKSIZE && fs.N(i) == n
    && forall k: nat :: k < n * BLKSIZE && k < |data| ==> fs.FileByte(i, k) == data[k]
  }

  lemma CopiedIs(fs0: Fs, fs: Fs, i: nat, data: seq<byte>, n: nat)
    ensures Copied(fs0, fs, i, data, n) <==> IsCopied(fs0, fs, i, data, n)
  {
    CopiedAfterIs(1 + n, fs0, fs, i, data, n);
  }

  lemma {:induction false} CopiedAfterIs(k: nat, fs0: Fs, fs: Fs, i: nat, data: seq<byte>, n: nat)
    ensures CopiedAfter(k, fs0, fs, i, data, n) <==> IsCopied(fs0, fs, i, data, n)
    decreases k
  {
    if k > 0 {
      CopiedAfterIs(k - 1, fs0, fs, i, data, n);
    }
  }

  lemma CopiedNone(fs: Fs, i: nat, data: seq<byte>)
    requires Orderly(fs) && fs.HasTree(i) && fs.inodes[i].size == 0
    ensures Copied(fs, fs, i, data, 0) && fs.N(i) == 0
  {
    OrderlyIs(fs);
    CopiedIs(fs, fs, i, data, 0);
    Size2NBlocksIsCeiling(0);
    ResizedRefl(fs, i);
  }

  lemma CopiedCount(fs0: Fs, fs: Fs, i: nat, data: seq<byte>, n: nat)
    requires Copied(fs0, fs, i, data, n)
    ensures fs.HasTree(i) && fs.N(i) == n <= MAXFILEBLKS && fs.inodes[i].size == n * BLKSIZE
    ensures fs.first == fs0.first && |fs.inodes| == |fs0.inodes|
    ensures forall b :: b in fs0.owner ==> b in fs.owner && fs.owner[b] == fs0.owner[b]
  {
    CopiedIs(fs0, fs, i, data, n);
    forall b | b in fs0.owner ensures b in fs.owner && fs.owner[b] == fs0.owner[b] {
      var o := fs0.owner[b];
      assert fs0.Owns(o.ino, o.slot) && fs.Owns(o.ino, o.slot);
    }
  }

  lemma ScribbledResized(fs: Fs, b: nat, data: Block, i: nat)
    requires fs.Trees() && b in fs.free && b < |fs.blocks| && fs.HasTree(i)
    ensures Resized(fs, Scribbled(fs, b, data), i)
  {
    var fs' := Scribbled(fs, b, data);
    forall j, s | fs.Owns(j, s) ensures fs'.AtI(j, s) == fs.AtI(j, s) {
      ScribbleMissesPlace(fs, b, data, j, s);
    }
    forall s | Has(fs.N(i), s) ensures fs.Owns(i, s) {
    }
  }

  /** The step of the loop: the chunk's block stored as the next block of the file. */
  lemma CopiedMore(fs0: Fs, fs: Fs, fs': Fs, i: nat, data: seq<byte>, n: nat, x: nat, chunk: seq<byte>)
    requires Copied(fs0, fs, i, data, n) && Orderly(fs) && x in fs.free && x < |fs.blocks| && |chunk| <= BLKSIZE
    requires Orderly(fs') && Placed(Scribbled(fs, x, Filled(chunk)), fs', i, x)
    requires n * BLKSIZE + |chunk| <= |data| && chunk == data[n * BLKSIZE..n * BLKSIZE + |chunk|]
    requires |chunk| == BLKSIZE || n * BLKSIZE + |chunk| == |data|
    ensures Copied(fs0, fs', i, data, n + 1)
  {
    CopiedStep(fs0, fs, fs', i, data, n, x, chunk);
    CopiedIs(fs0, fs, i, data, n);
    CopiedIs(fs0, fs', i, data, n + 1);
    forall k: nat | k < (n + 1) * BLKSIZE && k < |data| ensures fs'.FileByte(i, k) == data[k] {
      if k < n * BLKSIZE {
        CopiedOldByte(fs0, fs, fs', i, data, n, k);
      } else {
        CopiedNewByte(Scribbled(fs, x, Filled(chunk)), fs', i, x, chunk, k);
        assert chunk[k - n * BLKSIZE] == data[n * BLKSIZE..n * BLKSIZE + |chunk|][k - n * BLKSIZE];
      }
    }
  }

  /** The block that finds the end of the file holds nothing. */
  lemma CopiedScribbled(fs0: Fs, fs: Fs, i: nat, data: seq<byte>, n: nat, x: nat, blk: Block)
    requires Copied(fs0, fs, i, data, n) && x in fs.free && x < |fs.blocks|
    ensures Copied(fs0, Scribbled(fs, x, blk), i, data, n)
  {
    var fs' := Scribbled(fs, x, blk);
    CopiedIs(fs0, fs, i, data, n);
    CopiedIs(fs0, fs', i, data, n);
    ScribbledTrees(fs, x, blk);
    ScribbledResized(fs, x, blk, i);
    ResizedTrans(fs0, fs, fs', i);
    forall k: nat | k < n * BLKSIZE && k < |data| ensures fs'.FileByte(i, k) == fs.FileByte(i, k) {
      ByteOwned(fs, i, k);
    }
  }

  lemma CopiedStep(fs0: Fs, fs: Fs, fs': Fs, i: nat, data: seq<byte>, n: nat, x: nat, chunk: seq<byte>)
    requires Copied(fs0, fs, i, data, n) && Orderly(fs) && x in fs.free && x < |fs.blocks| && |chunk| <= BLKSIZE
    requires Orderly(fs') && Placed(Scribbled(fs, x, Filled(chunk)), fs', i, x)
    ensures fs'.Trees() && fs'.HasTree(i) && Resized(fs, fs', i) && Resized(fs0, fs', i)
    ensures n < MAXFILEBLKS && fs'.inodes[i].size == (n + 1) * BLKSIZE && fs'.N(i) == n + 1
  {
    CopiedIs(fs0, fs, i, data, n);
    OrderlyIs(fs);
    OrderlyIs(fs');
    var mid := Scribbled(fs, x, Filled(chunk));
    ScribbledTrees(fs, x, Filled(chunk));
    PlacedIs(mid, fs', i, x);
    GrownAfterScribbling(fs, x, Filled(chunk), fs', i);
    GrownIsResized(fs, fs', i);
    ResizedTrans(fs0, fs, fs', i);
  }

  lemma CopiedOldByte(fs0: Fs, fs: Fs, fs': Fs, i: nat, data: seq<byte>, n: nat, k: nat)
    requires IsCopied(fs0, fs, i, data, n) && fs'.Trees() && Resized(fs, fs', i) && k < n * BLKSIZE && k < |data|
    requires fs'.HasTree(i) && fs'.N(i) == n + 1 <= MAXFILEBLKS
    ensures fs'.FileByte(i, k) == data[k]
  {
    ByteOwned(fs, i, k);
    ByteOwned(fs', i, k);
  }

  lemma CopiedNewByte(mid: Fs, fs': Fs, i: nat, x: nat, chunk: seq<byte>, k: nat)
    requires i < |mid.inodes| == |fs'.inodes| && x < |mid.blocks| && Placed(mid, fs', i, x)
    requires |chunk| <= BLKSIZE && mid.blocks[x] == Filled(chunk) && mid.N(i) < MAXFILEBLKS
    requires mid.N(i) * BLKSIZE <= k < mid.N(i) * BLKSIZE + |chunk|
    ensures k < MAXFILEBLKS * BLKSIZE && fs'.FileByte(i, k) == chunk[k - mid.N(i) * BLKSIZE]
  {
    PlacedIs(mid, fs', i, x);
    assert k / BLKSIZE == mid.N(i);
    BytesPack(Splice(seq(BLKSIZE, _ => 0), 0, chunk));
  }

  // ----- the finished file

  /** Image round trip: the module reads exactly the bytes that were copied, and every other file is as before. */
  ghost predicate FileWritten(fs: Fs, fs': Fs, i: nat, data: seq<byte>) {
    && fs.Valid() && fs'.Valid() && Orderly(fs') && Resized(fs, fs', i)
    && fs'.HasTree(i) && fs'.Contents(i) == data
    && forall j: nat :: j != i && fs.HasTree(j) ==> fs'.HasTree(j) && fs'.Contents(j) == fs.Contents(j)
  }

  lemma CopyDone(fs0: Fs, fs: Fs, fs': Fs, i: nat, data: seq<byte>)
    requires fs0.Valid() && Orderly(fs) && Copied(fs0, fs, i, data, BlocksOf(|data|)) && i < |fs.inodes|
    requires |data| <= MAXFILEBLKS * BLKSIZE && Sized(fs, fs', i, |data|)
    ensures FileWritten(fs0, fs', i, data)
  {
    CopiedIs(fs0, fs, i, data, BlocksOf(|data|));
    SizeKeepsOrder(fs, fs', i, |data|);
    assert fs'.Trees() && Orderly(fs') && Resized(fs0, fs', i) by {
      SameCount(fs, fs', i, |data|);
      ResizedTrans(fs0, fs, fs', i);
    }
    OthersStayValid(fs0, fs', i);
    ResizedContents(fs0, fs', i);
    forall k: nat | k < |data| ensures fs'.Contents(i)[k] == data[k] {
      SizedByte(fs, fs', i, |data|, k);
    }
  }

  lemma SizedByte(fs: Fs, fs': Fs, i: nat, size: uint32, k: nat)
    requires Sized(fs, fs', i, size) && k < size <= MAXFILEBLKS * BLKSIZE
    ensures |fs'.inodes| == |fs.inodes| && fs'.inodes[i].size == size
    ensures fs'.Contents(i)[k] == fs.FileByte(i, k)
  {
    fs'.PrefixAt(i, size, k);
  }

  lemma SizeKeepsOrder(fs: Fs, fs': Fs, i: nat, size: uint32)
    requires Orderly(fs) && fs.HasTree(i) && Sized(fs, fs', i, size) && fs.N(i) == BlocksOf(size)
             && size <= TWO32 - BLKSIZE
    ensures Orderly(fs') && fs'.N(i) == fs.N(i)
  {
    OrderlyIs(fs);
    OrderlyIs(fs');
    Size2NBlocksIs(size);
    SameCount(fs, fs', i, size);
    forall j: nat | fs'.HasTree(j) ensures Blank(fs', j) {
      assert fs.HasTree(j);
    }
  }
}
