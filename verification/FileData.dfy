// Files as byte strings: what resizing and copying into blocks do to the
// contents of every file.
module FileData {
  import opened Words
  import opened Layout
  import opened Image
  import opened Resize
  import opened BlockCalls

  /** The place and the block of byte k of file i. */
  function ByteSlot(k: nat): Slot
    requires k < MAXFILEBLKS * BLKSIZE
  {
    DataSlot(k / BLKSIZE)
  }

  lemma ByteOwned(fs: Fs, i: nat, k: nat)
    requires fs.Trees() && fs.HasTree(i) && k < fs.N(i) * BLKSIZE
    ensures k < MAXFILEBLKS * BLKSIZE
    ensures fs.Owns(i, ByteSlot(k)) && fs.first <= fs.AtI(i, ByteSlot(k)) < |fs.blocks|
    ensures fs.owner[fs.AtI(i, ByteSlot(k))] == Owner(i, ByteSlot(k))
  {
    DataSlotHas(fs.N(i), k / BLKSIZE);
    assert fs.Owns(i, ByteSlot(k));
  }

  /** A valid file's bytes all lie in its blocks. */
  lemma SizeFits(fs: Fs, i: nat)
    requires fs.Valid() && fs.HasTree(i)
    ensures fs.inodes[i].size <= fs.N(i) * BLKSIZE
  {
    Size2NBlocksIsCeiling(fs.inodes[i].size);
  }

  /** ospfs_inode_blockno finds the block of every byte below the size, and answers 0 beyond it. */
  lemma BlocknoFinds(fs: Fs, i: nat, pos: uint32)
    requires fs.Valid() && fs.HasTree(i)
    ensures if pos < fs.inodes[i].size
            then pos < MAXFILEBLKS * BLKSIZE && pos < fs.N(i) * BLKSIZE
                 && InodeBlockno(fs.blocks, fs.inodes[i], pos) == fs.AtI(i, ByteSlot(pos)) >= fs.first
            else InodeBlockno(fs.blocks, fs.inodes[i], pos) == 0
  {
    fs.ValidIs();
    if pos < fs.inodes[i].size {
      SizeFits(fs, i);
      ByteOwned(fs, i, pos);
      BlocknoReadsSlot(fs.blocks, fs.inodes[i], pos);
    }
  }

  /** The block of every byte below the size is a block of the disk, and not the boot block. */
  lemma ByteInBlock(fs: Fs, i: nat, pos: uint32)
    requires fs.Valid() && fs.HasTree(i) && pos < fs.inodes[i].size
    ensures pos < MAXFILEBLKS * BLKSIZE && pos < fs.N(i) * BLKSIZE
    ensures 0 < InodeBlockno(fs.blocks, fs.inodes[i], pos) == fs.AtI(i, ByteSlot(pos)) < |fs.blocks|
  {
    fs.ValidIs();
    BlocknoFinds(fs, i, pos);
    ByteOwned(fs, i, pos);
  }

  /** Within one block, file bytes are consecutive bytes of that block. */
  lemma ChunkIsSlice(fs: Fs, i: nat, pos: nat, n: nat)
    requires fs.Valid() && fs.HasTree(i) && pos + n <= fs.inodes[i].size && 0 < n && pos % BLKSIZE + n <= BLKSIZE
    ensures pos < MAXFILEBLKS * BLKSIZE
    ensures Bytes(Fetch(fs.blocks, fs.AtI(i, ByteSlot(pos))))[pos % BLKSIZE..pos % BLKSIZE + n]
            == fs.Contents(i)[pos..pos + n]
  {
    var bs := Bytes(Fetch(fs.blocks, fs.AtI(i, ByteSlot(pos))));
    var chunk, slice := bs[pos % BLKSIZE..pos % BLKSIZE + n], fs.Contents(i)[pos..pos + n];
    forall k | 0 <= k < n ensures chunk[k] == slice[k] {
      fs.PrefixAt(i, fs.inodes[i].size, pos + k);
      assert (pos + k) / BLKSIZE == pos / BLKSIZE && (pos + k) % BLKSIZE == pos % BLKSIZE + k;
    }
  }

  // ----- copying bytes into the block of one place

  /** Bytes copied into the block of byte 'pos' of file i. */
  function Poked(fs: Fs, i: nat, pos: nat, data: seq<byte>): Fs
    requires fs.HasTree(i) && pos < MAXFILEBLKS * BLKSIZE && pos % BLKSIZE + |data| <= BLKSIZE
    requires fs.AtI(i, ByteSlot(pos)) < |fs.blocks|
  {
    var b := fs.AtI(i, ByteSlot(pos));
    fs.(blocks := fs.blocks[b := Pack(Splice(Bytes(fs.blocks[b]), pos % BLKSIZE, data))])
  }

  /** fs' differs from fs only in that 'data' stands at 'pos' in file i. */
  ghost predicate Wrote(fs: Fs, fs': Fs, i: nat, pos: nat, data: seq<byte>) {
    && fs' == fs.(blocks := fs'.blocks) && |fs'.blocks| == |fs.blocks|
    && (forall j, s :: fs.Owns(j, s) ==> fs'.AtI(j, s) == fs.AtI(j, s))
    && (forall j: nat, k: nat ::
          j < |fs.inodes| && fs.HasTree(j) && k < fs.N(j) * BLKSIZE && k < MAXFILEBLKS * BLKSIZE ==>
          fs'.FileByte(j, k) == if j == i && pos <= k < pos + |data| then data[k - pos] else fs.FileByte(j, k))
  }

  lemma WroteTrees(fs: Fs, fs': Fs, i: nat, pos: nat, data: seq<byte>)
    requires fs.Trees() && Wrote(fs, fs', i, pos, data)
    ensures fs'.Trees() && (fs.Valid() ==> fs'.Valid())
  {
    fs.ValidIs();
    fs'.ValidIs();
    forall j, s ensures fs'.Owns(j, s) <==> fs.Owns(j, s) {
    }
    assert forall j: nat :: fs'.HasTree(j) <==> fs.HasTree(j);
  }

  /** Data blocks are not pointer blocks: copying into one moves nothing. */
  lemma PokedKeepsPlaces(fs: Fs, i: nat, pos: nat, data: seq<byte>, j: nat, s: Slot)
    requires fs.Trees() && fs.HasTree(i) && pos < fs.N(i) * BLKSIZE && pos < MAXFILEBLKS * BLKSIZE
    requires pos % BLKSIZE + |data| <= BLKSIZE && fs.AtI(i, ByteSlot(pos)) < |fs.blocks|
    requires fs.Owns(j, s)
    ensures Poked(fs, i, pos, data).AtI(j, s) == fs.AtI(j, s)
  {
    ByteOwned(fs, i, pos);
    match s {
      case Direct(_) =>
      case Indirect =>
      case Indirect2 =>
      case Single(_) =>
        NoSharing(fs, j, Indirect, i, ByteSlot(pos));
      case Leaf(k) =>
        NoSharing(fs, j, Indirect2, i, ByteSlot(pos));
      case Double(k, _) =>
        NoSharing(fs, j, Indirect2, i, ByteSlot(pos));
        NoSharing(fs, j, Leaf(k), i, ByteSlot(pos));
    }
  }

  // A byte of the block that was written.
  lemma PokedHere(fs: Fs, i: nat, pos: nat, data: seq<byte>, k: nat)
    requires fs.Trees() && fs.HasTree(i) && pos < fs.N(i) * BLKSIZE && pos < MAXFILEBLKS * BLKSIZE
    requires pos % BLKSIZE + |data| <= BLKSIZE && fs.AtI(i, ByteSlot(pos)) < |fs.blocks|
    requires k < MAXFILEBLKS * BLKSIZE && k / BLKSIZE == pos / BLKSIZE
    requires Poked(fs, i, pos, data).AtI(i, ByteSlot(k)) == fs.AtI(i, ByteSlot(k))
    ensures Poked(fs, i, pos, data).FileByte(i, k) ==
            if pos <= k < pos + |data| then data[k - pos] else fs.FileByte(i, k)
  {
    var b := fs.AtI(i, ByteSlot(pos));
    BytesPack(Splice(Bytes(fs.blocks[b]), pos % BLKSIZE, data));
    assert k - pos == k % BLKSIZE - pos % BLKSIZE;
  }

  lemma PokedByte(fs: Fs, i: nat, pos: nat, data: seq<byte>, j: nat, k: nat)
    requires fs.Trees() && fs.HasTree(i) && pos < fs.N(i) * BLKSIZE && pos < MAXFILEBLKS * BLKSIZE
    requires pos % BLKSIZE + |data| <= BLKSIZE && fs.AtI(i, ByteSlot(pos)) < |fs.blocks|
    requires fs.HasTree(j) && k < fs.N(j) * BLKSIZE && k < MAXFILEBLKS * BLKSIZE
    ensures Poked(fs, i, pos, data).FileByte(j, k) ==
            if j == i && pos <= k < pos + |data| then data[k - pos] else fs.FileByte(j, k)
  {
    ByteOwned(fs, i, pos);
    ByteOwned(fs, j, k);
    PokedKeepsPlaces(fs, i, pos, data, j, ByteSlot(k));
    if j == i && k / BLKSIZE == pos / BLKSIZE {
      PokedHere(fs, i, pos, data, k);
    } else {
      NoSharing(fs, i, ByteSlot(pos), j, ByteSlot(k));
      if j == i {
        if ByteSlot(k) == ByteSlot(pos) {
          DataSlotInjective(k / BLKSIZE, pos / BLKSIZE);
        }
        assert !(pos <= k < pos + |data|);
      }
    }
  }

  lemma PokedWrote(fs: Fs, i: nat, pos: nat, data: seq<byte>)
    requires fs.Trees() && fs.HasTree(i) && pos < fs.N(i) * BLKSIZE
    requires pos < MAXFILEBLKS * BLKSIZE && pos % BLKSIZE + |data| <= BLKSIZE
    ensures fs.AtI(i, ByteSlot(pos)) < |fs.blocks|
    ensures Wrote(fs, Poked(fs, i, pos, data), i, pos, data)
  {
    ByteOwned(fs, i, pos);
    var fs' := Poked(fs, i, pos, data);
    forall j, s | fs.Owns(j, s) ensures fs'.AtI(j, s) == fs.AtI(j, s) {
      PokedKeepsPlaces(fs, i, pos, data, j, s);
    }
    forall j: nat, k: nat | j < |fs.inodes| && fs.HasTree(j) && k < fs.N(j) * BLKSIZE && k < MAXFILEBLKS * BLKSIZE
      ensures fs'.FileByte(j, k) == if j == i && pos <= k < pos + |data| then data[k - pos] else fs.FileByte(j, k)
    {
      PokedByte(fs, i, pos, data, j, k);
    }
  }

  lemma WroteNothing(fs: Fs, i: nat, pos: nat)
    ensures Wrote(fs, fs, i, pos, [])
  {
  }

  lemma WroteMore(fs: Fs, mid: Fs, fs': Fs, i: nat, pos: nat, data: seq<byte>, more: seq<byte>)
    requires Wrote(fs, mid, i, pos, data) && Wrote(mid, fs', i, pos + |data|, more)
    ensures Wrote(fs, fs', i, pos, data + more)
  {
    forall j, s | fs.Owns(j, s) ensures fs'.AtI(j, s) == fs.AtI(j, s) {
      assert mid.Owns(j, s);
    }
    forall j: nat, k: nat | j < |fs.inodes| && fs.HasTree(j) && k < fs.N(j) * BLKSIZE && k < MAXFILEBLKS * BLKSIZE
      ensures fs'.FileByte(j, k) ==
              if j == i && pos <= k < pos + |data + more| then (data + more)[k - pos] else fs.FileByte(j, k)
    {
      assert mid.HasTree(j) && mid.N(j) == fs.N(j);
    }
  }

  /** One round of the copying loop of ospfs_write: it finds a block, and copying into it extends what has been
      written. */
  lemma CopyRound(fs: Fs, mid: Fs, i: nat, pos: nat, buffer: seq<byte>, amount: nat, n: nat)
    requires fs.Valid() && fs.HasTree(i) && pos + |buffer| <= fs.inodes[i].size
    requires 0 < n && amount + n <= |buffer|
    requires Wrote(fs, mid, i, pos, buffer[..amount])
    requires (pos + amount) % BLKSIZE + n <= BLKSIZE
    ensures mid.HasTree(i) && pos + amount < MAXFILEBLKS * BLKSIZE
    ensures 0 < InodeBlockno(mid.blocks, mid.inodes[i], pos + amount)
              == mid.AtI(i, ByteSlot(pos + amount)) < |mid.blocks|
    ensures Wrote(fs, Poked(mid, i, pos + amount, buffer[amount..amount + n]), i, pos, buffer[..amount + n])
  {
    var p, more := pos + amount, buffer[amount..amount + n];
    assert mid.Valid() && mid.HasTree(i) by {
      fs.ValidIs();
      WroteTrees(fs, mid, i, pos, buffer[..amount]);
    }
    CopyOne(mid, i, p, more);
    WroteMore(fs, mid, Poked(mid, i, p, more), i, pos, buffer[..amount], more);
    assert buffer[..amount] + more == buffer[..amount + n];
  }

  lemma CopyOne(fs: Fs, i: nat, pos: nat, data: seq<byte>)
    requires fs.Valid() && fs.HasTree(i) && pos + |data| <= fs.inodes[i].size
    requires 0 < |data| && pos % BLKSIZE + |data| <= BLKSIZE
    ensures pos < MAXFILEBLKS * BLKSIZE
    ensures 0 < InodeBlockno(fs.blocks, fs.inodes[i], pos) == fs.AtI(i, ByteSlot(pos)) < |fs.blocks|
    ensures Wrote(fs, Poked(fs, i, pos, data), i, pos, data)
  {
    fs.ValidIs();
    BlocknoFinds(fs, i, pos);
    PokedWrote(fs, i, pos, data);
  }

  /** One round of the copying loop of ospfs_read. */
  lemma ReadRound(fs: Fs, i: nat, pos: nat, amount: nat, n: nat)
    requires fs.Valid() && fs.HasTree(i) && pos + amount + n <= fs.inodes[i].size
    requires 0 < n && (pos + amount) % BLKSIZE + n <= BLKSIZE
    ensures 0 < InodeBlockno(fs.blocks, fs.inodes[i], pos + amount) < |fs.blocks|
    ensures var chunk := Bytes(fs.blocks[InodeBlockno(fs.blocks, fs.inodes[i], pos + amount)]);
      fs.Contents(i)[pos..pos + amount] + chunk[(pos + amount) % BLKSIZE..(pos + amount) % BLKSIZE + n]
        == fs.Contents(i)[pos..pos + (amount + n)]
  {
    fs.ValidIs();
    var p, b := pos + amount, InodeBlockno(fs.blocks, fs.inodes[i], pos + amount);
    assert 0 < b < |fs.blocks| && p < MAXFILEBLKS * BLKSIZE && b == fs.AtI(i, ByteSlot(p)) by {
      BlocknoFinds(fs, i, p);
      ByteOwned(fs, i, p);
    }
    var text, chunk := fs.Contents(i), Bytes(fs.blocks[b])[p % BLKSIZE..p % BLKSIZE + n];
    assert chunk == text[p..p + n] by {
      ChunkIsSlice(fs, i, p, n);
    }
    SlicesJoin(text, pos, p, p + n);
  }

  lemma SlicesJoin<T>(s: seq<T>, a: nat, b: nat, c: nat)
    requires a <= b <= c <= |s|
    ensures s[a..b] + s[b..c] == s[a..c]
  {
  }

  // ----- contents

  /** Two byte strings agree where both are defined. */
  predicate Agree(a: seq<byte>, b: seq<byte>) {
    forall k :: 0 <= k < |a| && k < |b| ==> a[k] == b[k]
  }

  /** Resizing file i keeps the bytes that stay, and every other file. */
  lemma ResizedContents(fs: Fs, fs': Fs, i: nat)
    requires fs.Valid() && fs'.Valid() && fs.HasTree(i) && Resized(fs, fs', i)
    ensures fs'.HasTree(i) && Agree(fs.Contents(i), fs'.Contents(i))
    ensures forall j: nat :: j != i && fs.HasTree(j) ==> fs'.HasTree(j) && fs'.Contents(j) == fs.Contents(j)
  {
    fs.ValidIs();
    fs'.ValidIs();
    forall j: nat, k: nat | fs.HasTree(j) && k < fs.inodes[j].size && k < fs'.inodes[j].size
      ensures fs.FileByte(j, k) == fs'.FileByte(j, k)
    {
      SizeFits(fs, j);
      ByteOwned(fs, j, k);
      assert fs'.HasTree(j);
      SizeFits(fs', j);
      ByteOwned(fs', j, k);
      assert fs'.AtI(j, ByteSlot(k)) == fs.AtI(j, ByteSlot(k));
    }
    forall j: nat | fs.HasTree(j) ensures fs'.HasTree(j) && Agree(fs.Contents(j), fs'.Contents(j)) {
      forall k: nat | k < fs.inodes[j].size && k < fs'.inodes[j].size
        ensures fs.Contents(j)[k] == fs'.Contents(j)[k]
      {
        fs.PrefixAt(j, fs.inodes[j].size, k);
        fs'.PrefixAt(j, fs'.inodes[j].size, k);
      }
    }
  }

  /** Copying into file i changes exactly that slice of it, and no other file. */
  lemma WroteContents(fs: Fs, fs': Fs, i: nat, pos: nat, data: seq<byte>)
    requires fs.Valid() && fs.HasTree(i) && pos + |data| <= fs.inodes[i].size && Wrote(fs, fs', i, pos, data)
    ensures fs'.Valid() && fs'.inodes == fs.inodes
    ensures fs'.Contents(i) == Splice(fs.Contents(i), pos, data)
    ensures forall j: nat :: j != i && fs.HasTree(j) ==> fs'.Contents(j) == fs.Contents(j)
  {
    fs.ValidIs();
    WroteTrees(fs, fs', i, pos, data);
    forall j: nat | fs.HasTree(j)
      ensures fs'.Contents(j) == if j == i then Splice(fs.Contents(i), pos, data) else fs.Contents(j)
    {
      forall k: nat | k < fs.inodes[j].size
        ensures fs'.Contents(j)[k] == if j == i && pos <= k < pos + |data| then data[k - pos] else fs.Contents(j)[k]
      {
        SizeFits(fs, j);
        fs.PrefixAt(j, fs.inodes[j].size, k);
        fs'.PrefixAt(j, fs.inodes[j].size, k);
      }
    }
  }

  // ----- ospfs_write

  /** Where a write starts. */
  function WriteStart(fs: Fs, i: nat, append: bool, pos: nat): nat
    requires i < |fs.inodes|
  {
    if append then fs.inodes[i].size else pos
  }

  /** File i is, or can be made by add_block, at least 'end' bytes long. */
  predicate Growable(fs: Fs, i: nat, end: nat)
    requires i < |fs.inodes|
  {
    end <= fs.inodes[i].size || end <= fs.N(i) * BLKSIZE || end <= (NDIRECT + NINDIRECT) * BLKSIZE
  }

  lemma GrowableIsSound(fs: Fs, i: nat, end: nat)
    requires fs.Valid() && fs.HasTree(i) && fs.inodes[i].size < end && Growable(fs, i, end)
    ensures end <= TWO32 - BLKSIZE && fs.N(i) <= Size2NBlocks(end) && SoundPath(fs.N(i), Size2NBlocks(end))
  {
    Size2NBlocksIsCeiling(fs.inodes[i].size);
    Size2NBlocksIsCeiling(end);
  }

  /** Inodes stay what they are, but for the size of file i and where its blocks are. */
  ghost predicate InodesKept(fs: Fs, fs': Fs, i: nat) {
    && |fs'.inodes| == |fs.inodes|
    && (forall j :: 0 <= j < |fs.inodes| && j != i ==> fs'.inodes[j] == fs.inodes[j])
    && (i < |fs.inodes| ==>
          && fs'.inodes[i].ftype == fs.inodes[i].ftype && fs'.inodes[i].nlink == fs.inodes[i].nlink
          && fs'.inodes[i].mode == fs.inodes[i].mode)
  }

  /** What ospfs_write does to file i, starting at 'start', and to all other files. */
  ghost predicate WriteResult(fs: Fs, fs': Fs, i: nat, start: nat, buffer: seq<byte>, r: int)
    requires fs.Valid() && fs'.Valid() && fs.HasTree(i) && fs'.HasTree(i)
  {
    var was, now, end := fs.Contents(i), fs'.Contents(i), start + |buffer|;
    && InodesKept(fs, fs', i)
    // Other files and directories keep every byte.
    && (forall j: nat :: j != i && fs.HasTree(j) ==> fs'.HasTree(j) && fs'.Contents(j) == fs.Contents(j))
    // Success: the buffer stands at its place; a longer file is longer by exactly what was needed.
    && (r >= 0 ==>
          && r == |buffer|
          && (end > |was| ==> end <= TWO32 - BLKSIZE && ResizeResult(fs.N(i), Size2NBlocks(end), |fs.free|) == 0)
          && |now| == (if end > |was| then end else |was|)
          && now[start..end] == buffer
          && (forall k :: 0 <= k < |was| && !(start <= k < end) ==> now[k] == was[k]))
    // Failure: there were too few free blocks, and the bytes are still there; on -ENOSPC nothing else happened either.
    && (r < 0 ==>
          && |was| < end <= TWO32 - BLKSIZE
          && r == ResizeResult(fs.N(i), Size2NBlocks(end), |fs.free|) && Agree(was, now))
    && (r == -ENOSPC ==> now == was && Restored(fs, fs', i))
  }

  lemma WriteFails(fs: Fs, fs': Fs, i: nat, start: nat, buffer: seq<byte>, r: int)
    requires fs.Valid() && fs'.Valid() && fs.HasTree(i) && r < 0 && (Resized(fs, fs', i) == true)
    requires fs.inodes[i].size < start + |buffer| <= TWO32 - BLKSIZE
    requires r == ResizeResult(fs.N(i), Size2NBlocks(start + |buffer|), |fs.free|)
    requires r == -ENOSPC ==> Restored(fs, fs', i) == true
    ensures fs'.HasTree(i) && (WriteResult(fs, fs', i, start, buffer, r) == true)
  {
    ResizedContents(fs, fs', i);
  }

  lemma WriteWorks(fs: Fs, mid: Fs, fs': Fs, i: nat, start: nat, buffer: seq<byte>)
    requires fs.Valid() && mid.Valid() && fs.HasTree(i) && (Resized(fs, mid, i) == true)
    requires mid.inodes[i].size == if start + |buffer| > fs.inodes[i].size then start + |buffer| else fs.inodes[i].size
    requires start + |buffer| > fs.inodes[i].size ==>
               start + |buffer| <= TWO32 - BLKSIZE
               && ResizeResult(fs.N(i), Size2NBlocks(start + |buffer|), |fs.free|) == 0
    requires Wrote(mid, fs', i, start, buffer)
    ensures fs'.Valid() && fs'.HasTree(i) && (WriteResult(fs, fs', i, start, buffer, |buffer|) == true)
  {
    ResizedContents(fs, mid, i);
    WroteContents(mid, fs', i, start, buffer);
    var now, end := fs'.Contents(i), start + |buffer|;
    assert now[start..end] == buffer;
  }

  /** Plain overwriting or extending: for a start no later than the end of the file, the new contents are the old ones
      with the slice put in. */
  lemma WriteIsSplice(fs: Fs, fs': Fs, i: nat, start: nat, buffer: seq<byte>)
    requires fs.Valid() && fs'.Valid() && fs.HasTree(i) && fs'.HasTree(i)
    requires WriteResult(fs, fs', i, start, buffer, |buffer|) && start <= fs.inodes[i].size
    ensures fs'.Contents(i) == fs.Contents(i)[..start] + buffer
              + (if start + |buffer| <= fs.inodes[i].size then fs.Contents(i)[start + |buffer|..] else [])
  {
    var was, now, end := fs.Contents(i), fs'.Contents(i), start + |buffer|;
    assert forall k :: start <= k < end ==> now[k] == now[start..end][k - start];
  }
}
