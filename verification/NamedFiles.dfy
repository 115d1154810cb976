// What allocdirentry and writefile do to an image: a directory entry is
// filled in, the directory growing if its last block is full, and a new file
// gets its inode and its bytes.
module NamedFiles {
  import opened Words
  import opened Layout
  import opened Image
  import opened Resize
  import opened BlockCalls
  import opened FileData
  import opened DirEntries
  import opened Namespace
  import opened DirOps
  import opened DirCalls
  import opened Storing
  import opened Copying

  const BLKENTRIES := 8

  /** Entry j of the last block of directory d. */
  lemma EntryOfBlock(fs: Fs, d: nat, n: nat, j: nat)
    requires EntryIn(fs, d, BLKENTRIES * n + j) && j < BLKENTRIES
    ensures n < fs.N(d) && n < MAXFILEBLKS && fs.AtI(d, DataSlot(n)) < |fs.blocks|
    ensures Slots(fs, d)[BLKENTRIES * n + j].ino ==
            Decode(Bytes(fs.blocks[fs.AtI(d, DataSlot(n))])[DIRENTRY_SIZE * j..DIRENTRY_SIZE * j + 4])
  {
    var k := BLKENTRIES * n + j;
    var pos := DIRENTRY_SIZE * k;
    SplitOffset(pos, n, DIRENTRY_SIZE * j);
    EntryOf(fs, d, k);
    assert n < fs.N(d) by {
      EntryPlace(fs, d, k, 0);
    }
  }

  /** Bytes stored 'delta' bytes into entry j of block n of directory d. */
  function EntryStored(fs: Fs, d: nat, n: nat, j: nat, delta: nat, data: seq<byte>): Fs
    requires d < |fs.inodes| && n < MAXFILEBLKS && fs.AtI(d, DataSlot(n)) < |fs.blocks|
    requires j < BLKENTRIES && delta + |data| <= DIRENTRY_SIZE
  {
    var b := fs.AtI(d, DataSlot(n));
    fs.(blocks := fs.blocks[b := Pack(Splice(Bytes(fs.blocks[b]), DIRENTRY_SIZE * j + delta, data))])
  }

  lemma EntryStoredWrote(fs: Fs, d: nat, n: nat, j: nat, delta: nat, data: seq<byte>)
    requires EntryIn(fs, d, BLKENTRIES * n + j) && j < BLKENTRIES && 0 < |data| && delta + |data| <= DIRENTRY_SIZE
    requires Orderly(fs)
    ensures n < MAXFILEBLKS && fs.first <= fs.AtI(d, DataSlot(n)) < |fs.blocks|
    ensures var fs' := EntryStored(fs, d, n, j, delta, data);
      Orderly(fs') && Wrote(fs, fs', d, DIRENTRY_SIZE * (BLKENTRIES * n + j) + delta, data)
  {
    var k := BLKENTRIES * n + j;
    var pos := DIRENTRY_SIZE * k + delta;
    SplitOffset(pos, n, DIRENTRY_SIZE * j + delta);
    assert pos < fs.N(d) * BLKSIZE && pos < MAXFILEBLKS * BLKSIZE && fs.AtI(d, ByteSlot(pos)) < |fs.blocks| by {
      EntryPlace(fs, d, k, delta);
    }
    assert EntryStored(fs, d, n, j, delta, data) == Poked(fs, d, pos, data);
    ValidPoked(fs, d, pos, data);
    DataBlockOrderly(fs, d, pos, data);
  }

  /** Copying into a data block disturbs no pointer. */
  lemma DataBlockOrderly(fs: Fs, d: nat, pos: nat, data: seq<byte>)
    requires Orderly(fs) && fs.Valid() && fs.HasTree(d) && pos < fs.N(d) * BLKSIZE && pos < MAXFILEBLKS * BLKSIZE
    requires pos % BLKSIZE + |data| <= BLKSIZE && fs.AtI(d, ByteSlot(pos)) < |fs.blocks|
    ensures Orderly(Poked(fs, d, pos, data)) && fs.first <= fs.AtI(d, ByteSlot(pos))
  {
    var fs' := Poked(fs, d, pos, data);
    OrderlyIs(fs);
    OrderlyIs(fs');
    ByteOwned(fs, d, pos);
    assert fs'.Trees() by {
      PokedWrote(fs, d, pos, data);
      WroteTrees(fs, fs', d, pos, data);
    }
    forall j: nat | fs'.HasTree(j) ensures Blank(fs', j) {
      assert fs.HasTree(j);
      if fs.N(j) > NDIRECT + NINDIRECT {
        NoSharing(fs, j, Indirect2, d, ByteSlot(pos));
      }
    }
  }

  // ----- a new block of entries

  /** A directory that was given a zeroed block has eight more entries, all empty. */
  lemma DirGrownByZeros(fs: Fs, fs1: Fs, d: nat, x: nat)
    requires fs.Valid() && IsDir(fs, d) && fs.inodes[d].size % BLKSIZE == 0 && Orderly(fs) && Orderly(fs1)
    requires x in fs.free && x < |fs.blocks| && Placed(Scribbled(fs, x, ZEROBLOCK), fs1, d, x)
    ensures DirGrew(fs, fs1, d)
    ensures forall k :: |Slots(fs, d)| <= k < |Slots(fs1, d)| ==> Slots(fs1, d)[k].ino == 0
  {
    GrownDirFiles(fs, fs1, d, x);
    SlotsAre(fs, d);
    SlotsAre(fs1, d);
    GrownEntries(fs.Contents(d), fs1.Contents(d));
    forall k | |Slots(fs, d)| <= k < |Slots(fs1, d)| ensures Slots(fs1, d)[k].ino == 0 {
      NewEntryIsEmpty(fs, fs1, d, x, k);
    }
  }

  lemma GrownDirFiles(fs: Fs, fs1: Fs, d: nat, x: nat)
    requires fs.Valid() && IsDir(fs, d) && fs.inodes[d].size % BLKSIZE == 0 && Orderly(fs) && Orderly(fs1)
    requires x in fs.free && x < |fs.blocks| && Placed(Scribbled(fs, x, ZEROBLOCK), fs1, d, x)
    ensures fs1.Valid() && IsDir(fs1, d) && fs1.inodes[d].size == fs.inodes[d].size + BLKSIZE
    ensures |fs1.inodes| == |fs.inodes| && Resized(fs, fs1, d)
    ensures forall j :: 0 <= j < |fs.inodes| && j != d ==> fs1.inodes[j] == fs.inodes[j]
    ensures fs1.inodes[d].nlink == fs.inodes[d].nlink && fs1.inodes[d].mode == fs.inodes[d].mode
    ensures OtherFilesKept(fs, fs1, d) && Agree(fs.Contents(d), fs1.Contents(d))
    ensures fs.N(d) < MAXFILEBLKS && fs1.N(d) == fs.N(d) + 1 && fs.N(d) * BLKSIZE == fs.inodes[d].size
  {
    GrownDirBlocks(fs, fs1, d, x);
    WholeBlocks(fs, d);
    assert fs1.Valid() by {
      OrderlyIs(fs1);
      OthersStayValid(fs, fs1, d);
    }
    ResizedContents(fs, fs1, d);
  }

  lemma WholeBlocks(fs: Fs, d: nat)
    requires fs.Valid() && IsDir(fs, d) && fs.inodes[d].size % BLKSIZE == 0
    ensures fs.N(d) * BLKSIZE == fs.inodes[d].size <= MAXFILEBLKS * BLKSIZE
  {
    Size2NBlocksIsCeiling(fs.inodes[d].size);
  }

  lemma GrownDirBlocks(fs: Fs, fs1: Fs, d: nat, x: nat)
    requires IsDir(fs, d) && Orderly(fs) && Orderly(fs1)
    requires x in fs.free && x < |fs.blocks| && Placed(Scribbled(fs, x, ZEROBLOCK), fs1, d, x)
    ensures Resized(fs, fs1, d) && fs.N(d) < MAXFILEBLKS && fs1.N(d) == fs.N(d) + 1
    ensures fs1.inodes[d].size == Add32(fs.inodes[d].size, BLKSIZE)
  {
    OrderlyIs(fs);
    OrderlyIs(fs1);
    PlacedIs(Scribbled(fs, x, ZEROBLOCK), fs1, d, x);
    GrownAfterScribbling(fs, x, ZEROBLOCK, fs1, d);
    GrownIsResized(fs, fs1, d);
  }

  lemma NewEntryIsEmpty(fs: Fs, fs1: Fs, d: nat, x: nat, k: nat)
    requires fs.Valid() && fs1.Valid() && IsDir(fs, d) && IsDir(fs1, d) && fs.inodes[d].size % BLKSIZE == 0
    requires fs1.inodes[d].size == fs.inodes[d].size + BLKSIZE
    requires x < |fs.blocks| && Placed(Scribbled(fs, x, ZEROBLOCK), fs1, d, x)
    requires fs.N(d) < MAXFILEBLKS && fs.N(d) * BLKSIZE == fs.inodes[d].size
    requires |Slots(fs, d)| <= k < |Slots(fs1, d)|
    ensures Slots(fs1, d)[k].ino == 0
  {
    EntryBytes(fs1, d, k);
    SlotsFill(fs, d);
    var bs, lo := fs1.Contents(d), DIRENTRY_SIZE * k;
    var head := bs[lo..lo + 4];
    forall o | 0 <= o < 4 ensures head[o] == 0 {
      NewByteIsZero(fs, fs1, d, x, lo + o);
    }
    assert head == [0, 0, 0, 0];
  }

  lemma NewByteIsZero(fs: Fs, fs1: Fs, d: nat, x: nat, pos: nat)
    requires fs.HasTree(d) && fs1.HasTree(d) && fs1.inodes[d].size <= MAXFILEBLKS * BLKSIZE && fs.N(d) < MAXFILEBLKS
    requires x < |fs.blocks| && Placed(Scribbled(fs, x, ZEROBLOCK), fs1, d, x)
    requires fs.N(d) * BLKSIZE <= pos < fs.N(d) * BLKSIZE + BLKSIZE && pos < fs1.inodes[d].size
    ensures fs1.Contents(d)[pos] == 0
  {
    PlacedIs(Scribbled(fs, x, ZEROBLOCK), fs1, d, x);
    SplitOffset(pos, fs.N(d), pos - fs.N(d) * BLKSIZE);
    fs1.PrefixAt(d, fs1.inodes[d].size, pos);
    ZerosAsBytes(fs1.blocks[x], pos % BLKSIZE);
  }

  /** Any of the new entries will do. */
  lemma NewEntriesFound(fs: Fs, fs1: Fs, d: nat, k: nat)
    requires DirGrew(fs, fs1, d)
    requires forall j :: |Slots(fs, d)| <= j < |Slots(fs1, d)| ==> Slots(fs1, d)[j].ino == 0
    requires |Slots(fs, d)| <= k < |Slots(fs1, d)|
    ensures BlankFound(fs, fs1, d, Slots(fs1, d)[|Slots(fs, d)|..], k)
  {
    assert Cleared(fs1, fs1, d, |Slots(fs, d)|, |Slots(fs1, d)|);
    BlankInNewBlock(fs, fs1, fs1, d);
  }

  // ----- naming a new file

  /** allocdirentry's name and then writefile's inode number, in an empty entry that was found. */
  lemma NameThenIno(fs: Fs, fs1: Fs, fs2: Fs, fs3: Fs, d: nat, blanks: seq<Entry>, k: nat, name: Name, ino: uint32)
    requires FsOk(fs) && BlankFound(fs, fs1, d, blanks, k)
    requires |name| <= MAXNAMELEN && Wrote(fs1, fs2, d, DIRENTRY_SIZE * k + 4, name + [0])
    requires Wrote(fs2, fs3, d, DIRENTRY_SIZE * k, Encode(ino))
    requires 0 < ino < |fs.inodes|
    ensures Entered(fs, fs3, d, name, ino)
  {
    var es := (Slots(fs, d) + blanks)[k := Entry(ino, name)];
    assert EntryPut(fs, fs3, d, es) by {
      NameStored(fs1, fs2, d, k, name);
      InoStored(fs2, fs3, d, k, ino);
      PutAfterBlank(fs, fs1, fs3, d, blanks, k, es);
    }
    PutMeans(fs, fs3, d, blanks, k, Entry(ino, name));
  }

  /** Neither of them looks for the name first: the names of the directory stay distinct exactly when it did not have
      the name yet. */
  lemma NameOnce(fs: Fs, fs1: Fs, fs2: Fs, fs3: Fs, d: nat, blanks: seq<Entry>, k: nat, name: Name, ino: uint32)
    requires BlankFound(fs, fs1, d, blanks, k) && Distinct(Slots(fs, d))
    requires |name| <= MAXNAMELEN && Wrote(fs1, fs2, d, DIRENTRY_SIZE * k + 4, name + [0])
    requires Wrote(fs2, fs3, d, DIRENTRY_SIZE * k, Encode(ino)) && ino != 0
    ensures fs3.Valid() && IsDir(fs3, d)
    ensures Distinct(Slots(fs3, d)) <==> name !in Dir(fs, d)
  {
    NameStored(fs1, fs2, d, k, name);
    InoStored(fs2, fs3, d, k, ino);
    var es := Slots(fs, d) + blanks;
    BlanksBindNothing(Slots(fs, d), blanks);
    InsertDistinct(es, k, Entry(ino, name));
    BindingKeys(Slots(fs, d), name);
    assert Slots(fs3, d) == es[k := Entry(ino, name)];
  }

  /** The new inode, so far all zero, owns no block. */
  lemma NothingDisowned(fs: Fs, i: nat)
    requires fs.Trees() && i < |fs.inodes| && fs.inodes[i].size == 0
    ensures Disowned(fs.owner, i) == fs.owner
  {
    Size2NBlocksIsCeiling(0);
    forall b | b in fs.owner ensures fs.owner[b].ino != i {
      assert fs.Owns(fs.owner[b].ino, fs.owner[b].slot);
    }
  }

  /** Filling the new file keeps the file system's invariant. */
  lemma FilledFileOk(fs: Fs, fs': Fs, i: nat, data: seq<byte>)
    requires FsOk(fs) && fs.HasTree(i) && !IsDir(fs, i) && FileWritten(fs, fs', i, data)
    ensures FsOk(fs')
  {
    FsOkIs(fs);
    FsOkIs(fs');
    assert forall j: nat :: IsDir(fs', j) <==> IsDir(fs, j);
    TableSame(fs, fs');
  }
}
