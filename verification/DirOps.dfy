// What the steps of the directory operations do to an image: storing into
// an entry, adding a block of empty entries, and changing an inode.
module DirOps {
  import opened Words
  import opened Layout
  import opened Image
  import opened BlockCalls
  import opened FileData
  import opened DirEntries
  import opened Namespace

  /** Every file and directory but the given one keeps its contents. */
  ghost predicate OtherFilesKept(fs: Fs, fs': Fs, i: nat)
    requires fs.Valid() && fs'.Valid()
  {
    forall j: nat :: j != i && fs.HasTree(j) ==> fs'.HasTree(j) && fs'.Contents(j) == fs.Contents(j)
  }

  /** Entry k of directory d is whole, and lies within one block. */
  ghost predicate EntryIn(fs: Fs, d: nat, k: nat) {
    && fs.Valid() && IsDir(fs, d)
    && fs.inodes[d].size % BLKSIZE == 0
    && k < |Slots(fs, d)|
  }

  lemma EntryArithmetic(k: nat)
    ensures DIRENTRY_SIZE * k % BLKSIZE + DIRENTRY_SIZE <= BLKSIZE
  {
    SplitOffset(DIRENTRY_SIZE * k, k / 8, DIRENTRY_SIZE * (k % 8));
  }

  /** A directory of whole blocks consists of entries up to its last byte. */
  lemma SlotsFill(fs: Fs, d: nat)
    requires fs.Valid() && IsDir(fs, d) && fs.inodes[d].size % BLKSIZE == 0
    ensures DIRENTRY_SIZE * |Slots(fs, d)| == fs.inodes[d].size
  {
  }

  lemma EntryBytes(fs: Fs, d: nat, k: nat)
    requires EntryIn(fs, d, k)
    ensures DIRENTRY_SIZE * (k + 1) <= fs.inodes[d].size <= MAXFILEBLKS * BLKSIZE
    ensures DIRENTRY_SIZE * k % BLKSIZE + DIRENTRY_SIZE <= BLKSIZE
    ensures Slots(fs, d)[k] == EntryAt(fs.Contents(d), k)
  {
    EntryArithmetic(k);
    var bs := fs.Contents(d);
    SlotsAre(fs, d);
    AllEntriesAre(bs);
    EntriesAt(bs, |Slots(fs, d)|, k);
  }

  /** Where the bytes of an entry are: ospfs_inode_data for an offset within the directory. */
  lemma EntryPlace(fs: Fs, d: nat, k: nat, delta: nat)
    requires EntryIn(fs, d, k) && delta < DIRENTRY_SIZE
    ensures var pos := DIRENTRY_SIZE * k + delta;
      && pos < fs.inodes[d].size <= MAXFILEBLKS * BLKSIZE && pos < fs.N(d) * BLKSIZE
      && pos % BLKSIZE == DIRENTRY_SIZE * k % BLKSIZE + delta
      && DIRENTRY_SIZE * k % BLKSIZE + DIRENTRY_SIZE <= BLKSIZE
      && 0 < InodeBlockno(fs.blocks, fs.inodes[d], pos) == fs.AtI(d, ByteSlot(pos)) < |fs.blocks|
  {
    EntryBytes(fs, d, k);
    EntryOffset(k, delta);
    ByteInBlock(fs, d, DIRENTRY_SIZE * k + delta);
  }

  lemma EntryOffset(k: nat, delta: nat)
    requires delta < DIRENTRY_SIZE
    ensures (DIRENTRY_SIZE * k + delta) % BLKSIZE == DIRENTRY_SIZE * k % BLKSIZE + delta
  {
    var q, r := k / 8, k % 8;
    SplitOffset(DIRENTRY_SIZE * k, q, DIRENTRY_SIZE * r);
    SplitOffset(DIRENTRY_SIZE * k + delta, q, DIRENTRY_SIZE * r + delta);
  }

  /** Storing into an entry through its block. */
  lemma EntryWritten(fs: Fs, d: nat, k: nat, delta: nat, data: seq<byte>)
    requires EntryIn(fs, d, k) && 0 < |data| && delta + |data| <= DIRENTRY_SIZE
    ensures var pos := DIRENTRY_SIZE * k + delta;
      && pos < MAXFILEBLKS * BLKSIZE && pos % BLKSIZE + |data| <= BLKSIZE
      && 0 < InodeBlockno(fs.blocks, fs.inodes[d], pos) == fs.AtI(d, ByteSlot(pos)) < |fs.blocks|
      && Wrote(fs, Poked(fs, d, pos, data), d, pos, data)
  {
    EntryPlace(fs, d, k, delta);
    ValidPoked(fs, d, DIRENTRY_SIZE * k + delta, data);
  }

  lemma ValidPoked(fs: Fs, i: nat, pos: nat, data: seq<byte>)
    requires fs.Valid() && fs.HasTree(i) && pos < fs.N(i) * BLKSIZE && pos < MAXFILEBLKS * BLKSIZE && 0 < |data|
    requires pos % BLKSIZE + |data| <= BLKSIZE && fs.AtI(i, ByteSlot(pos)) < |fs.blocks|
    ensures Wrote(fs, Poked(fs, i, pos, data), i, pos, data)
  {
    fs.ValidIs();
    PokedWrote(fs, i, pos, data);
  }

  lemma ValidIsInRange(fs: Fs, i: nat)
    requires fs.Valid() && fs.HasTree(i)
    ensures InRange(fs, i)
  {
    fs.ValidIs();
    TreesAreInRange(fs, i);
  }

  lemma ByteBlock(fs: Fs, i: nat, pos: nat)
    requires fs.Valid() && fs.HasTree(i) && pos < fs.inodes[i].size
    ensures pos < MAXFILEBLKS * BLKSIZE && 0 < fs.AtI(i, ByteSlot(pos)) < |fs.blocks|
  {
    ByteInBlock(fs, i, pos);
  }

  // The bytes of an entry are bytes of its block.
  lemma EntryChunk(fs: Fs, d: nat, k: nat)
    requires EntryIn(fs, d, k)
    ensures var pos := DIRENTRY_SIZE * k;
      && pos + DIRENTRY_SIZE <= |fs.Contents(d)| <= MAXFILEBLKS * BLKSIZE && fs.AtI(d, ByteSlot(pos)) < |fs.blocks|
      && pos % BLKSIZE + DIRENTRY_SIZE <= BLKSIZE
      && Bytes(fs.blocks[fs.AtI(d, ByteSlot(pos))])[pos % BLKSIZE..pos % BLKSIZE + DIRENTRY_SIZE] ==
         fs.Contents(d)[pos..pos + DIRENTRY_SIZE]
  {
    EntryBytes(fs, d, k);
    ByteBlock(fs, d, DIRENTRY_SIZE * k);
    ChunkIsSlice(fs, d, DIRENTRY_SIZE * k, DIRENTRY_SIZE);
  }

  lemma EntryOf(fs: Fs, d: nat, k: nat)
    requires EntryIn(fs, d, k)
    ensures var pos := DIRENTRY_SIZE * k;
      && pos < MAXFILEBLKS * BLKSIZE && fs.AtI(d, ByteSlot(pos)) < |fs.blocks|
      && pos % BLKSIZE + DIRENTRY_SIZE <= BLKSIZE
      && var bs := Bytes(fs.blocks[fs.AtI(d, ByteSlot(pos))]);
         Slots(fs, d)[k] == Entry(Decode(bs[pos % BLKSIZE..pos % BLKSIZE + 4]),
                                  CString(bs[pos % BLKSIZE + 4..pos % BLKSIZE + DIRENTRY_SIZE]))
  {
    var pos := DIRENTRY_SIZE * k;
    EntryChunk(fs, d, k);
    EntryBytes(fs, d, k);
    EntrySlices(Bytes(fs.blocks[fs.AtI(d, ByteSlot(pos))]), pos % BLKSIZE, fs.Contents(d), pos);
  }

  /** Reading an entry through its block. */
  lemma EntryRead(fs: Fs, d: nat, k: nat)
    requires EntryIn(fs, d, k)
    ensures var pos := DIRENTRY_SIZE * k;
      && pos < TWO32 && InodeBlockno(fs.blocks, fs.inodes[d], pos) < |fs.blocks|
      && pos % BLKSIZE + DIRENTRY_SIZE <= BLKSIZE
      && var bs := Bytes(fs.blocks[InodeBlockno(fs.blocks, fs.inodes[d], pos)]);
         Slots(fs, d)[k] == Entry(Decode(bs[pos % BLKSIZE..pos % BLKSIZE + 4]),
                                  CString(bs[pos % BLKSIZE + 4..pos % BLKSIZE + DIRENTRY_SIZE]))
  {
    EntryPlace(fs, d, k, 0);
    EntryOf(fs, d, k);
  }

  lemma EntrySlices(bs: seq<byte>, o: nat, text: seq<byte>, pos: nat)
    requires o + DIRENTRY_SIZE <= |bs| && pos + DIRENTRY_SIZE <= |text|
    requires bs[o..o + DIRENTRY_SIZE] == text[pos..pos + DIRENTRY_SIZE]
    ensures bs[o..o + 4] == text[pos..pos + 4]
    ensures bs[o + 4..o + DIRENTRY_SIZE] == text[pos + 4..pos + DIRENTRY_SIZE]
  {
    assert bs[o..o + 4] == bs[o..o + DIRENTRY_SIZE][..4] && text[pos..pos + 4] == text[pos..pos + DIRENTRY_SIZE][..4];
    assert bs[o + 4..o + DIRENTRY_SIZE] == bs[o..o + DIRENTRY_SIZE][4..];
    assert text[pos + 4..pos + DIRENTRY_SIZE] == text[pos..pos + DIRENTRY_SIZE][4..];
  }

  /** od->od_ino = ino */
  lemma InoStored(fs: Fs, fs': Fs, d: nat, k: nat, ino: uint32)
    requires EntryIn(fs, d, k) && Wrote(fs, fs', d, DIRENTRY_SIZE * k, Encode(ino))
    ensures fs'.Valid() && fs'.inodes == fs.inodes && EntryIn(fs', d, k) && OtherFilesKept(fs, fs', d)
    ensures Slots(fs', d) == Slots(fs, d)[k := Entry(ino, Slots(fs, d)[k].name)]
  {
    EntryBytes(fs, d, k);
    WroteContents(fs, fs', d, DIRENTRY_SIZE * k, Encode(ino));
    SlotsAre(fs, d);
    SlotsAre(fs', d);
    AllEntriesAre(fs.Contents(d));
    AllEntriesAre(fs'.Contents(d));
    SetInoEntries(fs.Contents(d), |Slots(fs, d)|, k, ino);
  }

  /** memcpy(od->od_name, name, len); od->od_name[len] = 0 */
  lemma NameStored(fs: Fs, fs': Fs, d: nat, k: nat, name: Name)
    requires EntryIn(fs, d, k) && |name| <= MAXNAMELEN && Wrote(fs, fs', d, DIRENTRY_SIZE * k + 4, name + [0])
    ensures fs'.Valid() && fs'.inodes == fs.inodes && EntryIn(fs', d, k) && OtherFilesKept(fs, fs', d)
    ensures Slots(fs', d) == Slots(fs, d)[k := Entry(Slots(fs, d)[k].ino, name)]
  {
    EntryBytes(fs, d, k);
    WroteContents(fs, fs', d, DIRENTRY_SIZE * k + 4, name + [0]);
    SlotsAre(fs, d);
    SlotsAre(fs', d);
    AllEntriesAre(fs.Contents(d));
    AllEntriesAre(fs'.Contents(d));
    SetNameEntries(fs.Contents(d), |Slots(fs, d)|, k, name);
  }

  // ----- create_blank_direntry

  /** Directory d has an empty entry k now, possibly in a new block of empty entries at its end. */
  ghost predicate BlankFound(fs: Fs, fs': Fs, d: nat, blanks: seq<Entry>, k: nat) {
    && fs.Valid() && IsDir(fs, d)
    && EntryIn(fs', d, k)
    && |fs'.inodes| == |fs.inodes|
    && (forall j :: 0 <= j < |fs.inodes| && j != d ==> fs'.inodes[j] == fs.inodes[j])
    && fs'.inodes[d].nlink == fs.inodes[d].nlink && fs'.inodes[d].mode == fs.inodes[d].mode
    && OtherFilesKept(fs, fs', d)
    && Slots(fs', d) == Slots(fs, d) + blanks
    && (forall b :: b in blanks ==> b.ino == 0)
    && |blanks| % 8 == 0
    && k < |Slots(fs, d)| + |blanks| && (Slots(fs, d) + blanks)[k].ino == 0
  }

  lemma BlankInPlace(fs: Fs, d: nat, k: nat)
    requires EntryIn(fs, d, k) && k < |Slots(fs, d)| && Slots(fs, d)[k].ino == 0
    ensures BlankFound(fs, fs, d, [], k)
  {
    EntryBytes(fs, d, k);
    assert Slots(fs, d) + [] == Slots(fs, d);
  }

  /** The entries from c0 to c of a directory that was just given a block are empty. */
  ghost predicate Cleared(fs: Fs, fs': Fs, d: nat, c0: nat, c: nat) {
    && fs.Valid() && IsDir(fs, d) && fs'.Valid() && fs'.inodes == fs.inodes && IsDir(fs', d)
    && OtherFilesKept(fs, fs', d)
    && c0 <= c <= |Slots(fs, d)|
    && (forall j :: 0 <= j < |Slots(fs, d)| && (j < c0 || j >= c) ==> Slots(fs', d)[j] == Slots(fs, d)[j])
    && (forall j :: c0 <= j < c ==> Slots(fs', d)[j].ino == 0)
  }

  lemma ClearedMore(fs: Fs, mid: Fs, fs': Fs, d: nat, c0: nat, c: nat)
    requires Cleared(fs, mid, d, c0, c) && EntryIn(mid, d, c) && Wrote(mid, fs', d, DIRENTRY_SIZE * c, Encode(0))
    ensures Cleared(fs, fs', d, c0, c + 1)
  {
    InoStored(mid, fs', d, c, 0);
  }

  /** Directory d is one block longer. */
  ghost predicate DirGrew(fs: Fs, fs1: Fs, d: nat) {
    && fs.Valid() && IsDir(fs, d) && fs1.Valid() && IsDir(fs1, d)
    && fs.inodes[d].size % BLKSIZE == 0 && fs1.inodes[d].size == fs.inodes[d].size + BLKSIZE
    && |fs1.inodes| == |fs.inodes|
    && (forall j :: 0 <= j < |fs.inodes| && j != d ==> fs1.inodes[j] == fs.inodes[j])
    && fs1.inodes[d].nlink == fs.inodes[d].nlink && fs1.inodes[d].mode == fs.inodes[d].mode
    && OtherFilesKept(fs, fs1, d)
    && |Slots(fs1, d)| == |Slots(fs, d)| + 8 && Slots(fs1, d)[..|Slots(fs, d)|] == Slots(fs, d)
  }

  /** A directory below 266 blocks that add_block made one block longer. */
  lemma DirGrown(fs: Fs, fs1: Fs, d: nat)
    requires fs.Valid() && IsDir(fs, d) && fs.inodes[d].size % BLKSIZE == 0
    requires fs.N(d) < SINGLYINDIRECT && AddOutcome(fs, fs1, d, 0)
    ensures DirGrew(fs, fs1, d)
  {
    DirGrownFiles(fs, fs1, d);
    SlotsAre(fs, d);
    SlotsAre(fs1, d);
    GrownEntries(fs.Contents(d), fs1.Contents(d));
  }

  lemma DirGrownFiles(fs: Fs, fs1: Fs, d: nat)
    requires fs.Valid() && IsDir(fs, d) && fs.N(d) < SINGLYINDIRECT && AddOutcome(fs, fs1, d, 0)
    ensures fs1.Valid() && IsDir(fs1, d) && fs1.inodes[d].size == fs.inodes[d].size + BLKSIZE
    ensures |fs1.inodes| == |fs.inodes|
    ensures forall j :: 0 <= j < |fs.inodes| && j != d ==> fs1.inodes[j] == fs.inodes[j]
    ensures fs1.inodes[d].nlink == fs.inodes[d].nlink && fs1.inodes[d].mode == fs.inodes[d].mode
    ensures OtherFilesKept(fs, fs1, d) && Agree(fs.Contents(d), fs1.Contents(d))
  {
    fs.ValidIs();
    AddStep(fs, fs1, d);
    assert fs1.inodes[d].size == fs.inodes[d].size + BLKSIZE <= TWO32 - BLKSIZE by {
      Size2NBlocksIsCeiling(fs.inodes[d].size);
    }
    OthersStayValid(fs, fs1, d);
    ResizedContents(fs, fs1, d);
  }

  lemma GrownEntries(bs: seq<byte>, bs': seq<byte>)
    requires |bs'| == |bs| + BLKSIZE && Agree(bs, bs')
    ensures |AllEntries(bs')| == |AllEntries(bs)| + 8
    ensures AllEntries(bs')[..|AllEntries(bs)|] == AllEntries(bs)
  {
    var c, c' := |AllEntries(bs)|, |AllEntries(bs')|;
    AllEntriesAre(bs);
    AllEntriesAre(bs');
    EntriesOfPrefix(bs, bs', c);
    FirstEntries(bs', c, c');
  }

  lemma BlankInNewBlock(fs: Fs, fs1: Fs, fs': Fs, d: nat)
    requires DirGrew(fs, fs1, d) && Cleared(fs1, fs', d, |Slots(fs, d)|, |Slots(fs1, d)|)
    ensures |Slots(fs', d)| == |Slots(fs, d)| + 8
    ensures BlankFound(fs, fs', d, Slots(fs', d)[|Slots(fs, d)|..], |Slots(fs', d)| - 1)
  {
    var es, es1, es' := Slots(fs, d), Slots(fs1, d), Slots(fs', d);
    TailIsBlank(es, es1, es');
    assert es'[|es'| - 1].ino == 0;
    KeptTwice(fs, fs1, fs', d);
  }

  lemma KeptTwice(fs: Fs, mid: Fs, fs': Fs, i: nat)
    requires fs.Valid() && mid.Valid() && fs'.Valid() && OtherFilesKept(fs, mid, i) && OtherFilesKept(mid, fs', i)
    ensures OtherFilesKept(fs, fs', i)
  {
    forall j: nat | j != i && fs.HasTree(j) ensures fs'.HasTree(j) && fs'.Contents(j) == fs.Contents(j) {
      assert mid.HasTree(j);
    }
  }

  lemma TailIsBlank(es: seq<Entry>, es1: seq<Entry>, es': seq<Entry>)
    requires |es'| == |es1| >= |es| && es1[..|es|] == es
    requires forall j :: 0 <= j < |es| ==> es'[j] == es1[j]
    requires forall j :: |es| <= j < |es1| ==> es'[j].ino == 0
    ensures es' == es + es'[|es|..]
    ensures forall b :: b in es'[|es|..] ==> b.ino == 0
  {
    forall j | 0 <= j < |es| ensures es'[j] == es[j] {
      assert es1[..|es|][j] == es1[j];
    }
  }

  // ----- changes to one inode

  /** Inode i changed in its link count or mode only. */
  lemma MetaChanged(fs: Fs, fs': Fs, i: nat)
    requires fs.Valid() && i < |fs.inodes| == |fs'.inodes|
    requires fs' == fs.(inodes := fs.inodes[i := fs'.inodes[i]])
    requires fs'.inodes[i] == fs.inodes[i].(nlink := fs'.inodes[i].nlink, mode := fs'.inodes[i].mode)
    ensures fs'.Valid() && TableOf(fs') == TableOf(fs)
    ensures forall j: nat :: fs.HasTree(j) ==> fs'.HasTree(j) && fs'.Contents(j) == fs.Contents(j)
  {
    fs.ValidIs();
    fs'.ValidIs();
    assert forall j: nat :: fs'.HasTree(j) <==> fs.HasTree(j);
    forall j, s ensures fs'.Owns(j, s) <==> fs.Owns(j, s) {
    }
    forall j, s | fs.Owns(j, s) ensures fs'.AtI(j, s) == fs.AtI(j, s) {
    }
    SameBytesSameContents(fs, fs', |fs.inodes|);
    TableSame(fs, fs');
  }

  /** The ghost record of who owns which block, once inode i has given up its tree. */
  ghost function Disowned(owner: map<nat, Owner>, i: nat): map<nat, Owner> {
    map b | b in owner && owner[b].ino != i :: owner[b]
  }

  /** Inode i, not a directory, was set up afresh: an empty file or a symbolic link. */
  lemma InodeReset(fs: Fs, fs': Fs, i: nat)
    requires fs.Valid() && i < |fs.inodes| == |fs'.inodes| && !IsDir(fs, i)
    requires fs' == fs.(inodes := fs.inodes[i := fs'.inodes[i]], owner := Disowned(fs.owner, i))
    requires fs'.inodes[i].ftype == FTYPE_SYMLINK || (fs'.inodes[i].ftype == FTYPE_REG && fs'.inodes[i].size == 0)
    ensures fs'.Valid() && TableOf(fs') == TableOf(fs) && OtherFilesKept(fs, fs', i)
    ensures fs'.HasTree(i) ==> fs'.Contents(i) == []
  {
    fs.ValidIs();
    fs'.ValidIs();
    Size2NBlocksIsCeiling(0);
    assert forall j: nat :: j != i ==> (fs'.HasTree(j) <==> fs.HasTree(j));
    forall j, s ensures fs'.Owns(j, s) <==> j != i && fs.Owns(j, s) {
    }
    forall j, s | j != i && fs.Owns(j, s) ensures fs'.AtI(j, s) == fs.AtI(j, s) {
    }
    SameBytesSameContents(fs, fs', i);
    TableSame(fs, fs');
  }

  /** Files whose inode and blocks are the same have the same contents. */
  lemma SameBytesSameContents(fs: Fs, fs': Fs, i: nat)
    requires fs.Valid() && fs'.Valid() && fs'.blocks == fs.blocks && |fs'.inodes| == |fs.inodes|
    requires forall j: nat :: j < |fs.inodes| && j != i ==>
               fs'.inodes[j].(nlink := 0, mode := 0) == fs.inodes[j].(nlink := 0, mode := 0)
    ensures OtherFilesKept(fs, fs', i)
  {
    forall j: nat | j != i && fs.HasTree(j) ensures fs'.HasTree(j) && fs'.Contents(j) == fs.Contents(j) {
      forall k: nat | k < fs.inodes[j].size ensures fs'.Contents(j)[k] == fs.Contents(j)[k] {
        fs.PrefixAt(j, fs.inodes[j].size, k);
        fs'.PrefixAt(j, fs.inodes[j].size, k);
        assert fs'.AtI(j, ByteSlot(k)) == fs.AtI(j, ByteSlot(k));
      }
    }
  }
}
