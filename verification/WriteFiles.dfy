// writefile and the main program of the formatter: from host files to a
// finished image.
module WriteFiles {
  import opened Words
  import opened Layout
  import opened Image
  import opened FileData
  import opened DirEntries
  import opened Namespace
  import opened DirOps
  import opened DirCalls
  import opened Storing
  import opened Copying
  import opened NamedFiles
  import opened InodeTable
  import opened BlockCache
  import opened Formatter
  import opened FormatFiles

  /** Inodes are handed out in order: those before 'next' are in use, those from there on untouched. */
  predicate Allotted(fs: Fs, next: nat) {
    && 2 <= next <= |fs.inodes|
    && (forall j :: 2 <= j < next ==> fs.inodes[j].nlink != 0)
    && (forall j :: next <= j < |fs.inodes| ==> fs.inodes[j] == ZEROINODE)
  }

  /** Inode 'ino', so far unused, is a regular file with these bytes and this name in d; nothing else changed. */
  ghost predicate FileMade(fs: Fs, fs': Fs, d: nat, name: Name, ino: uint32, mode: uint32, data: seq<byte>)
    requires fs.Valid() && fs'.Valid()
  {
    && ino != d && RestKept(fs, fs', d, ino) && NameBound(fs, fs', d, name, ino)
    && fs'.HasTree(ino) && fs'.Contents(ino) == data
    && fs'.inodes[ino].ftype == FTYPE_REG && fs'.inodes[ino].nlink == 1 && fs'.inodes[ino].mode == mode
    && fs'.inodes[d].nlink == fs.inodes[d].nlink
  }

  lemma FileDone(fs: Fs, mid: Fs, fs': Fs, d: nat, name: Name, ino: uint32, mode: uint32, data: seq<byte>)
    requires FsOk(fs) && FsOk(mid) && (Created(fs, mid, d, name, ino, EMPTYFILE.(mode := mode)) == true)
    requires FileWritten(mid, fs', ino, data) && mid.inodes[d].nlink == fs.inodes[d].nlink
    ensures FsOk(fs') && FileMade(fs, fs', d, name, ino, mode, data)
  {
    FilledFileOk(mid, fs', ino, data);
    assert TableOf(fs') == TableOf(mid) by {
      assert forall j: nat :: IsDir(fs', j) <==> IsDir(mid, j);
      TableSame(mid, fs');
    }
    KeptThrough(fs, mid, fs', d, ino);
    BoundThrough(fs, mid, fs', d, name, ino);
  }

  lemma StillAllotted(fs: Fs, fs': Fs, d: nat, name: Name, ino: uint32, mode: uint32, data: seq<byte>)
    requires FsOk(fs) && FsOk(fs') && Allotted(fs, ino) && ino < |fs.inodes|
    requires FileMade(fs, fs', d, name, ino, mode, data)
    ensures Allotted(fs', ino + 1)
  {
    assert fs.inodes[d].ftype == FTYPE_DIR && d < ino;
    assert IsDir(fs', d);
  }

  /** Directory d has the given entries in use, in front, and only as many blocks as they need. */
  ghost predicate Packed(fs: Fs, d: nat, es: seq<DirEntries.Entry>)
    requires fs.Valid() && IsDir(fs, d)
  {
    var all := Slots(fs, d);
    && |es| <= |all| < |es| + BLKENTRIES && |all| % BLKENTRIES == 0
    && all[..|es|] == es
    && (forall k :: 0 <= k < |es| ==> es[k].ino != 0)
    && (forall k :: |es| <= k < |all| ==> all[k].ino == 0)
  }

  /** In a packed directory allocdirentry takes the next entry. */
  lemma PackedNext(fs: Fs, d: nat, es: seq<DirEntries.Entry>)
    requires fs.Valid() && IsDir(fs, d) && fs.inodes[d].size % BLKSIZE == 0 && Packed(fs, d, es)
    ensures LastBlockFull(fs, d) <==> |es| % BLKENTRIES == 0
    ensures fs.N(d) == (|es| + BLKENTRIES - 1) / BLKENTRIES
  {
    EntriesOfBlocks(fs, d);
    var all := Slots(fs, d);
    if |es| < |all| {
      assert all[|es|].ino == 0;
    }
    assert forall k :: 0 <= k < |es| ==> all[k] == es[k];
  }

  lemma PackedMore(fs: Fs, fs1: Fs, fs2: Fs, fs3: Fs, d: nat, blanks: seq<DirEntries.Entry>, k: nat, name: Name,
                   ino: uint32, es: seq<DirEntries.Entry>)
    requires Chosen(fs, fs1, d, blanks, k) && fs.inodes[d].size % BLKSIZE == 0 && Packed(fs, d, es)
    requires |name| <= MAXNAMELEN && Wrote(fs1, fs2, d, DIRENTRY_SIZE * k + 4, name + [0])
    requires Wrote(fs2, fs3, d, DIRENTRY_SIZE * k, Encode(ino)) && ino != 0
    ensures fs3.Valid() && IsDir(fs3, d) && Packed(fs3, d, es + [DirEntries.Entry(ino, name)])
  {
    PackedNext(fs, d, es);
    EntriesOfBlocks(fs, d);
    NameStored(fs1, fs2, d, k, name);
    InoStored(fs2, fs3, d, k, ino);
    var all := Slots(fs, d) + blanks;
    assert Slots(fs3, d) == all[k := DirEntries.Entry(ino, name)];
    NextIsLast(fs, fs1, d, blanks, k, es);
    assert all[..|es|] == es;
    assert all[|es| := DirEntries.Entry(ino, name)][..|es| + 1] == es + [DirEntries.Entry(ino, name)];
    forall j | |Slots(fs, d)| <= j < |all| ensures all[j].ino == 0 {
      assert all[j] in blanks;
    }
  }

  lemma NextIsLast(fs: Fs, fs1: Fs, d: nat, blanks: seq<DirEntries.Entry>, k: nat, es: seq<DirEntries.Entry>)
    requires Chosen(fs, fs1, d, blanks, k) && fs.inodes[d].size % BLKSIZE == 0 && Packed(fs, d, es)
    ensures k == |es|
  {
    PackedNext(fs, d, es);
    if |es| % BLKENTRIES != 0 {
      assert Slots(fs, d)[|es|].ino == 0;
      assert forall j :: 0 <= j < |es| ==> Slots(fs, d)[j] == es[j];
    }
  }

  /** If directory d is packed, it stays so with one more entry. */
  ghost predicate Lengthened(fs: Fs, fs': Fs, d: nat, e: DirEntries.Entry)
    requires fs.Valid() && fs'.Valid() && IsDir(fs, d) && IsDir(fs', d)
  {
    forall es :: Packed(fs, d, es) ==> Packed(fs', d, es + [e])
  }

  lemma LengthenedThrough(fs: Fs, mid: Fs, fs': Fs, d: nat, e: DirEntries.Entry)
    requires fs.Valid() && mid.Valid() && IsDir(fs, d) && IsDir(mid, d) && Lengthened(fs, mid, d, e)
    requires fs'.Valid() && IsDir(fs', d) && fs'.Contents(d) == mid.Contents(d)
    ensures Lengthened(fs, fs', d, e)
  {
    SlotsAre(mid, d);
    SlotsAre(fs', d);
    forall es | Packed(fs, d, es) ensures Packed(fs', d, es + [e]) {
      assert Packed(mid, d, es + [e]);
    }
  }

  // An entry of directory d with the new file's name and inode number, and that inode, both held.
  method EnterFile(f: Formatter, ghost fs: Fs, d: nat, dinob: nat, name: Name)
    returns (ok: bool, slot: nat, inob: nat, ino: nat, ghost b: nat, ghost fs3: Fs)
    requires DirHeld(f, fs, d, dinob) && d < f.shape.ninodes && FsOk(fs)
    requires 2 <= f.nextinode <= f.shape.ninodes && |f.c.pins| + 5 <= CACHESIZE
    requires f.nextinode < f.shape.ninodes ==> InodesHeld(f.c.Now(), f.shape.InodeBlock(f.nextinode))
    modifies f`nextb, f`nextinode, f`pending, f.c, f.c.cache, f.c.disk
    ensures ok <==> |name| <= MAXNAMELEN && DirFits(fs, d, |old(f.c.view)| - old(f.nextb))
                    && old(f.nextinode) < f.shape.ninodes
    ensures ok ==>
      && ino == old(f.nextinode) && f.nextinode == ino + 1 && ino < TWO32
      && f.nextb == old(f.nextb) + DirCost(fs, d) && |f.c.view| == |old(f.c.view)|
      && Built(f, fs3) && (Entered(fs, fs3, d, name, ino) == true)
      && (Lengthened(fs, fs3, d, DirEntries.Entry(ino, name)) == true)
      && Holds(f.c.Now(), slot, b, DIR) && Holds(f.c.Now(), inob, f.shape.InodeBlock(ino), INODES)
      && f.c.pins == old(f.c.pins) + multiset{b} + multiset{f.shape.InodeBlock(ino)}
      && f.shape.InodeBlock(ino) < f.shape.first <= b
      && forall h, b2, t :: Holds(old(f.c.Now()), h, b2, t) ==> b2 != b && Holds(f.c.Now(), h, b2, t)
  {
    ok, slot, inob, ino, b, fs3 := false, 0, 0, 0, 0, fs;
    var place;
    ghost var fs1, fs2, k, blanks;
    ok, place, inob, ino, fs1, fs2, k, blanks := NameAndInode(f, fs, d, dinob, name);
    if ok {
      slot := place.slot;
      b := fs2.AtI(d, DataSlot(fs2.N(d) - 1));
      fs3 := FillEntry(f, fs2, d, k, place, 0, Encode(ino));
      FileEntered(fs, fs1, fs2, fs3, d, blanks, k, name, ino);
    }
  }

  // The entry with its name, and the next inode, both held.
  method NameAndInode(f: Formatter, ghost fs: Fs, d: nat, dinob: nat, name: Name)
    returns (ok: bool, place: Place, inob: nat, ino: nat,
             ghost fs1: Fs, ghost fs2: Fs, ghost k: nat, ghost blanks: seq<DirEntries.Entry>)
    requires DirHeld(f, fs, d, dinob) && d < f.shape.ninodes
    requires f.nextinode <= f.shape.ninodes && |f.c.pins| + 5 <= CACHESIZE
    requires f.nextinode < f.shape.ninodes ==> InodesHeld(f.c.Now(), f.shape.InodeBlock(f.nextinode))
    modifies f`nextb, f`nextinode, f`pending, f.c, f.c.cache, f.c.disk
    ensures ok <==> |name| <= MAXNAMELEN && DirFits(fs, d, |old(f.c.view)| - old(f.nextb))
                    && old(f.nextinode) < f.shape.ninodes
    ensures ok ==> ino == old(f.nextinode) && f.nextinode == ino + 1
    ensures ok ==> f.nextb == old(f.nextb) + DirCost(fs, d) && |f.c.view| == |old(f.c.view)|
    ensures ok ==>
      && Built(f, fs2) && (Chosen(fs, fs1, d, blanks, k) == true) && EntryHeld(f, fs2, d, k, place)
      && (Wrote(fs1, fs2, d, DIRENTRY_SIZE * k + 4, name + [0]) == true)
    ensures ok ==> var b := fs2.AtI(d, DataSlot(fs2.N(d) - 1));
      && f.c.pins == old(f.c.pins) + multiset{b} + multiset{f.shape.InodeBlock(ino)}
      && f.shape.InodeBlock(ino) < f.shape.first <= b && Holds(f.c.Now(), inob, f.shape.InodeBlock(ino), INODES)
      && forall h, b2, t :: Holds(old(f.c.Now()), h, b2, t) ==> b2 != b && Holds(f.c.Now(), h, b2, t)
  {
    ok, inob, ino := false, 0, 0;
    ghost var next := f.nextinode;
    place, fs1, fs2, k, blanks := AllocDirEntry(f, fs, d, dinob, name);
    if !place.Place? {
      return;
    }
    StillHeld(f, fs2, old(f.c.Now()), d, next);
    var r;
    r, ino := f.AllocInode(fs2);
    if r.Abort? {
      return;
    }
    inob := r.slot;
    ok := true;
  }

  // Once an entry of directory d is held too, the block of the next inode is still held only as a block of inodes.
  lemma StillHeld(f: Formatter, fs: Fs, s: State, d: nat, next: nat)
    requires Built(f, fs) && IsDir(fs, d) && 0 < fs.N(d) <= MAXFILEBLKS
    requires var b := fs.AtI(d, DataSlot(fs.N(d) - 1));
      f.c.pins == s.pins + multiset{b} && forall h, b2, t :: Holds(s, h, b2, t) ==> Holds(f.c.Now(), h, b2, t)
    requires next < f.shape.ninodes ==> InodesHeld(s, f.shape.InodeBlock(next))
    ensures f.shape.first <= fs.AtI(d, DataSlot(fs.N(d) - 1))
    ensures next < f.shape.ninodes ==>
              f.shape.InodeBlock(next) < f.shape.first && InodesHeld(f.c.Now(), f.shape.InodeBlock(next))
  {
    if next < f.shape.ninodes {
      ShownInode(f.c.view, f.shape, fs.blocks, fs.inodes, Settled, next);
    }
    DataBlockShown(f, fs, d, fs.N(d) - 1);
    if next < f.shape.ninodes && f.shape.InodeBlock(next) in f.c.pins {
      var h :| Holds(s, h, f.shape.InodeBlock(next), INODES);
      assert Holds(f.c.Now(), h, f.shape.InodeBlock(next), INODES);
    }
  }

  // The entry has the name and the number now.
  lemma FileEntered(fs: Fs, fs1: Fs, fs2: Fs, fs3: Fs, d: nat, blanks: seq<DirEntries.Entry>, k: nat, name: Name,
                    ino: uint32)
    requires FsOk(fs) && Chosen(fs, fs1, d, blanks, k) && 0 < ino < |fs.inodes|
    requires |name| <= MAXNAMELEN && Wrote(fs1, fs2, d, DIRENTRY_SIZE * k + 4, name + [0])
    requires Wrote(fs2, fs3, d, DIRENTRY_SIZE * k, Encode(ino))
    ensures Entered(fs, fs3, d, name, ino)
    ensures Lengthened(fs, fs3, d, DirEntries.Entry(ino, name))
  {
    NameThenIno(fs, fs1, fs2, fs3, d, blanks, k, name, ino);
    forall es | Packed(fs, d, es) ensures Packed(fs3, d, es + [DirEntries.Entry(ino, name)]) {
      PackedMore(fs, fs1, fs2, fs3, d, blanks, k, name, ino, es);
    }
  }

  // What the first part of writefile leaves to the second: the entry made, and the inode a file with no bytes.
  ghost predicate FileStarted(fs: Fs, fs3: Fs, mid: Fs, d: nat, name: Name, ino: uint32, mode: uint32) {
    && Entered(fs, fs3, d, name, ino) && FirstUnused(fs, ino) && fs3.inodes[ino] == ZEROINODE
    && Lengthened(fs, fs3, d, DirEntries.Entry(ino, name))
    && mid == fs3.(inodes := fs3.inodes[ino := EMPTYFILE.(mode := mode)])
  }

  // writefile as far as the data: the entry, and the inode with its attributes.
  method StartFile(f: Formatter, ghost fs: Fs, d: nat, dinob: nat, name: Name, mode: uint32)
    returns (ok: bool, slot: nat, inob: nat, ino: nat, ghost b: nat, ghost fs3: Fs, ghost mid: Fs)
    requires DirHeld(f, fs, d, dinob) && d < f.shape.ninodes && FsOk(fs)
    requires Allotted(fs, f.nextinode) && |f.c.pins| + 5 <= CACHESIZE
    requires f.nextinode < f.shape.ninodes ==> InodesHeld(f.c.Now(), f.shape.InodeBlock(f.nextinode))
    modifies f`nextb, f`nextinode, f`pending, f.c, f.c.cache, f.c.disk
    ensures ok <==> |name| <= MAXNAMELEN && DirFits(fs, d, |old(f.c.view)| - old(f.nextb))
                    && old(f.nextinode) < f.shape.ninodes
    ensures ok ==>
      && ino == old(f.nextinode) && f.nextinode == ino + 1 && ino < TWO32
      && f.nextb == old(f.nextb) + DirCost(fs, d) && |f.c.view| == |old(f.c.view)|
      && (FileStarted(fs, fs3, mid, d, name, ino, mode) == true) && mid.Valid() && mid.inodes[ino].size == 0
      && f.FileCall(mid, ino, inob)
      && Holds(f.c.Now(), slot, b, DIR) && f.shape.InodeBlock(ino) < f.shape.first <= b
      && f.c.pins == old(f.c.pins) + multiset{b} + multiset{f.shape.InodeBlock(ino)}
      && forall h, b2, t :: Holds(old(f.c.Now()), h, b2, t) ==> b2 != b && Holds(f.c.Now(), h, b2, t)
  {
    ok, slot, inob, ino, b, fs3 := EnterFile(f, fs, d, dinob, name);
    mid := fs3;
    if !ok {
      return;
    }
    assert fs3.inodes[ino] == ZEROINODE && FirstUnused(fs, ino);
    mid := f.InitInode(fs3, ino, inob, FTYPE_REG, mode);
  }

  lemma StartedMeans(fs: Fs, fs3: Fs, mid: Fs, d: nat, name: Name, ino: uint32, mode: uint32)
    requires FsOk(fs) && FileStarted(fs, fs3, mid, d, name, ino, mode)
    ensures FsOk(mid) && Created(fs, mid, d, name, ino, EMPTYFILE.(mode := mode))
    ensures mid.inodes[d].nlink == fs.inodes[d].nlink
    ensures IsDir(mid, d) && Lengthened(fs, mid, d, DirEntries.Entry(ino, name))
  {
    fs3.ValidIs();
    NothingDisowned(fs3, ino);
    CreateDone(fs, fs3, mid, d, name, ino);
    InodeReset(fs3, mid, ino);
    LengthenedThrough(fs, fs3, mid, d, DirEntries.Entry(ino, name));
  }

  // The putblk calls at the end of writefile.
  method LetGo(f: Formatter, slot: nat, inob: nat, ghost b: nat, ghost ib: nat, ghost s: State)
    requires f.Ready() && Holds(f.c.Now(), slot, b, DIR) && Holds(f.c.Now(), inob, ib, INODES) && b != ib
    requires Sound(s) && f.c.pins == s.pins + multiset{b} + multiset{ib}
    requires forall h, b2, t :: Holds(s, h, b2, t) ==> b2 != b && Holds(f.c.Now(), h, b2, t)
    modifies f.c, f.c.cache
    ensures f.Ready() && f.c.view == old(f.c.view) && f.c.pins == s.pins
    ensures forall h, b2, t :: Holds(s, h, b2, t) ==> Holds(f.c.Now(), h, b2, t)
  {
    f.Put(slot, b, DIR);
    ghost var mid := f.c.Now();
    f.Put(inob, ib, INODES);
    forall h, b2, t | Holds(s, h, b2, t) ensures Holds(f.c.Now(), h, b2, t) {
      HeldCount(s, h, b2, t);
      assert Holds(mid, h, b2, t);
    }
  }

  // The rest of writefile: the data, and the putblk calls.
  method FinishFile(f: Formatter, ghost mid: Fs, ino: nat, inob: nat, slot: nat, data: seq<byte>,
                    ghost b: nat, ghost s: State)
    returns (ok: bool, ghost fs': Fs)
    requires f.FileCall(mid, ino, inob) && mid.Valid() && mid.inodes[ino].size == 0
    requires Holds(f.c.Now(), slot, b, DIR) && f.shape.InodeBlock(ino) < f.shape.first <= b
    requires Sound(s) && f.c.pins == s.pins + multiset{b} + multiset{f.shape.InodeBlock(ino)}
    requires forall h, b2, t :: Holds(s, h, b2, t) ==> b2 != b && Holds(f.c.Now(), h, b2, t)
    modifies f`nextb, f.c, f.c.cache, f.c.disk
    ensures ok <==> old(f.nextb) + Room(|data|) <= |old(f.c.view)|
    ensures ok ==> FileWritten(mid, fs', ino, data) && Built(f, fs') && |f.c.view| == |old(f.c.view)|
    ensures ok ==> f.nextb == old(f.nextb) + Cost(BlocksOf(|data|)) && f.c.pins == s.pins
    ensures ok ==> forall h, b2, t :: Holds(s, h, b2, t) ==> Holds(f.c.Now(), h, b2, t)
  {
    ok, fs' := f.WriteData(mid, ino, inob, data);
    if ok {
      ShownInode(f.c.view, f.shape, fs'.blocks, fs'.inodes, Settled, ino);
      LetGo(f, slot, inob, b, f.shape.InodeBlock(ino), s);
    }
  }

  lemma FileFinished(fs: Fs, fs3: Fs, mid: Fs, fs': Fs, d: nat, name: Name, ino: uint32, mode: uint32, data: seq<byte>)
    requires FsOk(fs) && (FileStarted(fs, fs3, mid, d, name, ino, mode) == true)
    requires FileWritten(mid, fs', ino, data) && Allotted(fs, ino) && ino < |fs.inodes|
    ensures FsOk(fs') && FileMade(fs, fs', d, name, ino, mode, data) && Allotted(fs', ino + 1)
    ensures IsDir(fs', d) && Lengthened(fs, fs', d, DirEntries.Entry(ino, name))
  {
    StartedMeans(fs, fs3, mid, d, name, ino, mode);
    FileDone(fs, mid, fs', d, name, ino, mode, data);
    StillAllotted(fs, fs', d, name, ino, mode, data);
    LengthenedThrough(fs, mid, fs', d, DirEntries.Entry(ino, name));
  }

  /** What writefile needs: a directory that can be worked on, and room in the cache. */
  ghost predicate FileRequest(f: Formatter, fs: Fs, d: nat, dinob: nat)
    reads f, f.c, f.c.disk, f.c.cache
  {
    && DirHeld(f, fs, d, dinob) && d < f.shape.ninodes && FsOk(fs)
    && Allotted(fs, f.nextinode) && |f.c.pins| + 5 <= CACHESIZE
    && (f.nextinode < f.shape.ninodes ==> InodesHeld(f.c.Now(), f.shape.InodeBlock(f.nextinode)))
  }

  /** writefile: a host file becomes a new file of directory d. It aborts exactly when the name is too long, there is no
      inode left, the directory cannot take the entry, or the disk is too full for the entry and the data. Nothing looks
      for the name: names stay distinct exactly when the directory did not have it. */
  method WriteFile(f: Formatter, ghost fs: Fs, d: nat, dinob: nat, name: Name, data: seq<byte>, mode: uint32)
    returns (ok: bool, ghost fs': Fs)
    requires FileRequest(f, fs, d, dinob) == true
    modifies f`nextb, f`nextinode, f`pending, f.c, f.c.cache, f.c.disk
    ensures ok <==> |name| <= MAXNAMELEN && old(f.nextinode) < f.shape.ninodes
                    && DirFits(fs, d, |old(f.c.view)| - old(f.nextb))
                    && old(f.nextb) + DirCost(fs, d) + Room(|data|) <= |old(f.c.view)|
    ensures ok ==>
      && Built(f, fs') && FsOk(fs') && (FileMade(fs, fs', d, name, old(f.nextinode), mode, data) == true)
      && f.nextinode == old(f.nextinode) + 1 && Allotted(fs', f.nextinode)
      && f.nextb == old(f.nextb) + DirCost(fs, d) + Cost(BlocksOf(|data|)) && |f.c.view| == |old(f.c.view)|
      && (Lengthened(fs, fs', d, DirEntries.Entry(old(f.nextinode), name)) == true)
      && f.c.pins == old(f.c.pins)
      && forall h, b, t :: Holds(old(f.c.Now()), h, b, t) ==> Holds(f.c.Now(), h, b, t)
  {
    fs' := fs;
    var slot, inob, ino;
    ghost var b, fs3, mid;
    ok, slot, inob, ino, b, fs3, mid := StartFile(f, fs, d, dinob, name, mode);
    if !ok {
      return;
    }
    ok, fs' := FinishFile(f, mid, ino, inob, slot, data, b, old(f.c.Now()));
    if ok {
      FileFinished(fs, fs3, mid, fs', d, name, ino, mode, data);
    }
  }
}
