// create, link, symlink and unlink as they appear to a user: what happens to
// the maps from names to inodes, to link counts and to everything else.
module DirCalls {
  import opened Words
  import opened Layout
  import opened Image
  import opened BlockCalls
  import opened FileData
  import opened DirEntries
  import opened Namespace
  import opened DirOps
  import opened Symlinks

  const ENOENT := 2
  const EEXIST := 17
  const ENAMETOOLONG := 36

  /** Directory d has one more entry: a name that it did not have is bound, and no other name changed. Names stay
      distinct exactly when it did not have it. */
  ghost predicate NameBound(fs: Fs, fs': Fs, d: nat, name: Name, ino: uint32)
    requires fs.Valid() && fs'.Valid()
  {
    && IsDir(fs, d)
    && (forall e: nat :: IsDir(fs', e) <==> IsDir(fs, e))
    && (name !in Dir(fs, d) ==> Dir(fs', d) == Dir(fs, d)[name := ino])
    && (forall e: nat :: e != d && IsDir(fs, e) ==> Dir(fs', e) == Dir(fs, e))
    && (NamesDistinct(fs') <==> NamesDistinct(fs) && name !in Dir(fs, d))
  }

  /** The first entry for a name of directory d is emptied: a second one comes to light, if there is one, and no other
      name changed. */
  ghost predicate NameUnbound(fs: Fs, fs': Fs, d: nat, name: Name)
    requires fs.Valid() && fs'.Valid()
  {
    && IsDir(fs, d)
    && (forall e: nat :: IsDir(fs', e) <==> IsDir(fs, e))
    && Dir(fs', d) - {name} == Dir(fs, d) - {name}
    && (name in Dir(fs', d) <==> Twice(Slots(fs, d), name))
    && (forall e: nat :: e != d && IsDir(fs, e) ==> Dir(fs', e) == Dir(fs, e))
    && (NamesDistinct(fs) ==> NamesDistinct(fs') && Dir(fs', d) == Dir(fs, d) - {name})
  }

  /** Apart from directory d and inode i, every inode and every file is the same; d is a directory with its mode. */
  ghost predicate RestKept(fs: Fs, fs': Fs, d: nat, i: nat)
    requires fs.Valid() && fs'.Valid()
  {
    && |fs'.inodes| == |fs.inodes|
    && (forall j: nat :: j < |fs.inodes| && j != d && j != i ==> fs'.inodes[j] == fs.inodes[j])
    && (forall j: nat :: j != d && j != i && fs.HasTree(j) ==> fs'.HasTree(j) && fs'.Contents(j) == fs.Contents(j))
    && d < |fs.inodes| && fs'.inodes[d].ftype == fs.inodes[d].ftype && fs'.inodes[d].mode == fs.inodes[d].mode
  }

  /** There is an empty entry, or the directory can still grow by add_block. */
  ghost predicate Roomy(fs: Fs, d: nat)
    requires fs.Valid() && IsDir(fs, d)
  {
    fs.N(d) < SINGLYINDIRECT || !NoBlank(Slots(fs, d))
  }

  ghost predicate NoBlank(es: seq<Entry>) {
    forall e :: e in es ==> e.ino != 0
  }

  /** A directory with no empty entry cannot grow when the disk is full. */
  ghost predicate NoRoom(fs: Fs, d: nat, r: int)
    requires fs.Valid() && IsDir(fs, d)
  {
    && NoBlank(Slots(fs, d))
    && ((r == -ENOSPC && fs.free == {}) || (r == -EIO && fs.N(d) == NDIRECT && |fs.free| == 1))
  }

  /** The first inode that create and symlink find unused. */
  predicate FirstUnused(fs: Fs, i: nat) {
    && 2 <= i < |fs.inodes| && fs.inodes[i].nlink == 0
    && (forall j :: 2 <= j < i ==> fs.inodes[j].nlink != 0)
  }

  predicate AllUsed(fs: Fs) {
    forall j :: 2 <= j < |fs.inodes| ==> fs.inodes[j].nlink != 0
  }

  const EMPTYFILE := Inode(0, FTYPE_REG, 1, 0, ZEROPOINTERS, 0, 0)

  // ----- entering a name

  /** A name was stored in an entry of directory d; nothing else but d changed. */
  ghost predicate Entered(fs: Fs, fs': Fs, d: nat, name: Name, ino: uint32) {
    && fs.Valid() && fs'.Valid() && IsDir(fs, d)
    && |fs'.inodes| == |fs.inodes|
    && (forall j: nat :: j < |fs.inodes| && j != d ==> fs'.inodes[j] == fs.inodes[j])
    && fs'.inodes[d].ftype == FTYPE_DIR && fs'.inodes[d].nlink == fs.inodes[d].nlink
    && fs'.inodes[d].mode == fs.inodes[d].mode
    && fs'.inodes[d].size % BLKSIZE == 0
    && OtherFilesKept(fs, fs', d)
    && TableOk(TableOf(fs'), |fs.inodes|)
    && NameBound(fs, fs', d, name, ino)
    && (forall i: nat :: i != 0 ==> |Refs(TableOf(fs'), i)| == |Refs(TableOf(fs), i)| + if i == ino then 1 else 0)
  }

  lemma NameEntered(fs: Fs, fs1: Fs, fs2: Fs, fs3: Fs, d: nat, blanks: seq<Entry>, k: nat, name: Name, ino: uint32)
    requires FsOk(fs) && (BlankFound(fs, fs1, d, blanks, k) == true)
    requires Wrote(fs1, fs2, d, DIRENTRY_SIZE * k, Encode(ino))
    requires |name| <= MAXNAMELEN && Wrote(fs2, fs3, d, DIRENTRY_SIZE * k + 4, name + [0])
    requires 0 < ino < |fs.inodes|
    ensures Entered(fs, fs3, d, name, ino) == true
  {
    var es := (Slots(fs, d) + blanks)[k := Entry(ino, name)];
    assert EntryPut(fs, fs3, d, es) by {
      InoStored(fs1, fs2, d, k, ino);
      NameStored(fs2, fs3, d, k, name);
      PutAfterBlank(fs, fs1, fs3, d, blanks, k, es);
    }
    PutMeans(fs, fs3, d, blanks, k, Entry(ino, name));
  }

  /** Directory d has the given entries now; nothing else changed. */
  ghost predicate EntryPut(fs: Fs, fs': Fs, d: nat, es: seq<Entry>) {
    && fs.Valid() && fs'.Valid() && IsDir(fs, d) && IsDir(fs', d)
    && |fs'.inodes| == |fs.inodes|
    && (forall j: nat :: j < |fs.inodes| && j != d ==> fs'.inodes[j] == fs.inodes[j])
    && fs'.inodes[d].nlink == fs.inodes[d].nlink && fs'.inodes[d].mode == fs.inodes[d].mode
    && fs'.inodes[d].size % BLKSIZE == 0
    && OtherFilesKept(fs, fs', d)
    && Slots(fs', d) == es
  }

  lemma PutAfterBlank(fs: Fs, fs1: Fs, fs3: Fs, d: nat, blanks: seq<Entry>, k: nat, es: seq<Entry>)
    requires BlankFound(fs, fs1, d, blanks, k)
    requires fs3.Valid() && fs3.inodes == fs1.inodes && EntryIn(fs3, d, k) && Slots(fs3, d) == es
    requires forall j: nat :: j != d && fs1.HasTree(j) ==> fs3.HasTree(j) && fs3.Contents(j) == fs1.Contents(j)
    ensures EntryPut(fs, fs3, d, es)
  {
    forall j: nat | j != d && fs.HasTree(j) ensures fs3.HasTree(j) && fs3.Contents(j) == fs.Contents(j) {
      assert fs1.HasTree(j);
    }
  }

  lemma PutMeans(fs: Fs, fs': Fs, d: nat, blanks: seq<Entry>, k: nat, e: Entry)
    requires FsOk(fs) && IsDir(fs, d) && k < |Slots(fs, d)| + |blanks| && (Slots(fs, d) + blanks)[k].ino == 0
    requires forall b :: b in blanks ==> b.ino == 0
    requires EntryPut(fs, fs', d, (Slots(fs, d) + blanks)[k := e]) && 0 < e.ino < |fs.inodes|
    ensures Entered(fs, fs', d, e.name, e.ino)
  {
    PutTable(fs, fs', d, (Slots(fs, d) + blanks)[k := e]);
    PutNames(fs, TableOf(fs'), d, blanks, k, e);
  }

  // What the new entry does to the table of all directories.
  lemma PutNames(fs: Fs, t': Table, d: nat, blanks: seq<Entry>, k: nat, e: Entry)
    requires FsOk(fs) && IsDir(fs, d) && k < |Slots(fs, d)| + |blanks| && (Slots(fs, d) + blanks)[k].ino == 0
    requires forall b :: b in blanks ==> b.ino == 0
    requires t' == TableOf(fs)[d := (Slots(fs, d) + blanks)[k := e]]
    requires 0 < e.ino < |fs.inodes|
    ensures TableOk(t', |fs.inodes|)
    ensures e.name !in Dir(fs, d) ==> Binding((Slots(fs, d) + blanks)[k := e]) == Dir(fs, d)[e.name := e.ino]
    ensures AllDistinct(t') <==> NamesDistinct(fs) && e.name !in Dir(fs, d)
    ensures forall i: nat :: i != 0 ==> |Refs(t', i)| == |Refs(TableOf(fs), i)| + if i == e.ino then 1 else 0
  {
    assert TableOk(TableOf(fs), |fs.inodes|) by {
      FsOkIs(fs);
    }
    assert t' == NameAdded(TableOf(fs), d, blanks, k, e);
    NameAddedOk(TableOf(fs), |fs.inodes|, d, blanks, k, e);
    NameAddedBinds(TableOf(fs), d, blanks, k, e);
    BindingKeys(Slots(fs, d), e.name);
  }

  lemma PutTable(fs: Fs, fs': Fs, d: nat, es: seq<Entry>)
    requires EntryPut(fs, fs', d, es)
    ensures TableOf(fs') == TableOf(fs)[d := es]
    ensures forall e: nat :: IsDir(fs', e) <==> IsDir(fs, e)
    ensures Dir(fs', d) == Binding(es)
    ensures forall e: nat :: e != d && IsDir(fs, e) ==> Dir(fs', e) == Dir(fs, e)
  {
    DirsSame(fs, fs', d);
    TableSet(fs, fs', d, es);
    BoundFromTables(fs, fs', d, es);
  }

  lemma DirsSame(fs: Fs, fs': Fs, d: nat)
    requires IsDir(fs, d) && IsDir(fs', d) && |fs'.inodes| == |fs.inodes|
    requires forall j: nat :: j < |fs.inodes| && j != d ==> fs'.inodes[j] == fs.inodes[j]
    ensures forall j: nat :: IsDir(fs', j) <==> IsDir(fs, j)
  {
  }

  lemma BoundFromTables(fs: Fs, fs': Fs, d: nat, es: seq<Entry>)
    requires fs.Valid() && fs'.Valid() && IsDir(fs, d) && TableOf(fs') == TableOf(fs)[d := es]
    ensures forall e: nat :: IsDir(fs', e) <==> IsDir(fs, e)
    ensures Dir(fs', d) == Binding(es)
    ensures forall e: nat :: e != d && IsDir(fs, e) ==> Dir(fs', e) == Dir(fs, e)
  {
    var t, t' := TableOf(fs), TableOf(fs');
    forall e: nat ensures IsDir(fs', e) <==> IsDir(fs, e) {
      assert e in t' <==> e in t;
    }
    assert d in t' && t'[d] == es;
    forall e: nat | e != d && IsDir(fs, e) ensures Dir(fs', e) == Dir(fs, e) {
      assert e in t' && t'[e] == t[e];
    }
  }

  // ----- results

  ghost predicate CreateResult(fs: Fs, fs': Fs, d: nat, name: Name, mode: uint32, r: int)
    requires FsOk(fs) && fs'.Valid() && IsDir(fs, d)
  {
    if |name| > MAXNAMELEN then r == -ENAMETOOLONG && fs' == fs
    else if name in Dir(fs, d) then r == -EEXIST && fs' == fs
    else if AllUsed(fs) then r == -ENOSPC && fs' == fs
    else if r != 0 then NoRoom(fs, d, r) && fs' == fs
    else
      && |fs'.inodes| == |fs.inodes| && fs'.inodes[d].nlink == fs.inodes[d].nlink
      && exists i: uint32 :: FirstUnused(fs, i) && Created(fs, fs', d, name, i, EMPTYFILE.(mode := mode))
  }

  /** Inode i was unused; it is the given new one now, bound to 'name' in d, and nothing else changed. */
  ghost predicate Created(fs: Fs, fs': Fs, d: nat, name: Name, i: uint32, oi: Inode)
    requires fs.Valid() && fs'.Valid()
  {
    && i < |fs.inodes| && i != d
    && RestKept(fs, fs', d, i)
    && fs'.inodes[i] == oi
    && NameBound(fs, fs', d, name, i)
  }

  lemma CreateDone(fs: Fs, fs3: Fs, fs': Fs, d: nat, name: Name, i: uint32)
    requires FsOk(fs) && Entered(fs, fs3, d, name, i) && FirstUnused(fs, i)
    requires |fs'.inodes| == |fs.inodes|
    requires fs' == fs3.(inodes := fs3.inodes[i := fs'.inodes[i]], owner := Disowned(fs3.owner, i))
    requires fs'.inodes[i].nlink == 1
    requires fs'.inodes[i].ftype == FTYPE_SYMLINK || (fs'.inodes[i].ftype == FTYPE_REG && fs'.inodes[i].size == 0)
    ensures FsOk(fs') && Created(fs, fs', d, name, i, fs'.inodes[i]) && fs'.inodes[d].nlink == fs.inodes[d].nlink
  {
    assert fs'.Valid() && TableOf(fs') == TableOf(fs3) && OtherFilesKept(fs3, fs', i) by {
      InodeReset(fs3, fs', i);
    }
    KeptThrough(fs, fs3, fs', d, i);
    BoundThrough(fs, fs3, fs', d, name, i);
    StillOk(fs, fs', d, i, 1);
  }

  lemma KeptThrough(fs: Fs, mid: Fs, fs': Fs, d: nat, i: nat)
    requires fs.Valid() && mid.Valid() && fs'.Valid()
    requires d < |mid.inodes| == |fs.inodes| == |fs'.inodes|
    requires fs'.inodes[d].ftype == fs.inodes[d].ftype && fs'.inodes[d].mode == fs.inodes[d].mode
    requires forall j: nat :: j < |fs.inodes| && j != d && j != i ==> fs'.inodes[j] == mid.inodes[j] == fs.inodes[j]
    requires forall j: nat :: j != d && j != i && fs.HasTree(j) ==> mid.HasTree(j) && mid.Contents(j) == fs.Contents(j)
    requires forall j: nat :: j != d && j != i && mid.HasTree(j) ==>
               fs'.HasTree(j) && fs'.Contents(j) == mid.Contents(j)
    ensures RestKept(fs, fs', d, i)
  {
    forall j: nat | j != d && j != i && fs.HasTree(j) ensures fs'.HasTree(j) && fs'.Contents(j) == fs.Contents(j) {
      assert mid.HasTree(j);
    }
  }

  lemma BoundThrough(fs: Fs, mid: Fs, fs': Fs, d: nat, name: Name, i: uint32)
    requires fs.Valid() && mid.Valid() && fs'.Valid() && NameBound(fs, mid, d, name, i)
    requires TableOf(fs') == TableOf(mid)
    ensures NameBound(fs, fs', d, name, i)
  {
    BoundSame(mid, fs');
  }

  /** The invariant holds again once inode i gained or lost as many links as entries. */
  lemma StillOk(fs: Fs, fs': Fs, d: nat, i: nat, delta: int)
    requires FsOk(fs) && fs'.Valid() && |fs'.inodes| == |fs.inodes| && 2 <= i < |fs.inodes| && i != d
    requires IsDir(fs, d) && IsDir(fs', d) && fs'.inodes[d].size % BLKSIZE == 0
    requires fs'.inodes[d].nlink == fs.inodes[d].nlink
    requires forall j: nat :: j < |fs.inodes| && j != d && j != i ==> fs'.inodes[j] == fs.inodes[j]
    requires fs.inodes[i].ftype != FTYPE_DIR && fs'.inodes[i].ftype != FTYPE_DIR
    requires fs'.inodes[i].nlink == fs.inodes[i].nlink + delta
    requires TableOk(TableOf(fs'), |fs.inodes|)
    requires forall j: nat :: j != 0 ==> |Refs(TableOf(fs'), j)| == |Refs(TableOf(fs), j)| + if j == i then delta else 0
    ensures FsOk(fs')
  {
    assert LinksOk(fs.inodes, TableOf(fs)) by {
      FsOkIs(fs);
    }
    LinksAfter(fs.inodes, fs'.inodes, TableOf(fs), TableOf(fs'), i, delta);
    DirsStayWhole(fs, fs', d);
    FsOkIs(fs');
  }

  lemma DirsStayWhole(fs: Fs, fs': Fs, d: nat)
    requires FsOk(fs) && |fs'.inodes| == |fs.inodes| && IsDir(fs, d) && IsDir(fs', d)
    requires fs'.inodes[d].size % BLKSIZE == 0 && fs'.inodes[d].nlink != 0
    requires forall j: nat :: IsDir(fs', j) && j != d ==> IsDir(fs, j) && fs'.inodes[j] == fs.inodes[j]
    ensures forall j: nat :: IsDir(fs', j) ==> fs'.inodes[j].size % BLKSIZE == 0 && fs'.inodes[j].nlink != 0
  {
  }

  ghost predicate LinkResult(fs: Fs, fs': Fs, d: nat, name: Name, i: uint32, r: int)
    requires FsOk(fs) && fs'.Valid() && IsDir(fs, d)
  {
    if |name| > MAXNAMELEN then r == -ENAMETOOLONG && fs' == fs
    else if name in Dir(fs, d) then r == -EEXIST && fs' == fs
    else if r != 0 then NoRoom(fs, d, r) && fs' == fs
    else Linked(fs, fs', d, name, i) && fs'.inodes[d].nlink == fs.inodes[d].nlink
  }

  /** Inode i has one more link, from the new name in d; nothing else changed. */
  ghost predicate Linked(fs: Fs, fs': Fs, d: nat, name: Name, i: uint32)
    requires fs.Valid() && fs'.Valid()
  {
    && i < |fs.inodes| && i != d
    && RestKept(fs, fs', d, i)
    && fs'.inodes[i] == fs.inodes[i].(nlink := Add32(fs.inodes[i].nlink, 1))
    && (fs.HasTree(i) ==> fs'.HasTree(i) && fs'.Contents(i) == fs.Contents(i))
    && NameBound(fs, fs', d, name, i)
  }

  /** The invariant survives exactly until the link count wraps to 0. */
  lemma LinkDone(fs: Fs, fs3: Fs, fs': Fs, d: nat, name: Name, i: uint32)
    requires FsOk(fs) && 2 <= i < |fs.inodes| && !IsDir(fs, i)
    requires Entered(fs, fs3, d, name, i)
    requires fs' == fs3.(inodes := fs3.inodes[i := fs3.inodes[i].(nlink := Add32(fs3.inodes[i].nlink, 1))])
    ensures fs'.Valid() && Linked(fs, fs', d, name, i) && fs'.inodes[d].nlink == fs.inodes[d].nlink
    ensures FsOk(fs') <==> fs.inodes[i].nlink != TWO32 - 1
  {
    LinkCounted(fs, fs3, fs', d, i);
    BoundThrough(fs, fs3, fs', d, name, i);
    if fs.inodes[i].nlink != TWO32 - 1 {
      StillOk(fs, fs', d, i, 1);
    } else {
      CountWrapped(fs', i);
    }
  }

  lemma LinkCounted(fs: Fs, fs3: Fs, fs': Fs, d: nat, i: nat)
    requires fs.Valid() && fs3.Valid() && i < |fs.inodes| == |fs3.inodes| == |fs'.inodes| && IsDir(fs, d)
             && !IsDir(fs, i)
    requires forall j: nat :: j < |fs.inodes| && j != d ==> fs3.inodes[j] == fs.inodes[j]
    requires OtherFilesKept(fs, fs3, d)
    requires fs3.inodes[d].ftype == fs.inodes[d].ftype && fs3.inodes[d].mode == fs.inodes[d].mode
    requires fs' == fs3.(inodes := fs3.inodes[i := fs3.inodes[i].(nlink := fs'.inodes[i].nlink)])
    ensures fs'.Valid() && TableOf(fs') == TableOf(fs3) && RestKept(fs, fs', d, i)
    ensures fs.HasTree(i) ==> fs'.HasTree(i) && fs'.Contents(i) == fs.Contents(i)
  {
    MetaChanged(fs3, fs', i);
    KeptThrough(fs, fs3, fs', d, i);
    assert fs.HasTree(i) ==> fs3.HasTree(i);
  }

  /** An inode that an entry names has a link. */
  lemma CountWrapped(fs: Fs, i: nat)
    requires fs.Valid() && 2 <= i < |fs.inodes| && fs.inodes[i].ftype != FTYPE_DIR && fs.inodes[i].nlink == 0
    requires |Refs(TableOf(fs), i)| > 0
    ensures !FsOk(fs)
  {
    FsOkIs(fs);
  }

  ghost predicate SymlinkResult(fs: Fs, fs': Fs, d: nat, name: Name, target: Name, r: int)
    requires FsOk(fs) && fs'.Valid() && IsDir(fs, d)
  {
    if |name| > MAXNAMELEN || |target| > MAXSYMLINKLEN then r == -ENAMETOOLONG && fs' == fs
    else if name in Dir(fs, d) then r == -EEXIST && fs' == fs
    else if AllUsed(fs) then r == -ENOSPC && fs' == fs
    else if r != 0 then NoRoom(fs, d, r) && fs' == fs
    else
      && |fs'.inodes| == |fs.inodes| && fs'.inodes[d].nlink == Add32(fs.inodes[d].nlink, 1)
      && exists i: uint32 :: FirstUnused(fs, i) && Created(fs, fs', d, name, i, NewSymlink(fs.inodes[i], target))
  }

  /** symlink also adds a link to the directory itself, and that link is never taken back: the invariant survives
      exactly until the count wraps to 0, when the directory would pass for an unused inode. */
  lemma SymlinkDone(fs: Fs, fs4: Fs, fs': Fs, d: nat, name: Name, i: uint32)
    requires FsOk(fs) && FsOk(fs4) && i < |fs.inodes| == |fs4.inodes|
    requires Created(fs, fs4, d, name, i, fs4.inodes[i])
    requires fs4.inodes[d].nlink == fs.inodes[d].nlink
    requires fs' == fs4.(inodes := fs4.inodes[d := fs4.inodes[d].(nlink := Add32(fs4.inodes[d].nlink, 1))])
    ensures fs'.Valid() && Created(fs, fs', d, name, i, fs4.inodes[i])
    ensures fs'.inodes[d].nlink == Add32(fs.inodes[d].nlink, 1)
    ensures FsOk(fs') <==> fs.inodes[d].nlink != TWO32 - 1
  {
    assert fs'.Valid() && TableOf(fs') == TableOf(fs4) by {
      MetaChanged(fs4, fs', d);
    }
    assert RestKept(fs, fs', d, i) by {
      MetaChanged(fs4, fs', d);
      KeptThrough(fs, fs4, fs', d, i);
    }
    BoundThrough(fs, fs4, fs', d, name, i);
    assert IsDir(fs', d) && fs'.inodes[d].nlink == Add32(fs.inodes[d].nlink, 1);
    if fs.inodes[d].nlink != TWO32 - 1 {
      DirCounted(fs4, fs', d);
    }
  }

  /** symlink from the entry on: the inode, and the directory's own count. */
  lemma SymlinkMade(fs: Fs, fs3: Fs, fs4: Fs, fs': Fs, d: nat, name: Name, target: Name, i: uint32)
    requires FsOk(fs) && (Entered(fs, fs3, d, name, i) == true) && FirstUnused(fs, i) && |target| <= MAXSYMLINKLEN
    requires fs3.inodes[i] == fs.inodes[i] && |fs4.inodes| == |fs.inodes| && fs3.inodes[d].nlink == fs.inodes[d].nlink
    requires fs4.inodes == fs3.inodes[i := NewSymlink(fs3.inodes[i], target)]
    requires fs4 == fs3.(inodes := fs4.inodes, owner := Disowned(fs3.owner, i))
    requires fs' == fs4.(inodes := fs4.inodes[d := fs4.inodes[d].(nlink := Add32(fs4.inodes[d].nlink, 1))])
    ensures fs'.Valid() && |fs'.inodes| == |fs.inodes|
    ensures Created(fs, fs', d, name, i, NewSymlink(fs.inodes[i], target)) == true
    ensures d < |fs.inodes| && fs'.inodes[d].nlink == Add32(fs.inodes[d].nlink, 1)
    ensures FsOk(fs') <==> fs.inodes[d].nlink != TWO32 - 1
  {
    CreateDone(fs, fs3, fs4, d, name, i);
    SymlinkDone(fs, fs4, fs', d, name, i);
  }

  lemma DirCounted(fs: Fs, fs': Fs, d: nat)
    requires FsOk(fs) && fs'.Valid() && TableOf(fs') == TableOf(fs) && IsDir(fs, d) && |fs'.inodes| == |fs.inodes|
    requires fs'.inodes == fs.inodes[d := fs.inodes[d].(nlink := fs'.inodes[d].nlink)] && fs'.inodes[d].nlink != 0
    ensures FsOk(fs')
  {
    FsOkIs(fs);
    DirsStayWhole(fs, fs', d);
    FsOkIs(fs');
  }

  ghost predicate UnlinkResult(fs: Fs, fs': Fs, d: nat, name: Name, i: nat, r: int)
    requires FsOk(fs) && fs'.Valid() && IsDir(fs, d)
  {
    if name !in Dir(fs, d) then r == -ENOENT && fs' == fs
    else r == 0 && Unlinked(fs, fs', d, name, i)
  }

  /** The name is gone and inode i has one link less; nothing else changed. */
  ghost predicate Unlinked(fs: Fs, fs': Fs, d: nat, name: Name, i: nat)
    requires fs.Valid() && fs'.Valid()
  {
    && i < |fs.inodes| == |fs'.inodes|
    && fs.inodes[i].nlink > 0
    && fs'.inodes == fs.inodes[i := fs.inodes[i].(nlink := fs.inodes[i].nlink - 1)]
    && OtherFilesKept(fs, fs', d)
    && NameUnbound(fs, fs', d, name)
    && exists k: nat :: FirstNamed(Slots(fs, d), k, name) && Slots(fs', d) == Slots(fs, d)[k := Entry(0, name)]
  }

  lemma UnlinkDone(fs: Fs, fs1: Fs, fs': Fs, d: nat, k: nat, i: nat, name: Name)
    requires FsOk(fs) && EntryIn(fs, d, k) && Wrote(fs, fs1, d, DIRENTRY_SIZE * k, Encode(0))
    requires 2 <= i < |fs.inodes| && !IsDir(fs, i)
    requires FirstNamed(Slots(fs, d), k, name) && Slots(fs, d)[k].ino == i
    requires |fs1.inodes| == |fs.inodes|
    requires fs' == fs1.(inodes := fs1.inodes[i := fs1.inodes[i].(nlink := Sub32(fs1.inodes[i].nlink, 1))])
    ensures FsOk(fs') && Unlinked(fs, fs', d, name, i)
  {
    InoStored(fs, fs1, d, k, 0);
    ClearMeans(fs, fs1, d, k, name);
    UnlinkCounted(fs, fs1, fs', d, i);
    NamedIsLinked(fs, d, k, i);
    StillOk(fs, fs', d, i, -1);
    UnboundThrough(fs, fs1, fs', d, name, k);
  }

  lemma UnlinkCounted(fs: Fs, fs1: Fs, fs': Fs, d: nat, i: nat)
    requires fs.Valid() && fs1.Valid() && i < |fs1.inodes| == |fs'.inodes| && OtherFilesKept(fs, fs1, d)
    requires fs' == fs1.(inodes := fs1.inodes[i := fs1.inodes[i].(nlink := fs'.inodes[i].nlink)])
    ensures fs'.Valid() && TableOf(fs') == TableOf(fs1) && OtherFilesKept(fs, fs', d)
  {
    MetaChanged(fs1, fs', i);
    KeptTwice(fs, fs1, fs', d);
  }

  lemma UnboundThrough(fs: Fs, mid: Fs, fs': Fs, d: nat, name: Name, k: nat)
    requires fs.Valid() && mid.Valid() && fs'.Valid() && NameUnbound(fs, mid, d, name) && TableOf(fs') == TableOf(mid)
    requires FirstNamed(Slots(fs, d), k, name) && Slots(mid, d) == Slots(fs, d)[k := Entry(0, name)]
    ensures NameUnbound(fs, fs', d, name) && Slots(fs', d) == Slots(fs, d)[k := Entry(0, name)]
  {
    BoundSame(mid, fs');
    assert d in TableOf(fs') && d in TableOf(mid);
  }

  lemma NamedIsLinked(fs: Fs, d: nat, k: nat, i: nat)
    requires FsOk(fs) && IsDir(fs, d) && k < |Slots(fs, d)| && Slots(fs, d)[k].ino == i
    requires 2 <= i < |fs.inodes| && fs.inodes[i].ftype != FTYPE_DIR
    ensures fs.inodes[i].nlink > 0
  {
    FsOkIs(fs);
    assert (d, k) in Refs(TableOf(fs), i);
  }

  lemma ClearMeans(fs: Fs, fs1: Fs, d: nat, k: nat, name: Name)
    requires FsOk(fs) && IsDir(fs, d) && k < |Slots(fs, d)| && IsNamed(Slots(fs, d), k, name)
    requires fs1.Valid() && fs1.inodes == fs.inodes && OtherFilesKept(fs, fs1, d)
    requires IsDir(fs1, d) && Slots(fs1, d) == Slots(fs, d)[k := Entry(0, name)]
    ensures TableOk(TableOf(fs1), |fs.inodes|)
    ensures NameUnbound(fs, fs1, d, name)
    ensures forall i: nat :: i != 0 ==>
              |Refs(TableOf(fs1), i)| == |Refs(TableOf(fs), i)| - if Slots(fs, d)[k].ino == i then 1 else 0
  {
    var es := Slots(fs, d)[k := Entry(0, name)];
    DirsSame(fs, fs1, d);
    TableSet(fs, fs1, d, es);
    ClearNames(fs, TableOf(fs1), d, k, name);
    BoundFromTables(fs, fs1, d, es);
  }

  // What the emptied entry does to the table of all directories.
  lemma ClearNames(fs: Fs, t': Table, d: nat, k: nat, name: Name)
    requires FsOk(fs) && IsDir(fs, d) && k < |Slots(fs, d)| && IsNamed(Slots(fs, d), k, name)
    requires t' == TableOf(fs)[d := Slots(fs, d)[k := Entry(0, name)]]
    ensures TableOk(t', |fs.inodes|)
    ensures Binding(t'[d]) - {name} == Dir(fs, d) - {name} && (name in Binding(t'[d]) <==> Twice(Slots(fs, d), name))
    ensures NamesDistinct(fs) ==> AllDistinct(t') && Binding(t'[d]) == Dir(fs, d) - {name}
    ensures forall i: nat :: i != 0 ==>
              |Refs(t', i)| == |Refs(TableOf(fs), i)| - if Slots(fs, d)[k].ino == i then 1 else 0
  {
    assert TableOk(TableOf(fs), |fs.inodes|) by {
      FsOkIs(fs);
    }
    assert t' == NameCleared(TableOf(fs), d, k);
    NameClearedOk(TableOf(fs), |fs.inodes|, d, k);
    ClearUnbinds(Slots(fs, d), k);
    if NamesDistinct(fs) {
      ClearUnbindsOnly(Slots(fs, d), k);
    }
  }

  /** Images with the same table have the same names. */
  lemma BoundSame(fs: Fs, fs': Fs)
    requires fs.Valid() && fs'.Valid() && TableOf(fs') == TableOf(fs)
    ensures forall e: nat :: IsDir(fs', e) <==> IsDir(fs, e)
    ensures forall e: nat :: IsDir(fs, e) ==> Dir(fs', e) == Dir(fs, e)
  {
    var t, t' := TableOf(fs), TableOf(fs');
    forall e: nat ensures IsDir(fs', e) <==> IsDir(fs, e) {
      assert e in t' <==> e in t;
    }
    forall e: nat | IsDir(fs, e) ensures Dir(fs', e) == Dir(fs, e) {
      assert e in t' && t'[e] == t[e];
    }
  }
}
