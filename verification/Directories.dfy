// The directory operations of the mounted file system: lookup, create, link,
// symlink, unlink, and setting a size.
module Directories {
  import opened Words
  import opened Freemap
  import opened Layout
  import opened Image
  import opened BlockCalls
  import opened FileData
  import opened DirEntries
  import opened Namespace
  import opened DirOps
  import opened DirCalls
  import opened Symlinks
  import opened FileSystem

  // The entry at offset 128 k of directory d.
  method LoadEntry(m: FileSystem, d: nat, k: nat) returns (e: Entry)
    requires m.Coupled() && EntryIn(m.State(), d, k)
    ensures k < |Slots(m.State(), d)| && e == Slots(m.State(), d)[k]
  {
    EntryBytes(m.State(), d, k);
    EntryRead(m.State(), d, k);
    var off := DIRENTRY_SIZE * k;
    var od := Bytes(m.blocks[InodeBlockno(m.blocks[..], m.inodes[d], off)]);
    off := off % BLKSIZE;
    e := Entry(Decode(od[off..off + 4]), CString(od[off + 4..off + DIRENTRY_SIZE]));
  }

  // Bytes stored 'delta' bytes into entry k of directory d.
  method StoreEntry(m: FileSystem, d: nat, k: nat, delta: nat, data: seq<byte>)
    requires m.Coupled() && EntryIn(m.State(), d, k) && 0 < |data| && delta + |data| <= DIRENTRY_SIZE
    modifies m.blocks
    ensures m.Coupled() && Wrote(old(m.State()), m.State(), d, DIRENTRY_SIZE * k + delta, data)
  {
    ghost var fs := m.State();
    EntryWritten(fs, d, k, delta, data);
    var off := DIRENTRY_SIZE * k + delta;
    var blockno := InodeBlockno(m.blocks[..], m.inodes[d], off);
    m.blocks[blockno] := Pack(Splice(Bytes(m.blocks[blockno]), off % BLKSIZE, data));
    assert m.State() == Poked(fs, d, off, data);
  }

  /** find_direntry: the first entry in use with the given name. */
  method FindDirentry(m: FileSystem, d: nat, name: Name) returns (found: bool, k: nat)
    requires m.Coupled() && FsOk(m.State()) && IsDir(m.State(), d)
    ensures found <==> name in Dir(m.State(), d)
    ensures found ==> EntryIn(m.State(), d, k) && FirstNamed(Slots(m.State(), d), k, name)
    ensures found ==> Dir(m.State(), d)[name] == Slots(m.State(), d)[k].ino
  {
    ghost var es := Slots(m.State(), d);
    SlotsFill(m.State(), d);
    k := 0;
    while DIRENTRY_SIZE * k < m.inodes[d].size
      invariant k <= |es|
      invariant forall j: nat :: j < k ==> !IsNamed(es, j, name)
      decreases |es| - k
    {
      var od := LoadEntry(m, d, k);
      if od.ino != 0 && od.name == name {
        BindingAt(es, k, name);
        return true, k;
      }
      k := k + 1;
    }
    BindingKeys(es, name);
    return false, k;
  }

  /** ospfs_dir_lookup: the inode number under the name; 0 stands for the negative dentry of a missing name. */
  method Lookup(m: FileSystem, d: nat, name: Name) returns (r: int)
    requires m.Coupled() && FsOk(m.State()) && IsDir(m.State(), d)
    ensures r == if |name| > MAXNAMELEN then -ENAMETOOLONG
                 else if name in Dir(m.State(), d) then Dir(m.State(), d)[name] else 0
  {
    if |name| > MAXNAMELEN {
      return -ENAMETOOLONG;
    }
    var found, k := FindDirentry(m, d, name);
    if !found {
      return 0;
    }
    var od := LoadEntry(m, d, k);
    return od.ino;
  }

  // The loop of create_blank_direntry that looks for an empty entry.
  method FindBlank(m: FileSystem, d: nat) returns (found: bool, k: nat)
    requires m.Coupled() && FsOk(m.State()) && IsDir(m.State(), d)
    ensures found ==> EntryIn(m.State(), d, k) && k < |Slots(m.State(), d)| && Slots(m.State(), d)[k].ino == 0
    ensures !found ==> NoBlank(Slots(m.State(), d)) && k == |Slots(m.State(), d)|
  {
    ghost var es := Slots(m.State(), d);
    SlotsFill(m.State(), d);
    k := 0;
    while DIRENTRY_SIZE * k < m.inodes[d].size
      invariant k <= |es|
      invariant forall j :: 0 <= j < k ==> es[j].ino != 0
      decreases |es| - k
    {
      var entry := LoadEntry(m, d, k);
      if entry.ino == 0 {
        return true, k;
      }
      k := k + 1;
    }
    return false, k;
  }

  /** create_blank_direntry: an empty entry of directory d, from a new block if there is none. */
  method CreateBlankDirentry(m: FileSystem, d: nat) returns (r: int, k: nat, ghost blanks: seq<Entry>)
    requires m.Coupled() && FsOk(m.State()) && IsDir(m.State(), d) && Roomy(m.State(), d)
    modifies m`owner, m.freemap, m.freemap.words, m.blocks, m.inodes
    ensures m.Coupled()
    ensures r == 0 ==> BlankFound(old(m.State()), m.State(), d, blanks, k)
    ensures r != 0 ==> m.State() == old(m.State()) && NoRoom(m.State(), d, r)
  {
    ghost var fs := m.State();
    var found;
    found, k := FindBlank(m, d);
    if found {
      BlankInPlace(fs, d, k);
      return 0, k, [];
    }
    r, k, blanks := GrowDirectory(m, d, k);
  }

  // The end of create_blank_direntry: a new block of empty entries, of which k is the last.
  method GrowDirectory(m: FileSystem, d: nat, c: nat) returns (r: int, k: nat, ghost blanks: seq<Entry>)
    requires m.Coupled() && FsOk(m.State()) && IsDir(m.State(), d)
    requires m.State().N(d) < SINGLYINDIRECT && NoBlank(Slots(m.State(), d)) && c == |Slots(m.State(), d)|
    modifies m`owner, m.freemap, m.freemap.words, m.blocks, m.inodes
    ensures m.Coupled()
    ensures r == 0 ==> BlankFound(old(m.State()), m.State(), d, blanks, k)
    ensures r != 0 ==> m.State() == old(m.State()) && NoRoom(m.State(), d, r)
  {
    ghost var fs := m.State();
    ValidIsInRange(fs, d);
    r := m.AddBlock(d);
    ghost var fs1 := m.State();
    AddBlockFailure(fs, fs1, d, r);
    if r != 0 {
      return r, c, [];
    }
    DirGrown(fs, fs1, d);
    k := ClearBlock(m, d, c);
    BlankInNewBlock(fs, fs1, m.State(), d);
    blanks := Slots(m.State(), d)[|Slots(fs, d)|..];
  }

  // The loop of create_blank_direntry that empties the entries from c on; k is the last of them.
  method ClearBlock(m: FileSystem, d: nat, c: nat) returns (k: nat)
    requires m.Coupled() && m.State().Valid() && IsDir(m.State(), d) && m.inodes[d].size % BLKSIZE == 0
    requires c < |Slots(m.State(), d)|
    modifies m.blocks
    ensures m.Coupled() && Cleared(old(m.State()), m.State(), d, c, old(|Slots(m.State(), d)|))
    ensures k == old(|Slots(m.State(), d)|) - 1
  {
    ghost var fs := m.State();
    ghost var n := |Slots(fs, d)|;
    SlotsFill(fs, d);
    k := c;
    while DIRENTRY_SIZE * k < m.inodes[d].size
      invariant c <= k <= n
      invariant m.Coupled() && Cleared(fs, m.State(), d, c, k)
      decreases n - k
    {
      ghost var mid := m.State();
      StoreEntry(m, d, k, 0, Encode(0));
      ClearedMore(fs, mid, m.State(), d, c, k);
      k := k + 1;
    }
    k := k - 1;
  }

  // The inode number and the name of an entry, stored one after the other; 'mid' is the image in between.
  method StoreNumberAndName(m: FileSystem, d: nat, k: nat, name: Name, ino: uint32) returns (ghost mid: Fs)
    requires m.Coupled() && EntryIn(m.State(), d, k) && |name| <= MAXNAMELEN
    modifies m.blocks
    ensures m.Coupled()
    ensures Wrote(old(m.State()), mid, d, DIRENTRY_SIZE * k, Encode(ino))
    ensures Wrote(mid, m.State(), d, DIRENTRY_SIZE * k + 4, name + [0])
  {
    ghost var fs := m.State();
    StoreEntry(m, d, k, 0, Encode(ino));
    mid := m.State();
    InoStored(fs, mid, d, k, ino);
    StoreEntry(m, d, k, 4, name + [0]);
  }

  // A name stored in an entry that create_blank_direntry found for directory d of fs.
  method EnterName(m: FileSystem, ghost fs: Fs, ghost blanks: seq<Entry>, d: nat, k: nat, name: Name, ino: uint32)
    requires m.Coupled() && FsOk(fs) && BlankFound(fs, m.State(), d, blanks, k)
    requires |name| <= MAXNAMELEN && 0 < ino < |fs.inodes|
    modifies m.blocks
    ensures m.Coupled() && (Entered(fs, m.State(), d, name, ino) == true)
  {
    ghost var fs1 := m.State();
    ghost var fs2 := StoreNumberAndName(m, d, k, name, ino);
    NameEntered(fs, fs1, fs2, m.State(), d, blanks, k, name, ino);
  }

  // The loop of create and symlink that looks for an unused inode; 0 when there is none.
  method FindUnused(m: FileSystem) returns (ino: nat)
    requires m.Coupled()
    ensures ino == 0 ==> AllUsed(m.State())
    ensures ino != 0 ==> FirstUnused(m.State(), ino)
  {
    var n := 2;
    while n < m.inodes.Length
      invariant 2 <= n
      invariant forall j :: 2 <= j < n && j < m.inodes.Length ==> m.inodes[j].nlink != 0
    {
      if m.inodes[n].nlink == 0 {
        return n;
      }
      n := n + 1;
    }
    return 0;
  }

  // The end of ospfs_create: the entry and the inode.
  method MakeFile(m: FileSystem, ghost fs: Fs, ghost blanks: seq<Entry>, d: nat, k: nat, name: Name, mode: uint32,
                  ino: uint32)
    requires m.Coupled() && FsOk(fs) && BlankFound(fs, m.State(), d, blanks, k)
    requires |name| <= MAXNAMELEN && FirstUnused(fs, ino)
    modifies m`owner, m.blocks, m.inodes
    ensures m.Coupled() && FsOk(m.State())
    ensures Created(fs, m.State(), d, name, ino, EMPTYFILE.(mode := mode)) == true
    ensures |m.State().inodes| == |fs.inodes| && d < |fs.inodes| && m.State().inodes[d].nlink == fs.inodes[d].nlink
  {
    EnterName(m, fs, blanks, d, k, name, ino);
    ghost var fs3 := m.State();
    m.inodes[ino] := Inode(0, FTYPE_REG, 1, mode, ZEROPOINTERS, 0, 0);
    m.owner := Disowned(m.owner, ino);
    CreateDone(fs, fs3, m.State(), d, name, ino);
  }

  /** ospfs_create: a new empty regular file. */
  method Create(m: FileSystem, d: nat, name: Name, mode: uint32) returns (r: int)
    requires m.Coupled() && FsOk(m.State()) && IsDir(m.State(), d) && Roomy(m.State(), d)
    modifies m`owner, m.freemap, m.freemap.words, m.blocks, m.inodes
    ensures m.Coupled() && FsOk(m.State())
    ensures CreateResult(old(m.State()), m.State(), d, name, mode, r)
  {
    ghost var fs := m.State();
    if |name| > MAXNAMELEN {
      return -ENAMETOOLONG;
    }
    var found, _ := FindDirentry(m, d, name);
    if found {
      return -EEXIST;
    }
    var entryIno := FindUnused(m);
    if entryIno == 0 {
      return -ENOSPC;
    }
    var k;
    ghost var blanks;
    r, k, blanks := CreateBlankDirentry(m, d);
    if r != 0 {
      return r;
    }
    MakeFile(m, fs, blanks, d, k, name, mode, entryIno);
    return 0;
  }

  /** ospfs_link: one more name for inode 'src', which the VFS has checked is no directory. */
  method Link(m: FileSystem, src: nat, d: nat, name: Name) returns (r: int)
    requires m.Coupled() && FsOk(m.State()) && IsDir(m.State(), d) && Roomy(m.State(), d)
    requires 2 <= src < m.inodes.Length && !IsDir(m.State(), src)
    modifies m`owner, m.freemap, m.freemap.words, m.blocks, m.inodes
    ensures m.Coupled() && m.State().Valid()
    ensures LinkResult(old(m.State()), m.State(), d, name, src, r)
    ensures FsOk(m.State()) <==> r != 0 || old(m.inodes[src].nlink) != TWO32 - 1
  {
    ghost var fs := m.State();
    if |name| > MAXNAMELEN {
      return -ENAMETOOLONG;
    }
    var found, _ := FindDirentry(m, d, name);
    if found {
      return -EEXIST;
    }
    var k;
    ghost var blanks;
    r, k, blanks := CreateBlankDirentry(m, d);
    if r != 0 {
      return r;
    }
    EnterName(m, fs, blanks, d, k, name, src);
    ghost var fs3 := m.State();
    m.inodes[src] := m.inodes[src].(nlink := Add32(m.inodes[src].nlink, 1));
    LinkDone(fs, fs3, m.State(), d, name, src);
    return 0;
  }

  // The end of ospfs_symlink: the entry, the inode, and the directory's own count.
  method MakeSymlink(m: FileSystem, ghost fs: Fs, ghost blanks: seq<Entry>, d: nat, k: nat, name: Name,
                     target: Name, ino: uint32)
    requires m.Coupled() && FsOk(fs) && BlankFound(fs, m.State(), d, blanks, k)
    requires |name| <= MAXNAMELEN && |target| <= MAXSYMLINKLEN && FirstUnused(fs, ino)
    modifies m`owner, m.blocks, m.inodes
    ensures m.Coupled() && m.State().Valid() && |m.State().inodes| == |fs.inodes|
    ensures Created(fs, m.State(), d, name, ino, NewSymlink(fs.inodes[ino], target)) == true
    ensures d < |fs.inodes| && m.State().inodes[d].nlink == Add32(fs.inodes[d].nlink, 1)
    ensures FsOk(m.State()) <==> fs.inodes[d].nlink != TWO32 - 1
  {
    EnterName(m, fs, blanks, d, k, name, ino);
    ghost var fs3 := m.State();
    m.inodes[ino] := NewSymlink(m.inodes[ino], target);
    m.owner := Disowned(m.owner, ino);
    ghost var fs4 := m.State();
    m.inodes[d] := m.inodes[d].(nlink := Add32(m.inodes[d].nlink, 1));
    SymlinkMade(fs, fs3, fs4, m.State(), d, name, target, ino);
  }

  /** ospfs_symlink: a new symbolic link. */
  method Symlink(m: FileSystem, d: nat, name: Name, target: Name) returns (r: int)
    requires m.Coupled() && FsOk(m.State()) && IsDir(m.State(), d) && Roomy(m.State(), d)
    modifies m`owner, m.freemap, m.freemap.words, m.blocks, m.inodes
    ensures m.Coupled() && m.State().Valid()
    ensures SymlinkResult(old(m.State()), m.State(), d, name, target, r)
    ensures FsOk(m.State()) <==> r != 0 || old(m.inodes[d].nlink) != TWO32 - 1
  {
    ghost var fs := m.State();
    if |name| > MAXNAMELEN {
      return -ENAMETOOLONG;
    }
    if |target| > MAXSYMLINKLEN {
      return -ENAMETOOLONG;
    }
    var found, _ := FindDirentry(m, d, name);
    if found {
      return -EEXIST;
    }
    var entryIno := FindUnused(m);
    if entryIno == 0 {
      return -ENOSPC;
    }
    var k;
    ghost var blanks;
    r, k, blanks := CreateBlankDirentry(m, d);
    if r != 0 {
      return r;
    }
    MakeSymlink(m, fs, blanks, d, k, name, target, entryIno);
    return 0;
  }

  /** ospfs_unlink: 'ino' is the inode that the VFS found under the name; it is no directory. */
  method Unlink(m: FileSystem, d: nat, name: Name, ino: nat) returns (r: int)
    requires m.Coupled() && FsOk(m.State()) && IsDir(m.State(), d)
    requires 2 <= ino < m.inodes.Length && !IsDir(m.State(), ino)
    requires name in Dir(m.State(), d) ==> Dir(m.State(), d)[name] == ino
    modifies m.blocks, m.inodes
    ensures m.Coupled() && FsOk(m.State())
    ensures UnlinkResult(old(m.State()), m.State(), d, name, ino, r)
  {
    ghost var fs := m.State();
    var found, k := FindDirentry(m, d, name);
    if !found {
      return -ENOENT;
    }
    StoreEntry(m, d, k, 0, Encode(0));
    ghost var fs1 := m.State();
    m.inodes[ino] := m.inodes[ino].(nlink := Sub32(m.inodes[ino].nlink, 1));
    UnlinkDone(fs, fs1, m.State(), d, k, ino, name);
    return 0;
  }

  /** Nothing but the mode of inode i differs, and that only if one was asked for: it is the one asked for then. */
  ghost predicate ModeSet(fs: Fs, fs': Fs, i: nat, mode: Option<uint32>)
    requires i < |fs.inodes|
  {
    && fs'.first == fs.first && fs'.free == fs.free && fs'.blocks == fs.blocks && fs'.owner == fs.owner
    && |fs'.inodes| == |fs.inodes| && (forall j: nat :: j < |fs.inodes| && j != i ==> fs'.inodes[j] == fs.inodes[j])
    && var was, now := fs.inodes[i], fs'.inodes[i];
    && now.mode == (if mode.Some? then mode.value else was.mode)
    && now.size == was.size && now.ftype == was.ftype && now.nlink == was.nlink
    && now.direct == was.direct && now.indirect == was.indirect && now.indirect2 == was.indirect2
  }

  lemma NoModeSet(fs: Fs, fs': Fs, i: nat)
    requires i < |fs.inodes| && ModeSet(fs, fs', i, None)
    ensures fs' == fs
  {
    assert fs'.inodes[i] == fs.inodes[i];
    assert fs'.inodes == fs.inodes;
  }

  /** ospfs_notify_change: the size first, refused on directories, and then the mode. What the VFS has to say about the
      change ('vfs') comes last: it is the answer, and the change stands whatever it is. 'mid' and 'q' are the image and
      the answer after change_size. */
  method NotifyChange(m: FileSystem, i: nat, size: Option<uint32>, mode: Option<uint32>, vfs: int)
    returns (r: int, ghost mid: Fs, ghost q: int)
    requires m.Coupled() && m.State().Valid() && m.State().HasTree(i)
    requires size.Some? ==> SoundPath(m.State().N(i), Size2NBlocks(size.value))
    modifies m`owner, m.freemap, m.freemap.words, m.blocks, m.inodes
    ensures m.Coupled() && |mid.inodes| == m.inodes.Length
    ensures size.None? ==> mid == old(m.State()) && q == 0
    ensures size.Some? && IsDir(old(m.State()), i) ==> r == -EPERM && m.State() == old(m.State())
    ensures size.Some? && !IsDir(old(m.State()), i) ==> ChangeSizeOutcome(old(m.State()), mid, i, size.value, q)
    ensures size.None? || !IsDir(old(m.State()), i) ==>
      if q < 0 then r == q && m.State() == mid else r == vfs && ModeSet(mid, m.State(), i, mode)
  {
    r, mid, q := 0, m.State(), 0;
    if size.Some? {
      if m.inodes[i].ftype == FTYPE_DIR {
        return -EPERM, mid, 0;
      }
      r := m.ChangeSize(i, size.value);
      mid, q := m.State(), r;
      if r < 0 {
        return;
      }
    }
    if mode.Some? {
      m.inodes[i] := m.inodes[i].(mode := mode.value);
    }
    r := vfs;
  }
}
