// The main program of the formatter, for files named on its command line.
module FormatRun {
  import opened Words
  import opened Layout
  import opened Image
  import opened DirEntries
  import opened Namespace
  import opened DirCalls
  import opened Storing
  import opened Copying
  import opened NamedFiles
  import opened InodeTable
  import opened BlockCache
  import opened Mounting
  import opened Formatter
  import opened FormatFiles
  import opened WriteFiles

  const ROOT_INO := 1

  // A file given to the formatter: the last part of its path, and its bytes.
  datatype HostFile = HostFile(name: Name, data: seq<byte>)

  predicate DistinctNames(files: seq<HostFile>) {
    forall i, j :: 0 <= i < j < |files| ==> files[i].name != files[j].name
  }

  // The arguments that main does not refuse.
  predicate Accepted(nblocks: nat, ninodes: nat) {
    2 <= nblocks <= BLKBITSIZE && 2 <= ninodes < nblocks - 2 - nblocks / BLKBITSIZE
  }

  // ----- room

  /** The blocks that the entry of file m costs: every eighth entry opens a block of the root directory. */
  function EntryCost(m: nat): nat {
    if m % BLKENTRIES == 0 && m / BLKENTRIES < MAXFILEBLKS then 1 + Opened(m / BLKENTRIES) else 0
  }

  /** The blocks handed out once the first m files are written. */
  function Used(files: seq<HostFile>, m: nat): nat
    requires m <= |files|
  {
    if m == 0 then 0 else Used(files, m - 1) + EntryCost(m - 1) + Cost(BlocksOf(|files[m - 1].data|))
  }

  /** Every name fits its entry, and every file the disk, given 'blocks' data blocks and 'inodes' inodes. */
  predicate AllFit(files: seq<HostFile>, blocks: int, inodes: nat) {
    FirstFit(files, |files|, blocks, inodes)
  }

  predicate FirstFit(files: seq<HostFile>, n: nat, blocks: int, inodes: nat)
    requires n <= |files|
  {
    n == 0 || (FirstFit(files, n - 1, blocks, inodes) && FileFits(files, n - 1, blocks, inodes))
  }

  lemma {:induction false} FirstFitAll(files: seq<HostFile>, n: nat, m: nat, blocks: int, inodes: nat)
    requires m <= n <= |files| && FirstFit(files, n, blocks, inodes)
    ensures FirstFit(files, m, blocks, inodes)
  {
    if m < n {
      FirstFitAll(files, n - 1, m, blocks, inodes);
    }
  }

  predicate FileFits(files: seq<HostFile>, m: nat, blocks: int, inodes: nat)
    requires m < |files|
  {
    && |files[m].name| <= MAXNAMELEN && m + 2 < inodes
    && Used(files, m) + EntryCost(m) + Room(|files[m].data|) <= blocks
  }

  lemma NotAllFit(files: seq<HostFile>, m: nat, blocks: int, inodes: nat)
    requires m < |files| && !FileFits(files, m, blocks, inodes)
    ensures !AllFit(files, blocks, inodes)
  {
    if AllFit(files, blocks, inodes) {
      FirstFitAll(files, |files|, m + 1, blocks, inodes);
    }
  }

  /** The command lines for which an image is made. */
  predicate Formats(nblocks: nat, ninodes: nat, files: seq<HostFile>) {
    |files| > 0 && Accepted(nblocks, ninodes) && AllFit(files, nblocks - DataStart(ninodes), ninodes)
  }

  // ----- what the image holds

  /** The entries of the root directory: file k of the command line has inode k + 2. */
  function RootEntries(files: seq<HostFile>, m: nat): (es: seq<DirEntries.Entry>)
    requires m <= |files| && m <= TWO32 - 2
    ensures |es| == m
  {
    seq(m, k requires 0 <= k < m => DirEntries.Entry(k + 2, files[k].name))
  }

  /** In the root directory, which everybody may use, are exactly the first m files, in order and with their bytes, and
      no further inode is in use. Names stay distinct exactly when the files' names are. */
  ghost predicate Contains(fs: Fs, files: seq<HostFile>, m: nat)
    requires m <= |files| && fs.Valid()
  {
    && m + 2 <= |fs.inodes| <= TWO32 && RootOpen(fs) && Packed(fs, ROOT_INO, RootEntries(files, m))
    && NamesDistinct(fs) == DistinctNames(files[..m])
    && HaveFiles(fs, files, m) && Allotted(fs, m + 2)
  }

  predicate RootOpen(fs: Fs) {
    IsDir(fs, ROOT_INO) && fs.inodes[ROOT_INO].mode == 0x1FF && fs.inodes[ROOT_INO].nlink == 1
  }

  ghost predicate HaveFiles(fs: Fs, files: seq<HostFile>, m: nat)
    requires m <= |files| && fs.Valid()
  {
    forall k: nat :: k < m ==> HasFile(fs, k + 2, files[k].data)
  }

  /** File k is the first with its name. */
  predicate FirstFile(files: seq<HostFile>, k: nat)
    requires k < |files|
  {
    forall j :: 0 <= j < k ==> files[j].name != files[k].name
  }

  predicate SomeFile(files: seq<HostFile>, m: nat, name: Name)
    requires m <= |files|
  {
    exists k :: 0 <= k < m && files[k].name == name
  }

  /** The root directory has exactly the names of the files, and each leads to the first file that has it. */
  lemma NamesAre(fs: Fs, files: seq<HostFile>, m: nat, name: Name)
    requires fs.Valid() && m <= |files| && (Contains(fs, files, m) == true)
    ensures name in Dir(fs, ROOT_INO) <==> SomeFile(files, m, name)
    ensures forall k: nat :: k < m && files[k].name == name && FirstFile(files, k) ==>
              name in Dir(fs, ROOT_INO) && Dir(fs, ROOT_INO)[name] == k + 2
  {
    var all := Slots(fs, ROOT_INO);
    assert forall k: nat :: k < m ==> all[k] == all[..m][k] == RootEntries(files, m)[k];
    SlotNames(all, files, m, name);
  }

  lemma {:induction false} SlotNames(all: seq<DirEntries.Entry>, files: seq<HostFile>, m: nat, name: Name)
    requires m <= |files| && m <= |all| && m <= TWO32 - 2
    requires forall k: nat :: k < m ==> all[k] == DirEntries.Entry(k + 2, files[k].name)
    requires forall k :: m <= k < |all| ==> all[k].ino == 0
    ensures name in Binding(all) <==> SomeFile(files, m, name)
    ensures forall k: nat :: k < m && files[k].name == name && FirstFile(files, k) ==>
              name in Binding(all) && Binding(all)[name] == k + 2
  {
    BindingKeys(all, name);
    if SomeFile(files, m, name) {
      var k :| 0 <= k < m && files[k].name == name;
      assert IsNamed(all, k, name);
    }
    forall k: nat | k < m && files[k].name == name && FirstFile(files, k)
      ensures name in Binding(all) && Binding(all)[name] == k + 2
    {
      BindingAt(all, k, name);
    }
  }

  lemma NameRepeated(files: seq<HostFile>, m: nat)
    requires m < |files|
    ensures DistinctNames(files[..m + 1]) <==> DistinctNames(files[..m]) && !SomeFile(files, m, files[m].name)
  {
    var a, b := files[..m], files[..m + 1];
    assert forall k :: 0 <= k < m ==> a[k] == b[k];
    if DistinctNames(b) {
      forall i, j | 0 <= i < j < m ensures a[i].name != a[j].name {
        assert b[i].name != b[j].name;
      }
      assert forall k :: 0 <= k < m ==> b[k].name != b[m].name;
    }
  }

  /** A regular file that everybody may read and write, with one link. */
  ghost predicate HasFile(fs: Fs, i: nat, data: seq<byte>)
    requires fs.Valid()
  {
    && fs.HasTree(i) && fs.inodes[i].ftype == FTYPE_REG && fs.Contents(i) == data && fs.inodes[i].size == |data|
    && fs.inodes[i].mode == 0x1B6 && fs.inodes[i].nlink == 1
  }

  lemma FilesMore(fs: Fs, fs': Fs, files: seq<HostFile>, m: nat)
    requires fs.Valid() && fs'.Valid() && m < |files| && m + 2 < |fs.inodes| <= TWO32
    requires (HaveFiles(fs, files, m) == true) && (RestKept(fs, fs', ROOT_INO, m + 2) == true)
    requires HasFile(fs', m + 2, files[m].data)
    ensures HaveFiles(fs', files, m + 1) == true
  {
    forall k: nat | k < m + 1 ensures HasFile(fs', k + 2, files[k].data) {
      if k < m {
        assert HasFile(fs, k + 2, files[k].data);
        assert fs'.inodes[k + 2] == fs.inodes[k + 2];
      }
    }
  }

  lemma NamesMore(fs: Fs, fs': Fs, files: seq<HostFile>, m: nat, ino: uint32)
    requires fs.Valid() && fs'.Valid() && m < |files| && (Contains(fs, files, m) == true)
    requires NameBound(fs, fs', ROOT_INO, files[m].name, ino) == true
    ensures NamesDistinct(fs') == DistinctNames(files[..m + 1])
  {
    NameRepeated(files, m);
    NamesAre(fs, files, m, files[m].name);
  }

  lemma RootMore(fs: Fs, fs': Fs, files: seq<HostFile>, m: nat)
    requires fs.Valid() && fs'.Valid() && m < |files| && m + 2 < TWO32 && IsDir(fs, ROOT_INO) && IsDir(fs', ROOT_INO)
    requires Packed(fs, ROOT_INO, RootEntries(files, m)) == true
    requires Lengthened(fs, fs', ROOT_INO, DirEntries.Entry(m + 2, files[m].name)) == true
    ensures Packed(fs', ROOT_INO, RootEntries(files, m + 1)) == true
  {
    assert RootEntries(files, m + 1) == RootEntries(files, m) + [DirEntries.Entry(m + 2, files[m].name)];
  }

  lemma MadeMore(fs: Fs, fs': Fs, files: seq<HostFile>, m: nat)
    requires fs.Valid() && fs'.Valid() && m < |files| && (Contains(fs, files, m) == true)
    requires m + 2 < |fs.inodes| <= TWO32
    requires FileMade(fs, fs', ROOT_INO, files[m].name, m + 2, 0x1B6, files[m].data) == true
    ensures |fs'.inodes| == |fs.inodes| && RootOpen(fs') && (HaveFiles(fs', files, m + 1) == true)
    ensures NamesDistinct(fs') == DistinctNames(files[..m + 1])
  {
    FilesMore(fs, fs', files, m);
    NamesMore(fs, fs', files, m, m + 2);
  }

  lemma ContainsMore(fs: Fs, fs': Fs, files: seq<HostFile>, m: nat)
    requires fs.Valid() && fs'.Valid() && m < |files| && (Contains(fs, files, m) == true)
    requires m + 2 < |fs.inodes| == |fs'.inodes| && RootOpen(fs')
    requires (HaveFiles(fs', files, m + 1) == true) && NamesDistinct(fs') == DistinctNames(files[..m + 1])
    requires (Allotted(fs', m + 1 + 2) == true)
    requires Lengthened(fs, fs', ROOT_INO, DirEntries.Entry(m + 2, files[m].name)) == true
    ensures Contains(fs', files, m + 1) == true
  {
    RootMore(fs, fs', files, m);
  }

  lemma FileAdded(fs: Fs, fs': Fs, files: seq<HostFile>, m: nat)
    requires FsOk(fs) && FsOk(fs') && m < |files| && (Contains(fs, files, m) == true)
    requires m + 2 < |fs.inodes| && IsDir(fs', ROOT_INO)
    requires FileMade(fs, fs', ROOT_INO, files[m].name, m + 2, 0x1B6, files[m].data) == true
    requires Allotted(fs', m + 1 + 2) == true
    requires Lengthened(fs, fs', ROOT_INO, DirEntries.Entry(m + 2, files[m].name)) == true
    ensures Contains(fs', files, m + 1) == true
  {
    MadeMore(fs, fs', files, m);
    ContainsMore(fs, fs', files, m);
  }

  lemma AllNames(fs: Fs, files: seq<HostFile>)
    requires fs.Valid() && (Contains(fs, files, |files|) == true)
    ensures NamesDistinct(fs) == DistinctNames(files)
  {
    assert files[..|files|] == files;
  }

  // ----- the empty file system

  /** What main has made when it starts on the files: inode 0 out of use, and an empty root directory. */
  ghost predicate JustRoot(fs: Fs) {
    && fs.Valid() && 2 <= |fs.inodes| <= TWO32
    && fs.inodes[ROOT_INO] == ZEROINODE.(nlink := 1, ftype := FTYPE_DIR, mode := 0x1FF)
    && fs.inodes[0] == ZEROINODE.(nlink := 1)
    && forall j :: 2 <= j < |fs.inodes| ==> fs.inodes[j] == ZEROINODE
  }

  lemma JustRootIsOk(fs: Fs, files: seq<HostFile>)
    requires JustRoot(fs)
    ensures FsOk(fs) && Contains(fs, files, 0)
  {
    FsOkIs(fs);
    assert forall d: nat :: IsDir(fs, d) <==> d == ROOT_INO;
    assert Slots(fs, ROOT_INO) == [];
    var t := TableOf(fs);
    forall i: nat | 2 <= i < |fs.inodes| ensures fs.inodes[i].nlink == |Refs(t, i)| {
      assert Refs(t, i) == {};
    }
    assert NamesDistinct(fs);
  }

  // ----- main

  // The root directory is held, and nothing else.
  ghost predicate RootHeld(f: Formatter, fs: Fs, rootinob: nat)
    reads f, f.c, f.c.disk, f.c.cache
  {
    Built(f, fs) && OnlyRootHeld(f, rootinob)
  }

  ghost predicate OnlyRootHeld(f: Formatter, rootinob: nat)
    reads f, f.c, f.c.disk, f.c.cache
  {
    && 2 <= f.shape.ninodes && f.c.pins == multiset{f.shape.InodeBlock(ROOT_INO)}
    && Holds(f.c.Now(), rootinob, f.shape.InodeBlock(ROOT_INO), INODES)
  }

  // The start of main: inode 0 is handed out for good, and inode 1 becomes the root directory.
  method MakeRoot(f: Formatter) returns (rootinob: nat, ghost fs: Fs)
    requires f.Ready() && f.c.pins == multiset{} && f.nextinode == 0 && 2 <= f.shape.ninodes <= TWO32
    requires f.shape.Fits(|f.c.view|) && f.nextb == f.shape.first
    requires var fs := Empty(f.shape, |f.c.view|); Shows(f.c.view, f.shape, fs.blocks, fs.inodes, Settled)
    modifies f`nextinode, f`pending, f.c, f.c.cache, f.c.disk
    ensures RootHeld(f, fs, rootinob) && JustRoot(fs) && f.nextinode == 2 && |f.c.view| == |old(f.c.view)|
  {
    fs := Empty(f.shape, |f.c.view|);
    EmptyIsOrderly(f.shape, |f.c.view|);
    ghost var fs0 := fs;
    var r, ino;
    while f.nextinode != ROOT_INO
      invariant f.nextinode <= 1 && Built(f, fs) && f.c.pins == multiset{} && |f.c.view| == |old(f.c.view)|
      invariant fs == if f.nextinode == 0 then fs0 else fs0.(inodes := fs0.inodes[0 := ZEROINODE.(nlink := 1)])
      decreases 1 - f.nextinode
    {
      r, ino := f.AllocInode(fs);
      fs := f.InitInode(fs, ino, r.slot, FTYPE_REG, 0);
      f.Put(r.slot, f.shape.InodeBlock(ino), INODES);
    }
    r, ino := f.AllocInode(fs);
    fs := f.InitInode(fs, ino, r.slot, FTYPE_DIR, 0x1FF);
    rootinob := r.slot;
  }

  // Where main stands after the first m files. Contracts compare it with true so that it is passed on whole.
  ghost predicate Underway(f: Formatter, fs: Fs, rootinob: nat, files: seq<HostFile>, m: nat)
    requires m <= |files|
    reads f, f.c, f.c.disk, f.c.cache
  {
    && RootHeld(f, fs, rootinob) && FsOk(fs) && Contains(fs, files, m)
    && f.nextinode == m + 2 && f.nextb == f.shape.first + Used(files, m)
  }

  lemma RootCanGrow(f: Formatter, fs: Fs, rootinob: nat)
    requires RootHeld(f, fs, rootinob) && FsOk(fs) && IsDir(fs, ROOT_INO)
    ensures DirHeld(f, fs, ROOT_INO, rootinob)
    ensures f.nextinode < f.shape.ninodes ==> InodesHeld(f.c.Now(), f.shape.InodeBlock(f.nextinode))
  {
    OrderlyIs(fs);
    ShownInode(f.c.view, f.shape, fs.blocks, fs.inodes, Settled, ROOT_INO);
    assert f.shape.InodeBlock(ROOT_INO) !in fs.owner;
  }

  /** What the next entry costs depends on the number of entries only. */
  lemma NextEntryCost(fs: Fs, files: seq<HostFile>, m: nat)
    requires m <= |files| && FsOk(fs) && (Contains(fs, files, m) == true) && m < BLKENTRIES * MAXFILEBLKS
    ensures IsDir(fs, ROOT_INO) && DirCost(fs, ROOT_INO) == EntryCost(m)
    ensures forall room: int :: EntryCost(m) <= room ==> DirFits(fs, ROOT_INO, room)
  {
    RootPacked(fs, files, m);
    PackedNext(fs, ROOT_INO, RootEntries(files, m));
  }

  lemma RootPacked(fs: Fs, files: seq<HostFile>, m: nat)
    requires m <= |files| && FsOk(fs) && Contains(fs, files, m)
    ensures m <= TWO32 - 2 && IsDir(fs, ROOT_INO) && fs.inodes[ROOT_INO].size % BLKSIZE == 0
    ensures Packed(fs, ROOT_INO, RootEntries(files, m)) == true
  {
    FsOkIs(fs);
  }

  lemma FewInodes(f: Formatter, fs: Fs, rootinob: nat)
    requires RootHeld(f, fs, rootinob)
    ensures f.shape.ninodes <= BLKENTRIES * MAXFILEBLKS
  {
    ShownInode(f.c.view, f.shape, fs.blocks, fs.inodes, Settled, ROOT_INO);
  }

  lemma RoundStarts(f: Formatter, fs: Fs, rootinob: nat, files: seq<HostFile>, m: nat)
    requires m < |files| && (Underway(f, fs, rootinob, files, m) == true)
    ensures FileRequest(f, fs, ROOT_INO, rootinob) == true
    ensures FsOk(fs) && (Contains(fs, files, m) == true) && IsDir(fs, ROOT_INO) && DirCost(fs, ROOT_INO) == EntryCost(m)
    ensures forall room: int :: EntryCost(m) <= room ==> DirFits(fs, ROOT_INO, room)
    ensures OnlyRootHeld(f, rootinob) && |fs.inodes| == f.shape.ninodes
    ensures f.nextinode == m + 2 && f.nextb == f.shape.first + Used(files, m)
  {
    RootCanGrow(f, fs, rootinob);
    FewInodes(f, fs, rootinob);
    NextEntryCost(fs, files, m);
    OrderlyIs(fs);
    ShownInode(f.c.view, f.shape, fs.blocks, fs.inodes, Settled, ROOT_INO);
  }

  lemma RoundEnds(f: Formatter, fs: Fs, rootinob: nat, files: seq<HostFile>, m: nat)
    requires m < |files| && Built(f, fs) && OnlyRootHeld(f, rootinob)
    requires FsOk(fs) && (Contains(fs, files, m + 1) == true) && f.nextinode == m + 1 + 2
    requires f.nextb == f.shape.first + Used(files, m) + EntryCost(m) + Cost(BlocksOf(|files[m].data|))
    ensures Underway(f, fs, rootinob, files, m + 1) == true
  {
    assert Used(files, m + 1) == Used(files, m) + EntryCost(m) + Cost(BlocksOf(|files[m].data|));
  }

  // One round of the loop of main.
  method AddFile(f: Formatter, ghost fs: Fs, rootinob: nat, files: seq<HostFile>, m: nat)
    returns (ok: bool, ghost fs': Fs)
    requires m < |files| && (Underway(f, fs, rootinob, files, m) == true)
    modifies f`nextb, f`nextinode, f`pending, f.c, f.c.cache, f.c.disk
    ensures ok == FileFits(files, m, |old(f.c.view)| - f.shape.first, f.shape.ninodes)
    ensures ok ==> (Underway(f, fs', rootinob, files, m + 1) == true) && |f.c.view| == |old(f.c.view)|
  {
    RoundStarts(f, fs, rootinob, files, m);
    ok, fs' := WriteFile(f, fs, ROOT_INO, rootinob, files[m].name, files[m].data, 0x1B6);
    if ok {
      FileAdded(fs, fs', files, m);
      RoundEnds(f, fs', rootinob, files, m);
    }
  }

  // The loop of main over the files of the command line.
  method AddFiles(f: Formatter, ghost fs: Fs, rootinob: nat, files: seq<HostFile>) returns (ok: bool, ghost fs': Fs)
    requires Underway(f, fs, rootinob, files, 0) == true
    modifies f`nextb, f`nextinode, f`pending, f.c, f.c.cache, f.c.disk
    ensures ok == AllFit(files, |old(f.c.view)| - f.shape.first, f.shape.ninodes)
    ensures ok ==> (Underway(f, fs', rootinob, files, |files|) == true) && |f.c.view| == |old(f.c.view)|
  {
    fs' := fs;
    ghost var room, inodes := |f.c.view| - f.shape.first, f.shape.ninodes;
    var i := 0;
    while i < |files|
      invariant i <= |files| && (Underway(f, fs', rootinob, files, i) == true) && |f.c.view| == |old(f.c.view)|
      invariant FirstFit(files, i, room, inodes) == true
    {
      ok, fs' := AddFile(f, fs', rootinob, files, i);
      if !ok {
        NotAllFit(files, i, room, inodes);
        return;
      }
      i := i + 1;
    }
    ok := true;
  }

  // The start of main, up to the first file.
  method Begin(f: Formatter, ghost files: seq<HostFile>) returns (rootinob: nat, ghost fs: Fs)
    requires f.Ready() && f.c.pins == multiset{} && f.nextinode == 0 && 2 <= f.shape.ninodes <= TWO32
    requires f.shape.Fits(|f.c.view|) && f.nextb == f.shape.first
    requires var fs := Empty(f.shape, |f.c.view|); Shows(f.c.view, f.shape, fs.blocks, fs.inodes, Settled)
    modifies f`nextinode, f`pending, f.c, f.c.cache, f.c.disk
    ensures (Underway(f, fs, rootinob, files, 0) == true) && |f.c.view| == |old(f.c.view)|
  {
    rootinob, fs := MakeRoot(f);
    JustRootIsOk(fs, files);
  }

  // The end of main: the root inode is let go, and everything goes to the disk.
  method Finish(f: Formatter, ghost fs: Fs, rootinob: nat) returns (disk: seq<Block>)
    requires RootHeld(f, fs, rootinob) && f.shape.first <= f.nextb
    modifies f.c, f.c.cache, f.c.disk
    ensures |disk| == |old(f.c.view)| && (Finished(disk, f.shape, fs, f.nextb) == true)
    ensures fs.free == Rest(f.nextb, |disk|) && |fs.inodes| == f.shape.ninodes
  {
    f.Put(rootinob, f.shape.InodeBlock(ROOT_INO), INODES);
    f.FinishFs(fs);
    f.c.FlushDisk();
    disk := f.c.disk[..];
  }

  // main from opendisk on.
  method MakeImage(nblocks: nat, ninodes: nat, files: seq<HostFile>)
    returns (ok: bool, disk: seq<Block>, ghost shape: Shape, ghost fs: Fs, ghost nextb: nat)
    requires Accepted(nblocks, ninodes)
    ensures ok == (|files| > 0 && AllFit(files, nblocks - DataStart(ninodes), ninodes))
    ensures ok ==> |disk| == nblocks && (Finished(disk, shape, fs, nextb) == true) && FsOk(fs)
                   && (Contains(fs, files, |files|) == true)
    ensures ok ==> fs.free == Rest(nextb, nblocks) && nextb == DataStart(ninodes) + Used(files, |files|)
    ensures ok ==> |fs.inodes| == ninodes && shape == Shape(3, ninodes, DataStart(ninodes))
  {
    ok, disk, shape, fs, nextb := false, [], Shape(0, 0, 0), Fs(0, {}, [], [], map[]), 0;
    var f := new Formatter(nblocks, ninodes);
    var rootinob;
    rootinob, fs := Begin(f, files);
    if |files| > 0 {  // otherwise argv[4] is the null pointer that ends the command line
      ok, fs := AddFiles(f, fs, rootinob, files);
      if ok {
        disk := Finish(f, fs, rootinob);
        shape, nextb := f.shape, f.nextb;
      }
    }
  }

  /** main: the image has exactly the files of the command line, and it is made exactly when there are any and they all
      fit. Nothing compares their names: those of the image are distinct exactly when those of the files are. */
  method Format(nblocks: nat, ninodes: nat, files: seq<HostFile>)
    returns (ok: bool, disk: seq<Block>, ghost shape: Shape, ghost fs: Fs, ghost nextb: nat)
    ensures ok == Formats(nblocks, ninodes, files)
    ensures ok ==> |disk| == nblocks && (Finished(disk, shape, fs, nextb) == true) && FsOk(fs)
                   && (Contains(fs, files, |files|) == true)
    ensures ok ==> NamesDistinct(fs) == DistinctNames(files)
    ensures ok ==> fs.free == Rest(nextb, nblocks) && nextb == DataStart(ninodes) + Used(files, |files|)
    ensures ok ==> |fs.inodes| == ninodes && shape == Shape(3, ninodes, DataStart(ninodes))
  {
    ok, disk, shape, fs, nextb := false, [], Shape(0, 0, 0), Fs(0, {}, [], [], map[]), 0;
    if Accepted(nblocks, ninodes) {
      ok, disk, shape, fs, nextb := MakeImage(nblocks, ninodes, files);
      if ok {
        AllNames(fs, files);
      }
    }
  }
}
