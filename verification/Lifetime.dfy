// A file system from the formatter's command line through mounting to any
// number of requests.
module Lifetime {
  import opened Words
  import opened Layout
  import opened Image
  import opened DirEntries
  import opened Namespace
  import opened DirCalls
  import opened Storing
  import opened InodeTable
  import opened Mounting
  import Mount
  import FileSystem
  import opened Directories
  import opened Session
  import Formatter
  import opened WriteFiles
  import opened FormatRun

  /** Mounting keeps the invariant: it says nothing about the blocks before the data blocks. */
  lemma MountedOk(fs: Fs, m: Fs)
    requires FsOk(fs) && m == fs.(blocks := m.blocks) && |m.blocks| == |fs.blocks|
    requires forall b :: fs.first <= b < |fs.blocks| ==> m.blocks[b] == fs.blocks[b]
    ensures FsOk(m) && TableOf(m) == TableOf(fs)
    ensures forall i: nat :: fs.HasTree(i) ==> m.HasTree(i) && m.Contents(i) == fs.Contents(i)
  {
    FsOkIs(fs);
    SameFiles(fs, m);
    assert forall i: nat :: IsDir(m, i) <==> IsDir(fs, i);
    TableSame(fs, m);
    FsOkIs(m);
  }

  lemma MountedIs(disk: seq<Block>, shape: Shape, fs: Fs, nextb: nat)
    requires Finished(disk, shape, fs, nextb) && fs.Valid() && fs.free == Rest(nextb, |disk|)
    ensures Mountable(disk) && |fs.blocks| == |disk|
    ensures Mounted(disk, fs.owner) == fs.(blocks := disk)
    ensures forall b :: fs.first <= b < |disk| ==> disk[b] == fs.blocks[b]
  {
    FinishedMounts(disk, shape, fs, nextb);
  }

  lemma ContainsKept(fs: Fs, m: Fs, files: seq<HostFile>)
    requires fs.Valid() && m.Valid() && m.inodes == fs.inodes && TableOf(m) == TableOf(fs)
    requires forall i: nat :: fs.HasTree(i) ==> m.HasTree(i) && m.Contents(i) == fs.Contents(i)
    requires Contains(fs, files, |files|) == true
    ensures Contains(m, files, |files|) == true
  {
    assert RootOpen(m);
    RootKept(fs, m, RootEntries(files, |files|), |files| + 2);
    FilesKept(fs, m, files);
  }

  lemma RootKept(fs: Fs, m: Fs, es: seq<Entry>, next: nat)
    requires fs.Valid() && m.Valid() && m.inodes == fs.inodes && TableOf(m) == TableOf(fs)
    requires IsDir(fs, ROOT_INO) && Packed(fs, ROOT_INO, es) && Allotted(fs, next)
    ensures IsDir(m, ROOT_INO) && (Packed(m, ROOT_INO, es) == true) && (Allotted(m, next) == true)
  {
    assert ROOT_INO in TableOf(fs) && ROOT_INO in TableOf(m);
  }

  lemma FilesKept(fs: Fs, m: Fs, files: seq<HostFile>)
    requires fs.Valid() && m.Valid() && m.inodes == fs.inodes && (HaveFiles(fs, files, |files|) == true)
    requires forall i: nat :: fs.HasTree(i) ==> m.HasTree(i) && m.Contents(i) == fs.Contents(i)
    ensures HaveFiles(m, files, |files|) == true
  {
    forall k: nat | k < |files| ensures HasFile(m, k + 2, files[k].data) {
      assert HasFile(fs, k + 2, files[k].data);
    }
  }

  /** The image that main makes mounts as a sound file system with exactly the files of the command line, whose free
      blocks are those that were not handed out. */
  lemma FormattedMounts(disk: seq<Block>, shape: Shape, fs: Fs, nextb: nat, files: seq<HostFile>)
    requires (Finished(disk, shape, fs, nextb) == true) && FsOk(fs) && (Contains(fs, files, |files|) == true)
    requires fs.free == Rest(nextb, |disk|)
    ensures Mountable(disk) && FsOk(Mounted(disk, fs.owner))
    ensures Contains(Mounted(disk, fs.owner), files, |files|) == true
    ensures Mounted(disk, fs.owner).free == Rest(nextb, |disk|) && Mounted(disk, fs.owner).inodes == fs.inodes
  {
    MountedIs(disk, shape, fs, nextb);
    MountedOk(fs, Mounted(disk, fs.owner));
    ContainsKept(fs, Mounted(disk, fs.owner), files);
  }

  lemma {:induction false} FirstWithName(files: seq<HostFile>, k: nat) returns (j: nat)
    requires k < |files|
    ensures j <= k && files[j].name == files[k].name && FirstFile(files, j)
  {
    if FirstFile(files, k) {
      return k;
    }
    var i: nat :| i < k && files[i].name == files[k].name;
    j := FirstWithName(files, i);
  }

  lemma LeadsTo(fs: Fs, files: seq<HostFile>, k: nat) returns (j: nat)
    requires fs.Valid() && k < |files| && (Contains(fs, files, |files|) == true)
    ensures IsDir(fs, ROOT_INO) && files[k].name in Dir(fs, ROOT_INO) && Dir(fs, ROOT_INO)[files[k].name] == j + 2
    ensures j <= k && files[j].name == files[k].name && FirstFile(files, j)
    ensures HasFile(fs, j + 2, files[j].data)
  {
    j := FirstWithName(files, k);
    NamesAre(fs, files, |files|, files[k].name);
  }

  /** Under each name of the command line the module finds the bytes of the first file that has it. */
  method ReadNamed(m: FileSystem.FileSystem, files: seq<HostFile>, k: nat)
    returns (r: int, buffer: seq<byte>, ghost j: nat)
    requires m.Coupled() && FsOk(m.State()) && k < |files|
    requires Contains(m.State(), files, |files|) == true
    ensures j <= k && FirstFile(files, j) && files[j].name == files[k].name
    ensures buffer == files[j].data && r == |buffer|
  {
    j := LeadsTo(m.State(), files, k);
    var found, i := FindDirentry(m, ROOT_INO, files[k].name);
    var e := LoadEntry(m, ROOT_INO, i);
    var newPos;
    r, buffer, newPos := m.Read(e.ino, 0, m.inodes[e.ino].size);
  }

  /** Format and mount: the module starts with the files of the command line. */
  method Boot(nblocks: nat, ninodes: nat, files: seq<HostFile>)
    returns (ok: bool, m: FileSystem.FileSystem?)
    ensures ok == Formats(nblocks, ninodes, files)
    ensures ok ==> m != null && fresh(m) && fresh(m.freemap) && fresh(m.freemap.words) && fresh(m.blocks)
                   && fresh(m.inodes) && m.Coupled() && FsOk(m.State())
                   && (Contains(m.State(), files, |files|) == true)
  {
    m := null;
    var disk;
    ghost var shape, fs, nextb;
    ok, disk, shape, fs, nextb := Format(nblocks, ninodes, files);
    if ok {
      FormattedMounts(disk, shape, fs, nextb, files);
      m := Mount.Mount(disk, fs.owner);
    }
  }

  /** Every file given to the formatter is read back whole by the module under its name, unless an earlier file has
      that name: then the bytes of the first one are read. */
  method ReadBack(nblocks: nat, ninodes: nat, files: seq<HostFile>, k: nat)
    returns (ok: bool, r: int, buffer: seq<byte>, ghost j: nat)
    requires k < |files|
    ensures ok == Formats(nblocks, ninodes, files)
    ensures ok ==> j <= k && FirstFile(files, j) && files[j].name == files[k].name
    ensures ok ==> buffer == files[j].data && r == |buffer|
    ensures ok && FirstFile(files, k) ==> buffer == files[k].data
  {
    r, buffer, j := 0, [], 0;
    var m;
    ok, m := Boot(nblocks, ninodes, files);
    if ok {
      r, buffer, j := ReadNamed(m, files, k);
    }
  }

  /** A run of requests on a freshly formatted image: it starts with the files of the command line, every request does
      what it should, and names are distinct, to begin with exactly when those of the files are, and then throughout. */
  method Live(nblocks: nat, ninodes: nat, files: seq<HostFile>, requests: seq<Request>)
    returns (ok: bool, m: FileSystem.FileSystem?, replies: seq<Reply>, ghost states: seq<Fs>)
    ensures ok == Formats(nblocks, ninodes, files)
    ensures ok ==>
      && m != null && m.Coupled() && FsOk(m.State()) && m.State().Trees()
      && |replies| == |requests| && IsRun(states, requests, replies)
      && FsOk(states[0]) && (Contains(states[0], files, |files|) == true) && states[|requests|] == m.State()
      && NamesDistinct(states[0]) == DistinctNames(files)
      && (DistinctNames(files) ==> NamesDistinct(m.State()))
  {
    replies, states := [], [];
    ok, m := Boot(nblocks, ninodes, files);
    if ok {
      AllNames(m.State(), files);
      replies, states := ServeAll(m, requests);
    }
  }
}
