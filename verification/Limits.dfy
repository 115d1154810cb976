// Where the limits are met in earnest: files past 266 blocks, which the
// formatter writes and the module then damages, two host files of one name,
// and a symbolic link in an inode that was used before.
module Limits {
  import opened Words
  import opened Layout
  import opened Image
  import opened BlockCalls
  import opened DirEntries
  import opened Namespace
  import opened DirOps
  import opened DirCalls
  import opened Symlinks
  import opened Copying
  import Mount
  import FileSystem
  import opened Directories
  import Formatter
  import opened FormatRun
  import opened Lifetime

  // One file of n blocks.
  function OneFile(n: nat): seq<HostFile> {
    [HostFile([65], seq(n * BLKSIZE, _ => 0))]
  }

  lemma OneFileFits(n: nat)
    requires 0 < n <= SINGLYINDIRECT + 1
    ensures Formats(1000, 20, OneFile(n))
    ensures Formatter.DataStart(20) + Used(OneFile(n), 1) < 900
  {
    var files := OneFile(n);
    LastBlock(n * BLKSIZE, n, 0);
    CostIs(n);
    DataSlotIs(0);
    assert EntryCost(0) == 1;
    assert Used(files, 1) == Used(files, 0) + EntryCost(0) + Cost(BlocksOf(|files[0].data|));
    assert FileFits(files, 0, 1000 - Formatter.DataStart(20), 20);
  }

  // The mounted image with that file as inode 2.
  method MountOneFile(n: nat) returns (m: FileSystem.FileSystem)
    requires 0 < n <= SINGLYINDIRECT + 1
    ensures m.Coupled() && FsOk(m.State()) && m.State().HasTree(2) && m.State().N(2) == n
    ensures forall b :: 900 <= b < 1000 ==> b in m.State().free
    ensures |m.State().inodes| == 20 && (Contains(m.State(), OneFile(n), 1) == true)
    ensures fresh(m) && fresh(m.freemap) && fresh(m.freemap.words) && fresh(m.blocks) && fresh(m.inodes)
  {
    var files := OneFile(n);
    OneFileFits(n);
    var ok, disk;
    ghost var shape, fs, nextb;
    ok, disk, shape, fs, nextb := Format(1000, 20, files);
    FormattedMounts(disk, shape, fs, nextb, files);
    m := Mount.Mount(disk, fs.owner);
    assert |files| == 1;
    OneFileThere(m.State(), n);
  }

  lemma OneFileThere(fs: Fs, n: nat)
    requires 0 < n <= SINGLYINDIRECT + 1 && fs.Valid() && (Contains(fs, OneFile(n), 1) == true)
    ensures fs.HasTree(2) && fs.N(2) == n
  {
    assert HasFile(fs, 0 + 2, OneFile(n)[0].data);
    Size2NBlocksIsCeiling(n * BLKSIZE);
  }

  /** A file of 266 blocks on a disk with a hundred free blocks: add_block does not make it one block longer. */
  method AddPastLimit() returns (r: int, ghost fs: Fs, ghost fs': Fs)
    ensures fs.Valid() && fs.HasTree(2) && fs.N(2) == SINGLYINDIRECT && forall b :: 900 <= b < 1000 ==> b in fs.free
    ensures AddOutcome(fs, fs', 2, r) && !(r == 0 && Grown(fs, fs', 2))
  {
    var m := MountOneFile(SINGLYINDIRECT);
    fs := m.State();
    fs.ValidIs();
    TreesAreInRange(fs, 2);
    r := m.AddBlock(2);
    fs' := m.State();
    AddBlockExact(fs, fs', 2, r);
  }

  /** A file of 267 blocks, which the formatter writes and the module reads: remove_block reports success, and has not
      undone one add_block. */
  method RemovePastLimit() returns (r: int, ghost fs: Fs, ghost fs': Fs)
    ensures fs.Valid() && fs.HasTree(2) && fs.N(2) == SINGLYINDIRECT + 1
    ensures RemoveOutcome(fs, fs', 2, r) && r == 0 && !Grown(fs', fs, 2)
  {
    var m := MountOneFile(SINGLYINDIRECT + 1);
    fs := m.State();
    fs.ValidIs();
    TreesAreInRange(fs, 2);
    r := m.RemoveBlock(2);
    fs' := m.State();
    RemoveBlockExact(fs, fs', 2, r);
  }

  // Two files of one byte each, with the same name.
  function SameNames(): seq<HostFile> {
    [HostFile([65], [1]), HostFile([65], [2])]
  }

  lemma SameNamesFit()
    ensures Formats(1000, 20, SameNames()) && !DistinctNames(SameNames())
  {
    var files := SameNames();
    CostIs(1);
    DataSlotIs(0);
    assert Used(files, 1) == Used(files, 0) + EntryCost(0) + Cost(BlocksOf(|files[0].data|));
    assert FileFits(files, 0, 1000 - Formatter.DataStart(20), 20);
    assert FileFits(files, 1, 1000 - Formatter.DataStart(20), 20);
    assert FirstFit(files, 1, 1000 - Formatter.DataStart(20), 20);
    assert files[0].name == files[1].name;
  }

  /** The formatter takes two host files of one name without complaint, and the directory has the name twice: it leads
      to the first file until that is unlinked, and is still there afterwards. */
  method NameTwice() returns (ghost fs: Fs, ghost fs': Fs)
    ensures FsOk(fs) && !NamesDistinct(fs) && IsDir(fs, ROOT_INO) && [65] in Dir(fs, ROOT_INO)
    ensures fs.HasTree(Dir(fs, ROOT_INO)[[65]]) && fs.Contents(Dir(fs, ROOT_INO)[[65]]) == [1]
    ensures FsOk(fs') && IsDir(fs', ROOT_INO) && [65] in Dir(fs', ROOT_INO)
    ensures UnlinkResult(fs, fs', ROOT_INO, [65], 2, 0)
    ensures Dir(fs', ROOT_INO)[[65]] == 3
  {
    var files := SameNames();
    SameNamesFit();
    var ok, disk;
    ghost var shape, image, nextb;
    ok, disk, shape, image, nextb := Format(1000, 20, files);
    FormattedMounts(disk, shape, image, nextb, files);
    var m := Mount.Mount(disk, image.owner);
    fs := m.State();
    AllNames(fs, files);
    ghost var j := LeadsTo(fs, files, 0);
    TwiceInRoot(fs, files);
    var r := Unlink(m, ROOT_INO, [65], 2);
    fs' := m.State();
    SecondComesOut(fs, fs', files);
  }

  lemma SecondComesOut(fs: Fs, fs': Fs, files: seq<HostFile>)
    requires fs.Valid() && fs'.Valid() && |files| == 2 && files[0].name == files[1].name
    requires (Contains(fs, files, 2) == true) && IsDir(fs', ROOT_INO)
    requires Unlinked(fs, fs', ROOT_INO, files[0].name, 2)
    ensures files[0].name in Dir(fs', ROOT_INO) && Dir(fs', ROOT_INO)[files[0].name] == 3
  {
    var all, all', name := Slots(fs, ROOT_INO), Slots(fs', ROOT_INO), files[0].name;
    TwiceInRoot(fs, files);
    var k: nat :| FirstNamed(all, k, name) && all' == all[k := Entry(0, name)];
    assert all[1] == all[..2][1] == RootEntries(files, 2)[1];
    SecondIsFirst(all, all', k, name);
  }

  lemma SecondIsFirst(es: seq<Entry>, es': seq<Entry>, k: nat, name: Name)
    requires 2 <= |es| && IsNamed(es, 0, name) && IsNamed(es, 1, name)
    requires FirstNamed(es, k, name) && es' == es[k := Entry(0, name)]
    ensures name in Binding(es') && Binding(es')[name] == es[1].ino
  {
    assert FirstNamed(es', 1, name) by {
      assert k == 0 && !IsNamed(es', 0, name) && IsNamed(es', 1, name);
    }
    BindingAt(es', 1, name);
  }

  lemma TwiceInRoot(fs: Fs, files: seq<HostFile>)
    requires fs.Valid() && |files| == 2 && files[0].name == files[1].name && (Contains(fs, files, 2) == true)
    ensures IsDir(fs, ROOT_INO) && Twice(Slots(fs, ROOT_INO), files[0].name) && 2 <= |Slots(fs, ROOT_INO)|
    ensures IsNamed(Slots(fs, ROOT_INO), 0, files[0].name) && IsNamed(Slots(fs, ROOT_INO), 1, files[0].name)
  {
    var all := Slots(fs, ROOT_INO);
    assert all[0] == all[..2][0] == RootEntries(files, 2)[0] && all[1] == all[..2][1] == RootEntries(files, 2)[1];
    assert IsNamed(all, 0, files[0].name) && IsNamed(all, 1, files[0].name);
  }

  lemma RootWithBlank(fs: Fs, n: nat)
    requires fs.Valid() && |fs.inodes| == 20 && (Contains(fs, OneFile(n), 1) == true)
    ensures IsDir(fs, ROOT_INO) && !NoBlank(Slots(fs, ROOT_INO)) && FirstUnused(fs, 3)
    ensures [66] !in Dir(fs, ROOT_INO) && [67] !in Dir(fs, ROOT_INO)
  {
    var all := Slots(fs, ROOT_INO);
    assert all[|all| - 1].ino == 0 && all[|all| - 1] in all;
    NamesAre(fs, OneFile(n), 1, [66]);
    NamesAre(fs, OneFile(n), 1, [67]);
  }

  lemma StaysBlank(fs: Fs, fs': Fs, d: nat, name: Name, i: nat)
    requires fs.Valid() && fs'.Valid() && (Unlinked(fs, fs', d, name, i) == true) && IsDir(fs', d)
    ensures !NoBlank(Slots(fs', d))
  {
    var k: nat :| FirstNamed(Slots(fs, d), k, name) && Slots(fs', d) == Slots(fs, d)[k := Entry(0, name)];
    assert Slots(fs', d)[k] in Slots(fs', d);
  }

  const USEDINODE := EMPTYFILE.(mode := 0x1B6, nlink := 0)

  // Inode 3 is the next to be used, and the root directory can take the name [67].
  ghost predicate Vacant(fs: Fs) {
    && FsOk(fs) && IsDir(fs, ROOT_INO) && FirstUnused(fs, 3)
    && !NoBlank(Slots(fs, ROOT_INO)) && [67] !in Dir(fs, ROOT_INO)
  }

  // A file is created and unlinked: inode 3 is unused again, with the mode that it was given.
  method UsedBefore(m: FileSystem.FileSystem)
    requires m.Coupled() && FsOk(m.State()) && |m.State().inodes| == 20
    requires Contains(m.State(), OneFile(1), 1) == true
    modifies m`owner, m.freemap, m.freemap.words, m.blocks, m.inodes
    ensures m.Coupled() && (Vacant(m.State()) == true) && |m.State().inodes| == 20
    ensures m.State().inodes[3] == USEDINODE
  {
    ghost var fs := m.State();
    RootWithBlank(fs, 1);
    var r := Create(m, ROOT_INO, [66], 0x1B6);
    ghost var fs1 := m.State();
    CreatedThird(fs, fs1, r);
    r := Unlink(m, ROOT_INO, [66], 3);
    VacantAgain(fs, fs1, m.State(), r);
  }

  lemma VacantAgain(fs: Fs, fs1: Fs, fs2: Fs, r: int)
    requires FsOk(fs) && FsOk(fs1) && FsOk(fs2) && FirstUnused(fs, 3) && IsDir(fs, ROOT_INO) && IsDir(fs1, ROOT_INO)
    requires [67] !in Dir(fs, ROOT_INO) && [66] !in Dir(fs, ROOT_INO)
    requires Created(fs, fs1, ROOT_INO, [66], 3, EMPTYFILE.(mode := 0x1B6)) == true
    requires UnlinkResult(fs1, fs2, ROOT_INO, [66], 3, r) == true
    ensures (Vacant(fs2) == true) && |fs2.inodes| == |fs.inodes| && fs2.inodes[3] == USEDINODE
  {
    NameGone(fs, fs1, fs2);
    StaysBlank(fs1, fs2, ROOT_INO, [66], 3);
    UnusedAgain(fs, fs1, fs2);
  }

  lemma NameGone(fs: Fs, fs1: Fs, fs2: Fs)
    requires fs.Valid() && fs1.Valid() && fs2.Valid() && IsDir(fs, ROOT_INO) && [67] !in Dir(fs, ROOT_INO)
    requires [66] !in Dir(fs, ROOT_INO) && (NameBound(fs, fs1, ROOT_INO, [66], 3) == true)
    requires NameUnbound(fs1, fs2, ROOT_INO, [66]) == true
    ensures IsDir(fs2, ROOT_INO) && [67] !in Dir(fs2, ROOT_INO)
  {
    assert [67] !in Dir(fs1, ROOT_INO) - {[66]};
  }

  lemma UnusedAgain(fs: Fs, fs1: Fs, fs2: Fs)
    requires fs.Valid() && fs1.Valid() && FirstUnused(fs, 3) && (RestKept(fs, fs1, ROOT_INO, 3) == true)
    requires fs1.inodes[3] == EMPTYFILE.(mode := 0x1B6)
    requires fs2.inodes == fs1.inodes[3 := fs1.inodes[3].(nlink := fs1.inodes[3].nlink - 1)]
    ensures FirstUnused(fs2, 3) && |fs2.inodes| == |fs.inodes| && fs2.inodes[3] == USEDINODE
  {
    assert fs2.inodes[2] == fs1.inodes[2] == fs.inodes[2];
  }

  lemma CreatedThird(fs: Fs, fs1: Fs, r: int)
    requires FsOk(fs) && fs1.Valid() && IsDir(fs, ROOT_INO) && FirstUnused(fs, 3) && !NoBlank(Slots(fs, ROOT_INO))
    requires [66] !in Dir(fs, ROOT_INO) && CreateResult(fs, fs1, ROOT_INO, [66], 0x1B6, r)
    ensures r == 0 && Created(fs, fs1, ROOT_INO, [66], 3, EMPTYFILE.(mode := 0x1B6)) == true
  {
    assert !AllUsed(fs);
  }

  // A symbolic link to the one-letter path [97] in inode 3.
  method LinkOver(m: FileSystem.FileSystem)
    requires m.Coupled() && (Vacant(m.State()) == true) && m.State().inodes[3] == USEDINODE
    modifies m`owner, m.freemap, m.freemap.words, m.blocks, m.inodes
    ensures m.Coupled() && m.State().Valid() && |m.State().inodes| == |old(m.State()).inodes|
    ensures Created(old(m.State()), m.State(), ROOT_INO, [67], 3, NewSymlink(USEDINODE, [97])) == true
    ensures LinkTarget(m.State().inodes[3]) != [97]
  {
    ghost var fs := m.State();
    var r := Symlink(m, ROOT_INO, [67], [97]);
    LinkedThird(fs, m.State(), r);
    StaleText(m.State().inodes[3], [97]);
  }

  lemma LinkedThird(fs: Fs, fs1: Fs, r: int)
    requires fs1.Valid() && Vacant(fs) && SymlinkResult(fs, fs1, ROOT_INO, [67], [97], r)
    ensures |fs1.inodes| == |fs.inodes|
    ensures Created(fs, fs1, ROOT_INO, [67], 3, NewSymlink(fs.inodes[3], [97])) == true
  {
    assert !AllUsed(fs);
  }

  /** A symbolic link to [97], made in an inode that a file had before, leads somewhere else. */
  method StaleTarget() returns (ghost fs: Fs, ghost fs': Fs)
    ensures (Vacant(fs) == true) && fs.inodes[3] == USEDINODE && fs'.Valid() && |fs'.inodes| == |fs.inodes|
    ensures Created(fs, fs', ROOT_INO, [67], 3, NewSymlink(USEDINODE, [97])) == true
    ensures LinkTarget(fs'.inodes[3]) != [97]
  {
    var m := MountOneFile(1);
    UsedBefore(m);
    fs := m.State();
    LinkOver(m);
    fs' := m.State();
  }

  // The second byte of the mode is not 0.
  lemma StaleText(oi: Inode, target: Name)
    requires |target| == 1 && oi == NewSymlink(USEDINODE, target)
    ensures LinkTarget(oi) != target
  {
    LinkLeadsTo(USEDINODE, target);
    assert Encode(0x1B6)[1] == 1;
    assert TextArea(USEDINODE)[1] == 1;
  }
}
