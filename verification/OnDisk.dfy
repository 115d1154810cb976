// The image that the formatter leaves, word by word, in the layout of ospfs.h:
// superblock, bitmap, inodes and directory entries.
module OnDisk {
  import opened Words
  import opened Freemap
  import opened Layout
  import opened Image
  import opened DirEntries
  import opened Namespace
  import opened DirOps
  import opened Storing
  import opened InodeTable
  import opened Mounting
  import opened Formatter
  import opened FormatFiles
  import opened WriteFiles
  import opened FormatRun

  // ----- bits

  lemma AtLeastOnce(d: nat, t: nat)
    requires t >= 1
    ensures d * t >= d
  {
  }

  lemma Quotient(w: nat, d: nat, q: nat, r: nat)
    requires w == d * q + r && r < d
    ensures w / d == q
  {
    var q', r' := w / d, w % d;
    assert d * (q - q') == r' - r;
    if q > q' {
      AtLeastOnce(d, q - q');
    } else if q < q' {
      AtLeastOnce(d, q' - q);
    }
  }

  lemma HalfFirst(w: nat, p: nat)
    requires p >= 1
    ensures w / 2 / p == w / (2 * p)
  {
    var h := w / 2;
    Quotient(w, 2 * p, h / p, 2 * (h % p) + w % 2);
  }

  /** Bit i of a word has the value 2^i. */
  lemma {:induction false} DigitValue(w: nat, i: nat)
    ensures TestDigit(w, i) <==> w / Pow2(i) % 2 == 1
  {
    if i > 0 {
      DigitValue(w / 2, i - 1);
      HalfFirst(w, Pow2(i - 1));
    }
  }

  // ----- words and bytes

  /** Word w of struct ospfs_inode number ino: 64 bytes each, from block 3 on. */
  function InodeWord(disk: seq<Block>, ino: nat, w: nat): uint32
    requires 3 + ino / 16 < |disk| && w < 16
  {
    disk[3 + ino / 16][16 * (ino % 16) + w]
  }

  /** oi_size, oi_ftype, oi_nlink, oi_mode, oi_direct, oi_indirect and oi_indirect2, in this order. */
  lemma InodeWords(disk: seq<Block>, shape: Shape, ino: nat, oi: Inode)
    requires shape.firstinob == 3 && shape.InodeBlock(ino) < |disk| && InodeAt(disk, shape, ino) == oi
    ensures InodeWord(disk, ino, 0) == oi.size && InodeWord(disk, ino, 1) == oi.ftype
    ensures InodeWord(disk, ino, 2) == oi.nlink && InodeWord(disk, ino, 3) == oi.mode
    ensures forall j :: 0 <= j < 10 ==> InodeWord(disk, ino, 4 + j) == oi.direct[j]
    ensures InodeWord(disk, ino, 14) == oi.indirect && InodeWord(disk, ino, 15) == oi.indirect2
  {
    var k := ino % 16;
    var ws := disk[3 + ino / 16][16 * k..16 * (k + 1)];
    assert oi == InodeOf(ws);
    assert forall j :: 0 <= j < 10 ==> ws[4..14][j] == ws[4 + j];
  }

  lemma {:induction false} CStringIs(bs: seq<byte>)
    ensures var n := CString(bs); bs[..|n|] == n && (|n| < |bs| ==> bs[|n|] == 0)
  {
    if bs != [] && bs[0] != 0 {
      CStringIs(bs[1..]);
      assert bs == [bs[0]] + bs[1..];
    }
  }

  /** An entry is its inode number, low-order byte first, and its name, with a NUL behind it if there is room. */
  lemma EntryLayout(bs: seq<byte>, k: nat, e: Entry)
    requires DIRENTRY_SIZE * (k + 1) <= |bs| && EntryAt(bs, k) == e && |e.name| < 124
    ensures bs[128 * k..128 * k + 4] == Encode(e.ino)
    ensures bs[128 * k + 4..128 * k + 4 + |e.name|] == e.name && bs[128 * k + 4 + |e.name|] == 0
  {
    EncodeDecode(bs[128 * k..128 * k + 4]);
    var text := bs[128 * k + 4..128 * k + 128];
    CStringIs(text);
    assert bs[128 * k + 4..128 * k + 4 + |e.name|] == text[..|e.name|];
  }

  // ----- the image of a command line

  /** The superblock, and one bit for each block, set for those not handed out. */
  lemma HeadOnDisk(disk: seq<Block>, shape: Shape, fs: Fs, nextb: nat)
    requires Finished(disk, shape, fs, nextb) && shape.firstinob == 3
    ensures disk[1][..4] == [0x013101AE, |disk|, |fs.inodes|, 3]
    ensures forall b: nat :: b < 8192 ==> (disk[2][b / 32] / Pow2(b % 32) % 2 == 1 <==> nextb <= b < |disk|)
  {
    forall b: nat | b < 8192 ensures disk[2][b / 32] / Pow2(b % 32) % 2 == 1 <==> nextb <= b < |disk| {
      FinalBit(nextb, |disk|, b);
      DigitValue(disk[2][b / 32], b % 32);
    }
  }

  /** Inode 1 is a directory with mode 0777, and inode k + 2 a regular file of the right length with mode 0666. */
  lemma InodesOnDisk(disk: seq<Block>, shape: Shape, fs: Fs, nextb: nat, files: seq<HostFile>, k: nat)
    requires Finished(disk, shape, fs, nextb) && shape.firstinob == 3
    requires FsOk(fs) && Contains(fs, files, |files|) && k < |files|
    ensures 3 + (k + 2) / 16 < |disk|
    ensures InodeWord(disk, 1, 1) == 1 && InodeWord(disk, 1, 2) == 1 && InodeWord(disk, 1, 3) == 0x1FF
    ensures InodeWord(disk, k + 2, 0) == |files[k].data| && InodeWord(disk, k + 2, 1) == 0
    ensures InodeWord(disk, k + 2, 2) == 1 && InodeWord(disk, k + 2, 3) == 0x1B6
  {
    assert HasFile(fs, k + 2, files[k].data);
    InodeWords(disk, shape, ROOT_INO, fs.inodes[ROOT_INO]);
    InodeWords(disk, shape, k + 2, fs.inodes[k + 2]);
  }

  /** Entry k of these bytes says k + 2 and the name of file k. */
  predicate EntryFor(bs: seq<byte>, k: nat, name: Name) {
    && k + 2 < TWO32 && |name| < 124 && 128 * k + 128 <= |bs|
    && bs[128 * k..128 * k + 4] == Encode(k + 2)
    && bs[128 * k + 4..128 * k + 4 + |name|] == name && bs[128 * k + 4 + |name|] == 0
  }

  lemma RootSlot(fs: Fs, files: seq<HostFile>, k: nat)
    requires FsOk(fs) && (Contains(fs, files, |files|) == true) && k < |files|
    ensures k + 2 < TWO32 && EntryIn(fs, ROOT_INO, k) && Slots(fs, ROOT_INO)[k] == Entry(k + 2, files[k].name)
  {
    RootPacked(fs, files, |files|);
    var all := Slots(fs, ROOT_INO);
    assert all[k] == all[..|files|][k] == RootEntries(files, |files|)[k];
  }

  lemma EntriesOnDisk(fs: Fs, files: seq<HostFile>, k: nat)
    requires FsOk(fs) && (Contains(fs, files, |files|) == true) && k < |files| && |files[k].name| < 124
    ensures IsDir(fs, ROOT_INO) && (EntryFor(fs.Contents(ROOT_INO), k, files[k].name) == true)
  {
    RootSlot(fs, files, k);
    EntryBytes(fs, ROOT_INO, k);
    EntryLayout(fs.Contents(ROOT_INO), k, Entry(k + 2, files[k].name));
  }
}
