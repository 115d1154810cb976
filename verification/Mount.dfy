// From a finished image to a mounted file system.
module Mount {
  import opened Words
  import opened Freemap
  import opened Layout
  import opened Image
  import opened InodeTable
  import opened Mounting
  import FileSystem

  /** The module's view of an image: bitmap, blocks and inodes where the superblock says they are. */
  method Mount(disk: seq<Block>, ghost owner: map<nat, Owner>) returns (m: FileSystem.FileSystem)
    requires Mountable(disk)
    ensures m.Coupled() && m.State() == Mounted(disk, owner)
    ensures fresh(m) && fresh(m.freemap) && fresh(m.freemap.words) && fresh(m.blocks) && fresh(m.inodes)
  {
    var shape := Placement(disk);
    var freemap := new FreeMap.FromWords(disk[2]);
    var table := Table(disk, shape);
    var blocks := new Block[|disk|](b requires 0 <= b < |disk| => disk[b]);
    var inodes := new Inode[|table|](i requires 0 <= i < |table| => table[i]);
    m := new FileSystem.FileSystem(shape.first, freemap, blocks, inodes, owner);
    assert m.State().free == FreeBits(disk[2]);
    assert blocks[..] == disk && inodes[..] == table;
  }

  /** A file that the formatter wrote is read back whole by the module. */
  method ReadFormatted(disk: seq<Block>, shape: Shape, ghost fs: Fs, ghost nextb: nat, i: nat, count: nat)
    returns (r: int, buffer: seq<byte>)
    requires Finished(disk, shape, fs, nextb) && fs.Valid() && fs.HasTree(i)
    requires forall b :: b in fs.free <==> nextb <= b < |disk|
    requires fs.inodes[i].size <= count < 0x8000_0000
    ensures r == |buffer| && buffer == fs.Contents(i)
  {
    FormatMounts(disk, shape, fs, nextb);
    FinishedMounts(disk, shape, fs, nextb);
    var m := Mount(disk, fs.owner);
    var newPos;
    r, buffer, newPos := m.Read(i, 0, count);
  }
}
