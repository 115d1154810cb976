// Inodes of symbolic links: the text of the target lies over the words in
// which other inodes keep their mode and block pointers.
module Symlinks {
  import opened Words
  import opened Layout
  import opened DirEntries

  const MAXSYMLINKLEN := 51

  /** oi_symlink: the words from the mode on, as bytes. */
  function TextArea(oi: Inode): (bs: seq<byte>)
    ensures |bs| == MAXSYMLINKLEN + 1
  {
    Bytes([oi.mode] + oi.direct + [oi.indirect, oi.indirect2])
  }

  function WithTextArea(oi: Inode, bs: seq<byte>): Inode
    requires |bs| == MAXSYMLINKLEN + 1
  {
    var ws := Pack(bs);
    Inode(oi.size, oi.ftype, oi.nlink, ws[0], ws[1..11], ws[11], ws[12])
  }

  lemma TextAreaOf(oi: Inode, bs: seq<byte>)
    requires |bs| == MAXSYMLINKLEN + 1
    ensures TextArea(WithTextArea(oi, bs)) == bs
  {
    var ws := Pack(bs);
    assert [ws[0]] + ws[1..11] + [ws[11], ws[12]] == ws;
    BytesPack(bs);
  }

  /** What ospfs_follow_link passes on: a C string, as far as it lies within the inode. */
  function LinkTarget(oi: Inode): Name {
    CString(TextArea(oi))
  }

  /** What ospfs_symlink makes of an unused inode: the text is copied without a terminator. */
  function NewSymlink(oi: Inode, target: Name): Inode
    requires |target| <= MAXSYMLINKLEN
  {
    WithTextArea(oi, Splice(TextArea(oi), 0, target)).(size := |target|, ftype := FTYPE_SYMLINK, nlink := 1)
  }

  /** The link leads to its target exactly when the byte behind the text was 0 before; otherwise what the unused inode
      held there is read as part of the target. */
  lemma LinkLeadsTo(oi: Inode, target: Name)
    requires |target| <= MAXSYMLINKLEN
    ensures LinkTarget(NewSymlink(oi, target)) == target + CString(TextArea(oi)[|target|..])
    ensures LinkTarget(NewSymlink(oi, target)) == target <==> TextArea(oi)[|target|] == 0
    ensures var link := NewSymlink(oi, target);
      link.size == |target| && link.ftype == FTYPE_SYMLINK && link.nlink == 1
  {
    var bs, bs' := TextArea(oi), Splice(TextArea(oi), 0, target);
    TextAreaOf(oi, bs');
    assert TextArea(NewSymlink(oi, target)) == TextArea(WithTextArea(oi, bs'));
    assert bs' == target + bs[|target|..];
    CStringAppend(target, bs[|target|..]);
  }

  /** A link in an inode that is all zero, as the formatter leaves them, leads to its target. */
  lemma FreshLinkLeads(oi: Inode, target: Name)
    requires oi.mode == 0 && oi.direct == ZEROPOINTERS && oi.indirect == 0 && oi.indirect2 == 0
    requires |target| <= MAXSYMLINKLEN
    ensures LinkTarget(NewSymlink(oi, target)) == target
  {
    ZerosAsBytes([oi.mode] + oi.direct + [oi.indirect, oi.indirect2], |target|);
    LinkLeadsTo(oi, target);
  }
}
