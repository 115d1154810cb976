// What is left of a request once it is served: the inodes that create and
// symlink make, and the mode of a file over a whole session.
module SessionLaws {
  import opened Words
  import opened Layout
  import opened Image
  import opened Resize
  import opened BlockCalls
  import opened FileData
  import opened DirEntries
  import opened Namespace
  import opened DirOps
  import opened DirCalls
  import opened Symlinks
  import opened Directories
  import opened Session

  /** The name leads to an inode that was unused: now an empty regular file with one link and the mode asked for. */
  lemma CreateLeaves(fs: Fs, fs': Fs, d: nat, name: Name, mode: uint32, reply: Reply) returns (i: nat)
    requires Served(fs, fs', DoCreate(d, name, mode), reply) && Admitted(fs, DoCreate(d, name, mode)) && reply.r == 0
    ensures IsDir(fs', d) && name in Dir(fs', d) && Dir(fs', d)[name] == i
    ensures i < |fs.inodes| == |fs'.inodes| && fs.inodes[i].nlink == 0
    ensures fs'.inodes[i].mode == mode && fs'.inodes[i].nlink == 1
    ensures fs'.inodes[i].ftype == FTYPE_REG && fs'.HasTree(i) && fs'.Contents(i) == []
  {
    var j: uint32 :| FirstUnused(fs, j) && Created(fs, fs', d, name, j, EMPTYFILE.(mode := mode));
    i := j;
  }

  /** The name leads to an inode that was unused: now a link of the target's length, with the target's text in front
      of what the inode held behind it. */
  lemma SymlinkLeaves(fs: Fs, fs': Fs, d: nat, name: Name, target: Name, reply: Reply) returns (i: nat)
    requires Served(fs, fs', DoSymlink(d, name, target), reply) && Admitted(fs, DoSymlink(d, name, target))
    requires reply.r == 0
    ensures IsDir(fs', d) && name in Dir(fs', d) && Dir(fs', d)[name] == i && |target| <= MAXSYMLINKLEN
    ensures i < |fs.inodes| == |fs'.inodes| && fs.inodes[i].nlink == 0
    ensures fs'.inodes[i].ftype == FTYPE_SYMLINK && fs'.inodes[i].size == |target| && fs'.inodes[i].nlink == 1
    ensures LinkTarget(fs'.inodes[i]) == target + CString(TextArea(fs.inodes[i])[|target|..])
  {
    var j: uint32 :| FirstUnused(fs, j) && Created(fs, fs', d, name, j, NewSymlink(fs.inodes[j], target));
    i := j;
    LinkLeadsTo(fs.inodes[i], target);
  }

  predicate SetsMode(req: Request, i: nat) {
    req.DoSetMode? && req.i == i
  }

  /** No request but the one to set it changes the mode of an inode in use. */
  lemma ModeKept(fs: Fs, fs': Fs, req: Request, reply: Reply, i: nat)
    requires Served(fs, fs', req, reply) && !SetsMode(req, i)
    requires i < |fs.inodes| && fs.inodes[i].nlink > 0
    ensures |fs'.inodes| == |fs.inodes| && fs'.inodes[i].mode == fs.inodes[i].mode
  {
    if Admitted(fs, req) && fs' != fs {
      match req {
        case DoWrite(j, append, buffer, pos) =>
          assert InodesKept(fs, fs', j);
        case DoCreate(d, name, mode) =>
          EntryKeepsMode(fs, fs', req, reply, i);
        case DoSymlink(d, name, target) =>
          EntryKeepsMode(fs, fs', req, reply, i);
        case _ =>
      }
    }
  }

  // The new inode of create and symlink was not in use.
  lemma EntryKeepsMode(fs: Fs, fs': Fs, req: Request, reply: Reply, i: nat)
    requires (req.DoCreate? || req.DoSymlink?) && fs' != fs
    requires FsOk(fs) && fs'.Valid() && Admitted(fs, req) && Done(fs, fs', req, reply)
    requires i < |fs.inodes| && fs.inodes[i].nlink > 0
    ensures |fs'.inodes| == |fs.inodes| && fs'.inodes[i].mode == fs.inodes[i].mode
  {
    if req.DoCreate? {
      var j: uint32 :| FirstUnused(fs, j) && Created(fs, fs', req.d, req.name, j, EMPTYFILE.(mode := req.mode));
    } else {
      var j: uint32 :|
        FirstUnused(fs, j) && Created(fs, fs', req.d, req.name, j, NewSymlink(fs.inodes[j], req.target));
    }
  }

  /** In a run, a mode stays from state a to state b if nobody sets it and the inode is in use all the time. */
  lemma {:induction false} ModeStays(states: seq<Fs>, requests: seq<Request>, replies: seq<Reply>, a: nat, b: nat,
                                     i: nat)
    requires IsRun(states, requests, replies) && a <= b < |states| && i < |states[a].inodes|
    requires forall k :: a <= k < b ==>
      !SetsMode(requests[k], i) && (i < |states[k].inodes| ==> states[k].inodes[i].nlink > 0)
    ensures |states[b].inodes| == |states[a].inodes| && states[b].inodes[i].mode == states[a].inodes[i].mode
    decreases b - a
  {
    if a < b {
      assert Served(states[a], states[a + 1], requests[a], replies[a]) == true;
      ModeKept(states[a], states[a + 1], requests[a], replies[a], i);
      ModeStays(states, requests, replies, a + 1, b, i);
    }
  }

  /** A mode once set is the mode from then on, until it is set again or the last name of the file goes. */
  lemma SetModeLasts(states: seq<Fs>, requests: seq<Request>, replies: seq<Reply>, a: nat, b: nat, i: nat,
                     mode: uint32)
    requires IsRun(states, requests, replies) && a < b < |states| && requests[a] == DoSetMode(i, mode)
    requires states[a].HasTree(i)
    requires forall k :: a < k < b ==>
      !SetsMode(requests[k], i) && (i < |states[k].inodes| ==> states[k].inodes[i].nlink > 0)
    ensures replies[a].r == 0 && i < |states[b].inodes| && states[b].inodes[i].mode == mode
  {
    assert Served(states[a], states[a + 1], requests[a], replies[a]);
    assert Admitted(states[a], requests[a]);
    ModeStays(states, requests, replies, a + 1, b, i);
  }

  /** A new file has the mode asked for from then on, until it is set or the last name of the file goes. */
  lemma CreateModeLasts(states: seq<Fs>, requests: seq<Request>, replies: seq<Reply>, a: nat, b: nat,
                        d: nat, name: Name, mode: uint32)
    returns (i: nat)
    requires IsRun(states, requests, replies) && a < b < |states| && requests[a] == DoCreate(d, name, mode)
    requires FsOk(states[a]) && Admitted(states[a], requests[a]) && replies[a].r == 0
    ensures IsDir(states[a + 1], d) && name in Dir(states[a + 1], d) && Dir(states[a + 1], d)[name] == i
    ensures (forall k :: a < k < b ==>
               !SetsMode(requests[k], i) && (i < |states[k].inodes| ==> states[k].inodes[i].nlink > 0)) ==>
            i < |states[b].inodes| && states[b].inodes[i].mode == mode
  {
    assert Served(states[a], states[a + 1], requests[a], replies[a]);
    i := CreateLeaves(states[a], states[a + 1], d, name, mode, replies[a]);
    if forall k :: a < k < b ==>
         !SetsMode(requests[k], i) && (i < |states[k].inodes| ==> states[k].inodes[i].nlink > 0) {
      ModeStays(states, requests, replies, a + 1, b, i);
    }
  }

  // ----- bytes

  /** The buffer stands at its place in a byte string that is longer by what was needed; other bytes stay. */
  predicate PutAt(was: seq<byte>, now: seq<byte>, start: nat, buffer: seq<byte>) {
    var end := start + |buffer|;
    && |now| == (if end > |was| then end else |was|) && now[start..end] == buffer
    && forall k :: 0 <= k < |was| && !(start <= k < end) ==> now[k] == was[k]
  }

  lemma PutBehind(was: seq<byte>, now: seq<byte>, buffer: seq<byte>)
    requires PutAt(was, now, |was|, buffer)
    ensures now == was + buffer
  {
    assert now[..|was|] == was;
    assert now == now[..|was|] + now[|was|..];
  }

  lemma WrittenIsPut(fs: Fs, fs': Fs, i: nat, start: nat, buffer: seq<byte>, r: int)
    requires fs.Valid() && fs'.Valid() && fs.HasTree(i) && fs'.HasTree(i) && WriteResult(fs, fs', i, start, buffer, r)
    ensures r >= 0 ==> r == |buffer| && PutAt(fs.Contents(i), fs'.Contents(i), start, buffer)
  {
  }

  /** What a successful write leaves: with O_APPEND the buffer stands behind the bytes that were there, otherwise at the
      position given. */
  lemma WriteLeaves(fs: Fs, fs': Fs, i: nat, append: bool, buffer: seq<byte>, pos: nat, reply: Reply)
    requires Served(fs, fs', DoWrite(i, append, buffer, pos), reply) && Admitted(fs, DoWrite(i, append, buffer, pos))
    requires reply.r >= 0
    ensures reply.r == |buffer| && fs'.HasTree(i)
    ensures append ==> fs'.Contents(i) == fs.Contents(i) + buffer
    ensures !append ==> PutAt(fs.Contents(i), fs'.Contents(i), pos, buffer)
  {
    WrittenIsPut(fs, fs', i, WriteStart(fs, i, append, pos), buffer, reply.r);
    if append {
      PutBehind(fs.Contents(i), fs'.Contents(i), buffer);
    }
  }

  /** The bytes of a regular file in use: only writing and resizing it change them. */
  predicate ChangesBytes(req: Request, i: nat) {
    (req.DoWrite? || req.DoResize?) && req.i == i
  }

  ghost predicate InUse(fs: Fs, i: nat) {
    fs.HasTree(i) && fs.inodes[i].ftype != FTYPE_DIR && fs.inodes[i].nlink > 0
  }

  lemma BytesKept(fs: Fs, fs': Fs, req: Request, reply: Reply, i: nat)
    requires Served(fs, fs', req, reply) && !ChangesBytes(req, i) && InUse(fs, i)
    ensures fs'.HasTree(i) && fs'.Contents(i) == fs.Contents(i)
  {
    if Admitted(fs, req) && fs' != fs {
      match req {
        case DoCreate(_, _, _) =>
          EntryKeepsBytes(fs, fs', req, reply, i);
        case DoSymlink(_, _, _) =>
          EntryKeepsBytes(fs, fs', req, reply, i);
        case DoSetMode(j, mode) =>
          ModeKeepsInvariant(fs, fs', j, mode);
        case _ =>
      }
    }
  }

  lemma EntryKeepsBytes(fs: Fs, fs': Fs, req: Request, reply: Reply, i: nat)
    requires (req.DoCreate? || req.DoSymlink?) && fs' != fs
    requires FsOk(fs) && fs'.Valid() && Admitted(fs, req) && Done(fs, fs', req, reply) && InUse(fs, i)
    ensures fs'.HasTree(i) && fs'.Contents(i) == fs.Contents(i)
  {
    if req.DoCreate? {
      var j: uint32 :| FirstUnused(fs, j) && Created(fs, fs', req.d, req.name, j, EMPTYFILE.(mode := req.mode));
    } else {
      var j: uint32 :|
        FirstUnused(fs, j) && Created(fs, fs', req.d, req.name, j, NewSymlink(fs.inodes[j], req.target));
    }
  }

  lemma {:induction false} BytesStay(states: seq<Fs>, requests: seq<Request>, replies: seq<Reply>, a: nat, b: nat,
                                     i: nat)
    requires IsRun(states, requests, replies) && a <= b < |states| && FsOk(states[a]) && states[a].HasTree(i)
    requires forall k :: a <= k < b ==> !ChangesBytes(requests[k], i) && InUse(states[k], i)
    ensures FsOk(states[b]) && states[b].HasTree(i) && states[b].Contents(i) == states[a].Contents(i)
    decreases b - a
  {
    if a < b {
      assert Served(states[a], states[a + 1], requests[a], replies[a]) == true;
      BytesKept(states[a], states[a + 1], requests[a], replies[a], i);
      BytesStay(states, requests, replies, a + 1, b, i);
    }
  }

  /** Over a run: what is written is what is read, later on, at the same place, as long as nobody writes to the file or
      resizes it, and it keeps a name. */
  lemma WriteThenRead(states: seq<Fs>, requests: seq<Request>, replies: seq<Reply>, a: nat, b: nat, i: nat,
                      buffer: seq<byte>, pos: nat)
    requires IsRun(states, requests, replies) && a < b < |replies| && pos < 0x8000_0000 && |buffer| < 0x8000_0000
    requires requests[a] == DoWrite(i, false, buffer, pos) && requests[b] == DoRead(i, pos, |buffer|)
    requires FsOk(states[a]) && Admitted(states[a], requests[a]) && replies[a].r >= 0
    requires forall k :: a < k < b ==> !ChangesBytes(requests[k], i) && InUse(states[k], i)
    ensures replies[b] == Reply(|buffer|, buffer)
  {
    assert Served(states[a], states[a + 1], requests[a], replies[a]);
    WriteLeaves(states[a], states[a + 1], i, false, buffer, pos, replies[a]);
    BytesStay(states, requests, replies, a + 1, b, i);
    assert Served(states[b], states[b + 1], requests[b], replies[b]);
  }
}
