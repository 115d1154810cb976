// Whole sessions: any sequence of requests to a mounted file system.
module Session {
  import opened Words
  import opened Layout
  import opened Image
  import opened Resize
  import opened BlockCalls
  import opened FileData
  import opened DirEntries
  import opened Namespace
  import opened DirOps
  import opened DirCalls
  import opened Symlinks
  import opened FileSystem
  import opened Directories

  datatype Request =
    | DoLookup(d: nat, name: Name)
    | DoRead(i: nat, pos: nat, count: nat)
    | DoCreate(d: nat, name: Name, mode: uint32)
    | DoLink(src: nat, d: nat, name: Name)
    | DoSymlink(d: nat, name: Name, target: Name)
    | DoFollow(i: nat)
    | DoUnlink(d: nat, name: Name)
    | DoWrite(i: nat, append: bool, buffer: seq<byte>, pos: nat)
    | DoResize(i: nat, newSize: uint32)
    | DoSetMode(i: nat, mode: uint32)

  // The result, and the bytes read or the target of a link.
  datatype Reply = Reply(r: int, buffer: seq<byte>)

  // ----- which requests are served, and what they do

  // The VFS looks inodes up and checks what they are before it calls the module.
  predicate IsFile(fs: Fs, i: nat) {
    2 <= i < |fs.inodes| && fs.inodes[i].ftype != FTYPE_DIR
  }

  ghost predicate CanHold(fs: Fs, d: nat)
    requires fs.Valid()
  {
    IsDir(fs, d) && Roomy(fs, d)
  }

  predicate HasBytes(fs: Fs, i: nat) {
    fs.HasTree(i) && fs.inodes[i].ftype != FTYPE_DIR
  }

  /** Requests within the limits of the module: directories and files that add_block can build, link counts that do
      not wrap, and positions and counts that the VFS allows. */
  ghost predicate Admitted(fs: Fs, req: Request)
    requires fs.Valid()
  {
    match req
    case DoLookup(d, name) => IsDir(fs, d)
    case DoRead(i, pos, count) => fs.HasTree(i) && pos < 0x8000_0000 && count < 0x8000_0000
    case DoCreate(d, name, mode) => CanHold(fs, d)
    case DoLink(src, d, name) => CanHold(fs, d) && IsFile(fs, src) && fs.inodes[src].nlink < TWO32 - 1
    case DoSymlink(d, name, target) => CanHold(fs, d) && fs.inodes[d].nlink < TWO32 - 1
    case DoFollow(i) => i < |fs.inodes| && fs.inodes[i].ftype == FTYPE_SYMLINK
    case DoUnlink(d, name) => IsDir(fs, d) && (name in Dir(fs, d) ==> IsFile(fs, Dir(fs, d)[name]))
    case DoWrite(i, append, buffer, pos) =>
      HasBytes(fs, i) && Growable(fs, i, WriteStart(fs, i, append, pos) + |buffer|)
    case DoResize(i, newSize) =>
      HasBytes(fs, i) && newSize <= TWO32 - BLKSIZE && SoundPath(fs.N(i), Size2NBlocks(newSize))
    case DoSetMode(i, mode) => fs.HasTree(i)
  }

  /** What change_size does to the bytes of file i, and to nothing else. */
  ghost predicate ResizeDone(fs: Fs, fs': Fs, i: nat, newSize: uint32, r: int)
    requires fs.Valid() && fs'.Valid() && fs.HasTree(i)
  {
    && r == ResizeResult(fs.N(i), Size2NBlocks(newSize), |fs.free|)
    && fs'.HasTree(i) && Resized(fs, fs', i) && OtherFilesKept(fs, fs', i)
    && (r == 0 ==> fs'.inodes[i].size == newSize)
    && (r == -ENOSPC ==> Restored(fs, fs', i))
    && Agree(fs.Contents(i), fs'.Contents(i))
  }

  /** Reading changes nothing, and gives the bytes that the file has at that moment. */
  ghost predicate ReadResult(fs: Fs, fs': Fs, i: nat, pos: nat, count: nat, reply: Reply)
    requires fs.Valid() && fs.HasTree(i)
  {
    var text := fs.Contents(i);
    && fs' == fs
    && (if pos > |text| then reply == Reply(-EIO, [])
        else reply == Reply(if pos + count > |text| then |text| - pos else count,
                            text[pos..if pos + count > |text| then |text| else pos + count]))
  }

  /** What an admitted request does. */
  ghost predicate Done(fs: Fs, fs': Fs, req: Request, reply: Reply)
    requires FsOk(fs) && fs'.Valid() && Admitted(fs, req)
  {
    var r := reply.r;
    match req
    case DoLookup(d, name) =>
      && fs' == fs
      && r == if |name| > MAXNAMELEN then -ENAMETOOLONG else if name in Dir(fs, d) then Dir(fs, d)[name] else 0
    case DoRead(i, pos, count) => ReadResult(fs, fs', i, pos, count, reply)
    case DoCreate(d, name, mode) => CreateResult(fs, fs', d, name, mode, r)
    case DoLink(src, d, name) => src < TWO32 && LinkResult(fs, fs', d, name, src, r)
    case DoSymlink(d, name, target) => SymlinkResult(fs, fs', d, name, target, r)
    case DoFollow(i) => fs' == fs && r == 0 && reply.buffer == LinkTarget(fs.inodes[i])
    case DoUnlink(d, name) => UnlinkResult(fs, fs', d, name, if name in Dir(fs, d) then Dir(fs, d)[name] else 0, r)
    case DoWrite(i, append, buffer, pos) =>
      fs'.HasTree(i) && WriteResult(fs, fs', i, WriteStart(fs, i, append, pos), buffer, r)
    case DoResize(i, newSize) => ResizeDone(fs, fs', i, newSize, r)
    case DoSetMode(i, mode) => r == 0 && ModeSet(fs, fs', i, Some(mode))
  }

  /** Other requests are refused and change nothing. Distinct names stay distinct. */
  ghost predicate Served(fs: Fs, fs': Fs, req: Request, reply: Reply) {
    && FsOk(fs) && FsOk(fs') && (NamesDistinct(fs) ==> NamesDistinct(fs'))
    && (if Admitted(fs, req) then Done(fs, fs', req, reply) else reply.r == -EPERM && fs' == fs)
  }

  /** A change to one file that is no directory keeps the invariant. */
  lemma FileChanged(fs: Fs, fs': Fs, i: nat)
    requires FsOk(fs) && fs'.Valid() && fs.HasTree(i) && !IsDir(fs, i)
    requires InodesKept(fs, fs', i) && OtherFilesKept(fs, fs', i)
    ensures FsOk(fs') && TableOf(fs') == TableOf(fs)
  {
    FsOkIs(fs);
    FsOkIs(fs');
    assert forall j: nat :: IsDir(fs', j) <==> IsDir(fs, j);
    TableSame(fs, fs');
  }

  lemma ResizeKeepsInvariant(fs: Fs, fs': Fs, i: nat, newSize: uint32, r: int)
    requires FsOk(fs) && fs.HasTree(i) && !IsDir(fs, i) && newSize <= TWO32 - BLKSIZE
    requires SoundPath(fs.N(i), Size2NBlocks(newSize)) && ChangeSizeOutcome(fs, fs', i, newSize, r)
    ensures FsOk(fs') && TableOf(fs') == TableOf(fs) && ResizeDone(fs, fs', i, newSize, r)
  {
    ChangeSizeExact(fs, fs', i, newSize, r);
    ResizedContents(fs, fs', i);
    FileChanged(fs, fs', i);
  }

  lemma ModeKeepsInvariant(fs: Fs, fs': Fs, i: nat, mode: uint32)
    requires FsOk(fs) && i < |fs.inodes| && ModeSet(fs, fs', i, Some(mode))
    ensures FsOk(fs') && TableOf(fs') == TableOf(fs)
    ensures forall j: nat :: fs.HasTree(j) ==> fs'.HasTree(j) && fs'.Contents(j) == fs.Contents(j)
  {
    MetaChanged(fs, fs', i);
    FsOkIs(fs);
    FsOkIs(fs');
  }

  // ----- serving them

  method HasRoom(m: FileSystem, d: nat) returns (roomy: bool)
    requires m.Coupled() && FsOk(m.State()) && IsDir(m.State(), d)
    ensures roomy <==> Roomy(m.State(), d)
  {
    roomy := Size2NBlocks(m.inodes[d].size) < SINGLYINDIRECT;
    if !roomy {
      var k;
      roomy, k := FindBlank(m, d);
      assert roomy ==> Slots(m.State(), d)[k] in Slots(m.State(), d);
    }
  }

  method ServeEntry(m: FileSystem, req: Request) returns (r: int)
    requires m.Coupled() && FsOk(m.State()) && (req.DoCreate? || req.DoLink? || req.DoSymlink?)
    modifies m`owner, m.freemap, m.freemap.words, m.blocks, m.inodes
    ensures m.Coupled() && Served(old(m.State()), m.State(), req, Reply(r, []))
  {
    r := -EPERM;
    var d := req.d;
    if d >= m.inodes.Length || m.inodes[d].ftype != FTYPE_DIR {
      return;
    }
    var roomy := HasRoom(m, d);
    if roomy {
      match req {
        case DoCreate(_, name, mode) =>
          r := Create(m, d, name, mode);
        case DoLink(src, _, name) =>
          if 2 <= src < m.inodes.Length && m.inodes[src].ftype != FTYPE_DIR && m.inodes[src].nlink < TWO32 - 1 {
            r := Link(m, src, d, name);
          }
        case DoSymlink(_, name, target) =>
          if m.inodes[d].nlink < TWO32 - 1 {
            r := Symlink(m, d, name, target);
          }
      }
    }
  }

  method ServeUnlink(m: FileSystem, d: nat, name: Name) returns (r: int)
    requires m.Coupled() && FsOk(m.State())
    modifies m.blocks, m.inodes
    ensures m.Coupled() && Served(old(m.State()), m.State(), DoUnlink(d, name), Reply(r, []))
  {
    r := -EPERM;
    if d < m.inodes.Length && m.inodes[d].ftype == FTYPE_DIR {
      var found, k := FindDirentry(m, d, name);
      if !found {
        return -ENOENT;
      }
      var e := LoadEntry(m, d, k);
      if 2 <= e.ino < m.inodes.Length && m.inodes[e.ino].ftype != FTYPE_DIR {
        r := Unlink(m, d, name, e.ino);
      }
    }
  }

  method ServeWrite(m: FileSystem, i: nat, append: bool, buffer: seq<byte>, pos: nat) returns (r: int)
    requires m.Coupled() && FsOk(m.State())
    modifies m`owner, m.freemap, m.freemap.words, m.blocks, m.inodes
    ensures m.Coupled() && Served(old(m.State()), m.State(), DoWrite(i, append, buffer, pos), Reply(r, []))
  {
    r := -EPERM;
    ghost var fs := m.State();
    if i < m.inodes.Length && m.inodes[i].ftype != FTYPE_DIR && m.inodes[i].ftype != FTYPE_SYMLINK {
      var end := (if append then m.inodes[i].size else pos) + |buffer|;
      if end <= m.inodes[i].size || end <= Size2NBlocks(m.inodes[i].size) * BLKSIZE || end <= SINGLYINDIRECT * BLKSIZE {
        var newPos;
        r, newPos := m.Write(i, append, buffer, pos);
        FileChanged(fs, m.State(), i);
      }
    }
  }

  method ServeResize(m: FileSystem, i: nat, newSize: uint32) returns (r: int)
    requires m.Coupled() && FsOk(m.State())
    modifies m`owner, m.freemap, m.freemap.words, m.blocks, m.inodes
    ensures m.Coupled() && Served(old(m.State()), m.State(), DoResize(i, newSize), Reply(r, []))
  {
    r := -EPERM;
    ghost var fs := m.State();
    if i < m.inodes.Length && m.inodes[i].ftype != FTYPE_DIR && m.inodes[i].ftype != FTYPE_SYMLINK
       && newSize <= TWO32 - BLKSIZE && SoundPath(Size2NBlocks(m.inodes[i].size), Size2NBlocks(newSize)) {
      ghost var mid, q;
      r, mid, q := NotifyChange(m, i, Some(newSize), None, 0);
      if q >= 0 {
        NoModeSet(mid, m.State(), i);
      }
      ResizeKeepsInvariant(fs, mid, i, newSize, q);
    }
  }

  method ServeSetMode(m: FileSystem, i: nat, mode: uint32) returns (r: int)
    requires m.Coupled() && FsOk(m.State())
    modifies m`owner, m.freemap, m.freemap.words, m.blocks, m.inodes
    ensures m.Coupled() && Served(old(m.State()), m.State(), DoSetMode(i, mode), Reply(r, []))
  {
    r := -EPERM;
    ghost var fs := m.State();
    if i < m.inodes.Length && m.inodes[i].ftype != FTYPE_SYMLINK {
      ghost var mid, q;
      r, mid, q := NotifyChange(m, i, None, Some(mode), 0);
      ModeKeepsInvariant(fs, m.State(), i, mode);
    }
  }

  method ServeQuery(m: FileSystem, req: Request) returns (reply: Reply)
    requires m.Coupled() && FsOk(m.State()) && (req.DoLookup? || req.DoRead? || req.DoFollow?)
    ensures Served(m.State(), m.State(), req, reply)
  {
    match req {
      case DoLookup(d, name) =>
        if d < m.inodes.Length && m.inodes[d].ftype == FTYPE_DIR {
          var r := Lookup(m, d, name);
          return Reply(r, []);
        }
      case DoRead(i, pos, count) =>
        if i < m.inodes.Length && m.inodes[i].ftype != FTYPE_SYMLINK && pos < 0x8000_0000 && count < 0x8000_0000 {
          var r, buffer, newPos := m.Read(i, pos, count);
          return Reply(r, buffer);
        }
      case DoFollow(i) =>
        if i < m.inodes.Length && m.inodes[i].ftype == FTYPE_SYMLINK {
          return Reply(0, LinkTarget(m.inodes[i]));
        }
    }
    return Reply(-EPERM, []);
  }

  method Serve(m: FileSystem, req: Request) returns (reply: Reply)
    requires m.Coupled() && FsOk(m.State())
    modifies m`owner, m.freemap, m.freemap.words, m.blocks, m.inodes
    ensures m.Coupled() && Served(old(m.State()), m.State(), req, reply)
  {
    var r;
    match req {
      case DoUnlink(d, name) =>
        r := ServeUnlink(m, d, name);
      case DoWrite(i, append, buffer, pos) =>
        r := ServeWrite(m, i, append, buffer, pos);
      case DoResize(i, newSize) =>
        r := ServeResize(m, i, newSize);
      case DoSetMode(i, mode) =>
        r := ServeSetMode(m, i, mode);
      case DoCreate(_, _, _) =>
        r := ServeEntry(m, req);
      case DoLink(_, _, _) =>
        r := ServeEntry(m, req);
      case DoSymlink(_, _, _) =>
        r := ServeEntry(m, req);
      case _ =>
        reply := ServeQuery(m, req);
        return;
    }
    reply := Reply(r, []);
  }

  /** The states of a run: every request leads from one to the next as it should. */
  ghost predicate IsRun(states: seq<Fs>, requests: seq<Request>, replies: seq<Reply>) {
    && |states| == |replies| + 1 && |replies| <= |requests|
    && forall k :: 0 <= k < |replies| ==> Served(states[k], states[k + 1], requests[k], replies[k])
  }

  lemma RunGrows(states: seq<Fs>, requests: seq<Request>, replies: seq<Reply>, fs': Fs, r: Reply)
    requires IsRun(states, requests, replies) && |replies| < |requests|
    requires Served(states[|replies|], fs', requests[|replies|], r) == true
    ensures IsRun(states + [fs'], requests, replies + [r]) == true
  {
    var states', replies' := states + [fs'], replies + [r];
    forall k | 0 <= k < |replies'| ensures Served(states'[k], states'[k + 1], requests[k], replies'[k]) == true {
      if k < |replies| {
        assert Served(states[k], states[k + 1], requests[k], replies[k]) == true;
      }
    }
  }

  /** Over every sequence of requests: each does what it should, and block safety and link counts that agree with the
      entries hold throughout, as do distinct names if the run starts with them. */
  method ServeAll(m: FileSystem, requests: seq<Request>) returns (replies: seq<Reply>, ghost states: seq<Fs>)
    requires m.Coupled() && FsOk(m.State())
    modifies m`owner, m.freemap, m.freemap.words, m.blocks, m.inodes
    ensures |replies| == |requests| && IsRun(states, requests, replies)
    ensures states[0] == old(m.State()) && states[|requests|] == m.State()
    ensures m.Coupled() && FsOk(m.State()) && m.State().Trees()
    ensures NamesDistinct(states[0]) ==> NamesDistinct(m.State())
  {
    replies, states := [], [m.State()];
    while |replies| < |requests|
      invariant m.Coupled() && FsOk(m.State()) && IsRun(states, requests, replies)
      invariant states[0] == old(m.State()) && states[|replies|] == m.State()
      invariant NamesDistinct(states[0]) ==> NamesDistinct(m.State())
    {
      var r := Serve(m, requests[|replies|]);
      RunGrows(states, requests, replies, m.State(), r);
      replies, states := replies + [r], states + [m.State()];
    }
    m.State().ValidIs();
  }
}
