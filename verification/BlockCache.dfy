// The formatter's write-back block cache: sixteen entries in front of the
// disk image, least recently used out first, pinned blocks never out.
module BlockCache {
  import opened Layout

  const CACHESIZE := 16

  datatype BlockType = SUPER | DIR | FILE | BITS | INODES

  // 'busy' counts the getblk calls not yet matched by putblk; 'used' is the time of the last getblk, 0 for never.
  datatype Entry = Entry(bno: nat, typ: BlockType, busy: nat, used: nat, data: Block)

  // What static storage starts as: note that its block number is that of a real block.
  const UNUSED := Entry(0, SUPER, 0, 0, ZEROBLOCK)

  // Abort: the C program ends.
  datatype Result = Got(slot: nat) | Abort

  // The cache and the image behind it. The last four fields describe them: how many entries are used, which entry
  // has which block, the plain array of blocks that users of the cache see, and the blocks they hold.
  datatype State = State(disk: seq<Block>, cache: seq<Entry>, clock: nat,
                         filled: nat, at: map<nat, nat>, view: seq<Block>, pins: multiset<nat>)
  {
    ghost predicate Valid() {
      && |cache| == CACHESIZE && |view| == |disk| && filled <= CACHESIZE
      && (forall i :: 0 <= i < CACHESIZE ==> EntryOk(i))
      && (forall b :: b in at ==> at[b] < filled && cache[at[b]].bno == b)
      && (forall b :: 0 <= b < |disk| && b !in at ==> view[b] == disk[b])
      && (forall b :: b in pins ==> b in at)
      // While there are unused entries, taking one of them for block 0 does no harm.
      && (filled < CACHESIZE && 0 !in at && |disk| > 0 ==> disk[0] == ZEROBLOCK)
    }

    // Used entries come first.
    ghost predicate EntryOk(i: nat)
      requires i < |cache| && |view| == |disk|
    {
      if i < filled then InUse(i) else cache[i] == UNUSED
    }

    /** Entry i is the only one with its block, and has what users last put there. */
    ghost predicate InUse(i: nat)
      requires i < |cache| && |view| == |disk|
    {
      var e := cache[i];
      && 0 < e.used <= clock
      && e.bno < |disk| && e.bno in at && at[e.bno] == i
      && e.data == view[e.bno] && e.busy == pins[e.bno]
    }

    /** No entry has the block, and every entry is pinned. */
    ghost predicate Full(bno: nat) {
      forall i :: 0 <= i < |cache| ==> cache[i].bno != bno && cache[i].busy > 0
    }

    /** The block is held as a block of another type. */
    ghost predicate Clash(bno: nat, typ: BlockType) {
      exists i :: 0 <= i < |cache| && cache[i].bno == bno && cache[i].busy > 0 && cache[i].typ != typ
    }

    /** Entry i is the first with block bno. */
    ghost predicate Hit(i: nat, bno: nat) {
      i < |cache| && cache[i].bno == bno && forall k :: 0 <= k < i ==> cache[k].bno != bno
    }

    ghost predicate Missing(bno: nat) {
      forall i :: 0 <= i < |cache| ==> cache[i].bno != bno
    }

    /** Entry i is the first of the least recently used ones that nobody holds. */
    ghost predicate Victim(i: nat) {
      && i < |cache| && cache[i].busy == 0
      && (forall k :: 0 <= k < |cache| && cache[k].busy == 0 ==> cache[i].used <= cache[k].used)
      && (forall k :: 0 <= k < i && cache[k].busy == 0 ==> cache[i].used < cache[k].used)
    }
  }

  /** Validity, closed: SoundIs opens it. */
  ghost predicate Sound(s: State) {
    SoundAfter(1 + s.clock, s)
  }

  ghost predicate SoundAfter(n: nat, s: State)
    decreases n
  {
    if n == 0 then s.Valid() else SoundAfter(n - 1, s)
  }

  lemma SoundIs(s: State)
    ensures Sound(s) <==> s.Valid()
  {
    SoundAfterIs(1 + s.clock, s);
  }

  lemma {:induction false} SoundAfterIs(n: nat, s: State)
    ensures SoundAfter(n, s) <==> s.Valid()
    decreases n
  {
    if n > 0 {
      SoundAfterIs(n - 1, s);
    }
  }

  // ----- the steps of getblk

  /** Write entry i back if it is used, and read block bno into it. */
  ghost function Loaded(s: State, i: nat, bno: nat, typ: BlockType): State
    requires i < |s.cache| && bno < |s.disk| && (s.cache[i].used > 0 ==> s.cache[i].bno < |s.disk|)
  {
    var e := s.cache[i];
    var disk := if e.used > 0 then s.disk[e.bno := e.data] else s.disk;
    s.(disk := disk, cache := s.cache[i := Entry(bno, typ, 0, e.used, disk[bno])])
  }

  /** Entry i is in use for block bno from now on, pinned once more, and zeroed if 'clr'. */
  ghost function Touched(s: State, i: nat, bno: nat, clr: bool, typ: BlockType): State
    requires i < |s.cache| && bno < |s.view|
  {
    var e := s.cache[i];
    s.(clock := s.clock + 1,
       cache := s.cache[i := Entry(bno, typ, e.busy + 1, s.clock + 1, if clr then ZEROBLOCK else e.data)],
       filled := if i == s.filled then s.filled + 1 else s.filled,
       at := (map b | b in s.at && s.at[b] != i :: s.at[b])[bno := i],
       view := if clr then s.view[bno := ZEROBLOCK] else s.view,
       pins := s.pins + multiset{bno})
  }

  /** What getblk promises, as a relation: a read of block bno in the plain array, the block pinned, nothing else
      moved. */
  ghost predicate Fetched(s: State, s': State, i: nat, bno: nat, clr: bool, typ: BlockType) {
    && Sound(s') && i < CACHESIZE && bno < |s.view| == |s'.view| && |s.cache| == |s'.cache| == CACHESIZE
    && s'.view == (if clr then s.view[bno := ZEROBLOCK] else s.view)
    && s'.pins == s.pins + multiset{bno}
    && s'.cache[i] == Entry(bno, typ, s'.pins[bno], s.clock + 1, s'.view[bno])
    && (forall k :: 0 <= k < CACHESIZE && k != i ==> s'.cache[k] == s.cache[k])
    && (s.cache[i].bno != bno ==> s.Victim(i))
    && |s'.disk| == |s.disk|
  }

  lemma UnusedFirst(s: State, i: nat)
    requires s.Valid() && s.Victim(i)
    ensures i <= s.filled && (i < s.filled ==> s.filled == CACHESIZE)
  {
    if s.filled < CACHESIZE {
      assert s.EntryOk(s.filled);
      assert s.EntryOk(i);
    }
  }

  lemma HitWorks(s: State, i: nat, bno: nat, clr: bool, typ: BlockType)
    requires s.Valid() && s.Hit(i, bno) && bno < |s.disk|
    ensures Fetched(s, Touched(s, i, bno, clr, typ), i, bno, clr, typ)
  {
    HitIsKnown(s, i, bno);
    HitEntries(s, i, bno, clr, typ);
    HitImage(s, i, bno, clr, typ);
    SoundIs(Touched(s, i, bno, clr, typ));
    assert s.EntryOk(i);
  }

  lemma HitImage(s: State, i: nat, bno: nat, clr: bool, typ: BlockType)
    requires s.Valid() && s.Hit(i, bno) && bno < |s.disk|
    requires i < s.filled ==> bno in s.at && s.at[bno] == i
    requires i >= s.filled ==>
               i == s.filled && bno == 0 && bno !in s.at && s.cache[i].data == s.view[bno] && bno !in s.pins
    ensures var s' := Touched(s, i, bno, clr, typ);
      && (forall b :: b in s'.at ==> s'.at[b] < s'.filled <= CACHESIZE == |s'.cache| && s'.cache[s'.at[b]].bno == b)
      && (forall b :: 0 <= b < |s'.disk| && b !in s'.at ==> s'.view[b] == s'.disk[b])
      && (forall b :: b in s'.pins ==> b in s'.at)
      && (s'.filled < CACHESIZE && 0 !in s'.at && |s'.disk| > 0 ==> s'.disk[0] == ZEROBLOCK)
  {
  }

  lemma HitEntries(s: State, i: nat, bno: nat, clr: bool, typ: BlockType)
    requires s.Valid() && s.Hit(i, bno) && bno < |s.disk|
    requires i < s.filled ==> bno in s.at && s.at[bno] == i
    requires i >= s.filled ==>
               i == s.filled && bno == 0 && bno !in s.at && s.cache[i].data == s.view[bno] && bno !in s.pins
    ensures var s' := Touched(s, i, bno, clr, typ);
      |s'.cache| == CACHESIZE && |s'.view| == |s'.disk| && forall k :: 0 <= k < CACHESIZE ==> s'.EntryOk(k)
  {
    var s' := Touched(s, i, bno, clr, typ);
    assert s.EntryOk(i);
    forall k | 0 <= k < CACHESIZE ensures s'.EntryOk(k) {
      assert s.EntryOk(k);
    }
  }

  /** A block number found in the scan is that of a used entry, or it is 0 and found in the first unused entry. */
  lemma HitIsKnown(s: State, i: nat, bno: nat)
    requires s.Valid() && s.Hit(i, bno) && bno < |s.disk|
    ensures i < s.filled ==> bno in s.at && s.at[bno] == i
    ensures i >= s.filled ==>
              i == s.filled && bno == 0 && bno !in s.at && s.cache[i].data == s.view[bno] && bno !in s.pins
  {
    assert s.EntryOk(i);
    if i >= s.filled {
      assert s.EntryOk(s.filled);
    }
  }

  /** Only the entry that the scan finds can clash. */
  lemma ClashIsHit(s: State, i: nat, bno: nat, typ: BlockType)
    requires s.Valid() && s.Hit(i, bno)
    ensures s.Clash(bno, typ) <==> s.cache[i].busy > 0 && s.cache[i].typ != typ
  {
    assert s.EntryOk(i);
    forall k | 0 <= k < CACHESIZE && s.cache[k].bno == bno && s.cache[k].busy > 0
      ensures k == i
    {
      assert s.EntryOk(k);
    }
  }

  lemma MissWorks(s: State, i: nat, bno: nat, clr: bool, typ: BlockType)
    requires s.Valid() && s.Missing(bno) && s.Victim(i) && bno < |s.disk|
    ensures s.cache[i].used > 0 ==> s.cache[i].bno < |s.disk|
    ensures Fetched(s, Touched(Loaded(s, i, bno, typ), i, bno, clr, typ), i, bno, clr, typ)
  {
    VictimIsLoose(s, i, bno);
    MissIsSound(s, i, bno, clr, typ);
  }

  lemma MissIsSound(s: State, i: nat, bno: nat, clr: bool, typ: BlockType)
    requires s.Valid() && s.Missing(bno) && s.Victim(i) && bno < |s.disk|
    ensures s.cache[i].used > 0 ==> s.cache[i].bno < |s.disk|
    ensures Sound(Touched(Loaded(s, i, bno, typ), i, bno, clr, typ))
  {
    VictimIsLoose(s, i, bno);
    MissEntries(s, i, bno, clr, typ);
    MissImage(s, i, bno, clr, typ);
    SoundIs(Touched(Loaded(s, i, bno, typ), i, bno, clr, typ));
  }

  lemma VictimIsLoose(s: State, i: nat, bno: nat)
    requires s.Valid() && s.Missing(bno) && s.Victim(i) && bno < |s.disk|
    ensures i <= s.filled && (i < s.filled ==> s.filled == CACHESIZE)
    ensures if i < s.filled then s.InUse(i) && s.cache[i].bno !in s.pins else s.cache[i] == UNUSED
    ensures bno !in s.at && bno !in s.pins
  {
    UnusedFirst(s, i);
    assert s.EntryOk(i);
    assert i < s.filled ==> s.pins[s.cache[i].bno] == 0;
  }

  lemma MissEntries(s: State, i: nat, bno: nat, clr: bool, typ: BlockType)
    requires s.Valid() && s.Missing(bno) && s.Victim(i) && bno < |s.disk|
    requires i <= s.filled && (i < s.filled ==> s.filled == CACHESIZE)
    requires s.EntryOk(i)
    requires bno !in s.at && bno !in s.pins
    ensures var s' := Touched(Loaded(s, i, bno, typ), i, bno, clr, typ);
      && |s'.cache| == CACHESIZE
      && forall k :: 0 <= k < CACHESIZE ==> s'.EntryOk(k)
  {
    var s1 := Loaded(s, i, bno, typ);
    var s' := Touched(s1, i, bno, clr, typ);
    assert s1.disk[bno] == s.view[bno];
    forall k | 0 <= k < CACHESIZE
      ensures s'.EntryOk(k)
    {
      assert s.EntryOk(k);
    }
  }

  lemma MissImage(s: State, i: nat, bno: nat, clr: bool, typ: BlockType)
    requires s.Valid() && s.Missing(bno) && i < CACHESIZE && bno < |s.disk|
    requires i <= s.filled && (i < s.filled ==> s.filled == CACHESIZE)
    requires if i < s.filled then s.InUse(i) && s.cache[i].bno !in s.pins else s.cache[i] == UNUSED
    requires bno !in s.at && bno !in s.pins
    ensures var s' := Touched(Loaded(s, i, bno, typ), i, bno, clr, typ);
      && |s'.disk| == |s.disk| == |s'.view|
      && (forall b :: b in s'.at ==> s'.at[b] < s'.filled <= CACHESIZE == |s'.cache| && s'.cache[s'.at[b]].bno == b)
      && (forall b :: 0 <= b < |s'.disk| && b !in s'.at ==> s'.view[b] == s'.disk[b])
      && (forall b :: b in s'.pins ==> b in s'.at)
      && (s'.filled < CACHESIZE && 0 !in s'.at && |s'.disk| > 0 ==> s'.disk[0] == ZEROBLOCK)
  {
    var s' := Touched(Loaded(s, i, bno, typ), i, bno, clr, typ);
    forall b | 0 <= b < |s'.disk| && b !in s'.at ensures s'.view[b] == s'.disk[b] {
      assert b in s.at ==> s.at[b] == i;
    }
  }

  // ----- holding blocks

  /** Entry i is block bno, held by a user as a block of type typ. */
  ghost predicate Holds(s: State, i: nat, bno: nat, typ: BlockType) {
    i < |s.cache| && s.cache[i].bno == bno && s.cache[i].typ == typ && s.cache[i].busy > 0
  }

  /** A held block stays in its entry, and is not retyped, whatever getblk is asked for. */
  lemma HeldStays(s: State, s': State, i: nat, bno: nat, clr: bool, typ: BlockType, h: nat, b: nat, t: BlockType)
    requires Sound(s) && !s.Clash(bno, typ) && Fetched(s, s', i, bno, clr, typ) && Holds(s, h, b, t)
    ensures Holds(s', h, b, t)
  {
    SoundIs(s);
    SoundIs(s');
    assert s.EntryOk(h);
    assert s'.EntryOk(h);
    assert s'.EntryOk(i);
  }

  /** What a user reads through its pointer is what the plain array holds. */
  lemma HeldData(s: State, h: nat, b: nat, t: BlockType)
    requires Sound(s) && Holds(s, h, b, t)
    ensures b < |s.view| && s.cache[h].data == s.view[b] && b in s.pins
  {
    SoundIs(s);
    assert s.EntryOk(h);
  }

  /** A block is in one entry only, so one that is held has one type. */
  lemma HeldOnce(s: State, h: nat, b: nat, t: BlockType)
    requires Sound(s) && Holds(s, h, b, t)
    ensures !s.Clash(b, t)
  {
    SoundIs(s);
    assert s.EntryOk(h);
    forall i | 0 <= i < |s.cache| && s.cache[i].bno == b && s.cache[i].busy > 0 ensures i == h {
      assert s.EntryOk(i);
    }
  }

  lemma HeldCount(s: State, h: nat, b: nat, t: BlockType)
    requires Sound(s) && Holds(s, h, b, t)
    ensures s.pins[b] == s.cache[h].busy
  {
    SoundIs(s);
    assert s.EntryOk(h);
  }

  lemma NotHeld(s: State, b: nat, t: BlockType)
    requires Sound(s) && b !in s.pins
    ensures !s.Clash(b, t)
  {
    SoundIs(s);
    forall i | 0 <= i < |s.cache| && s.cache[i].bno == b ensures s.cache[i].busy == 0 {
      assert s.EntryOk(i);
    }
  }

  ghost function Released(s: State, i: nat): State
    requires i < |s.cache| && s.cache[i].busy > 0
  {
    s.(cache := s.cache[i := s.cache[i].(busy := s.cache[i].busy - 1)], pins := s.pins - multiset{s.cache[i].bno})
  }

  lemma ReleaseWorks(s: State, i: nat)
    requires Sound(s) && i < |s.cache| && s.cache[i].busy > 0
    ensures Sound(Released(s, i))
  {
    var s' := Released(s, i);
    SoundIs(s);
    SoundIs(s');
    assert s.EntryOk(i);
    forall k | 0 <= k < CACHESIZE ensures s'.EntryOk(k) {
      assert s.EntryOk(k);
    }
  }

  ghost function Changed(s: State, i: nat, data: Block): State
    requires i < |s.cache| && s.cache[i].bno < |s.view|
  {
    s.(cache := s.cache[i := s.cache[i].(data := data)], view := s.view[s.cache[i].bno := data])
  }

  lemma ChangeWorks(s: State, i: nat, data: Block)
    requires Sound(s) && i < |s.cache| && s.cache[i].busy > 0
    ensures s.cache[i].bno < |s.view| && Sound(Changed(s, i, data))
  {
    SoundIs(s);
    assert s.EntryOk(i);
    var s' := Changed(s, i, data);
    SoundIs(s');
    forall k | 0 <= k < CACHESIZE ensures s'.EntryOk(k) {
      assert s.EntryOk(k);
    }
    forall b | 0 <= b < |s'.disk| && b !in s'.at ensures s'.view[b] == s'.disk[b] {
    }
  }

  /** A user that holds fewer than sixteen blocks is never turned away. */
  lemma RoomLeft(s: State, bno: nat)
    requires Sound(s) && |s.pins| < CACHESIZE
    ensures !s.Full(bno)
  {
    SoundIs(s);
    if forall i :: 0 <= i < CACHESIZE ==> s.cache[i].busy > 0 {
      var held := HeldBlocks(s, CACHESIZE);
      MoreThan(held, s.pins);
      assert false;
    }
  }

  lemma MoreThan(held: set<nat>, pins: multiset<nat>)
    requires forall b :: b in held ==> b in pins
    ensures |held| <= |pins|
  {
    assert multiset(held) <= pins;
    assert pins == multiset(held) + (pins - multiset(held));
  }

  ghost function HeldBlocks(s: State, n: nat): (held: set<nat>)
    requires s.Valid() && n <= CACHESIZE
    requires forall i :: 0 <= i < CACHESIZE ==> s.cache[i].busy > 0
    ensures |held| == n
    ensures forall b :: b in held ==> b in s.pins && b in s.at && s.at[b] < n
  {
    if n == 0 then {}
    else
      assert s.EntryOk(n - 1);
      HeldBlocks(s, n - 1) + {s.cache[n - 1].bno}
  }

  // ----- the cache itself

  class Cache {
    const disk: array<Block>
    const cache: array<Entry>
    var clock: nat
    ghost var filled: nat
    ghost var at: map<nat, nat>
    ghost var view: seq<Block>
    ghost var pins: multiset<nat>

    ghost function Now(): State
      reads this, disk, cache
    {
      State(disk[..], cache[..], clock, filled, at, view, pins)
    }

    ghost predicate Valid()
      reads this, disk, cache
    {
      Sound(Now())
    }

    /** An empty cache in front of an image of 'n' zeroed blocks. */
    constructor (n: nat)
      ensures Valid() && fresh(disk) && fresh(cache)
      ensures disk.Length == n && cache.Length == CACHESIZE && view == seq(n, _ => ZEROBLOCK) && pins == multiset{}
    {
      disk := new Block[n](_ => ZEROBLOCK);
      cache := new Entry[CACHESIZE](_ => UNUSED);
      clock, filled, at, view, pins := 1, 0, map[], seq(n, _ => ZEROBLOCK), multiset{};
      new;
      SoundIs(Now());
    }

    // The scan of getblk: the first entry for the block, or the first least recently used one that is free.
    method Find(bno: nat) returns (hit: bool, least: int)
      requires cache.Length == CACHESIZE
      ensures -1 <= least && (hit ==> 0 <= least && Now().Hit(least, bno))
      ensures !hit ==> Now().Missing(bno)
      ensures !hit && least == -1 ==> forall i :: 0 <= i < CACHESIZE ==> cache[i].busy > 0
      ensures !hit && least >= 0 ==> Now().Victim(least)
    {
      least := -1;
      var i := 0;
      while i < CACHESIZE
        invariant 0 <= i <= CACHESIZE
        invariant forall k :: 0 <= k < i ==> cache[k].bno != bno
        invariant -1 <= least
        invariant least == -1 ==> forall k :: 0 <= k < i ==> cache[k].busy > 0
        invariant least >= 0 ==>
                    && least < i && cache[least].busy == 0
                    && (forall k :: 0 <= k < i && cache[k].busy == 0 ==> cache[least].used <= cache[k].used)
                    && (forall k :: 0 <= k < least && cache[k].busy == 0 ==> cache[least].used < cache[k].used)
      {
        if cache[i].bno == bno {
          return true, i;
        }
        if cache[i].busy == 0 && (least == -1 || cache[i].used < cache[least].used) {
          least := i;
        }
        i := i + 1;
      }
      return false, least;
    }

    /** getblk: block 'bno', pinned, zeroed if 'clr'. It aborts past the end of the disk, when every entry is held,
        and when the block is held as a block of another type; otherwise it is a read of a plain array of blocks. */
    method Getblk(bno: nat, clr: bool, typ: BlockType) returns (r: Result)
      requires Valid()
      modifies this, cache, disk
      ensures r.Abort? <==> bno >= disk.Length || old(Now().Full(bno)) || old(Now().Clash(bno, typ))
      ensures r.Got? ==> Fetched(old(Now()), Now(), r.slot, bno, clr, typ)
    {
      ghost var s := Now();
      SoundIs(s);
      if bno >= disk.Length {
        return Abort;
      }
      var hit, least := Find(bno);
      if !hit {
        if least == -1 {
          assert s.Full(bno);
          return Abort;
        }
        MissWorks(s, least, bno, clr, typ);
        Load(least, bno, typ);
      } else {
        HitWorks(s, least, bno, clr, typ);
        ClashIsHit(s, least, bno, typ);
      }
      var ok := Use(least, bno, clr, typ);
      return if ok then Got(least) else Abort;
    }

    // The end of getblk, from its label 'out' on; false when the assertion on types fails.
    method Use(i: nat, bno: nat, clr: bool, typ: BlockType) returns (ok: bool)
      requires i < cache.Length && cache[i].bno == bno < |view|
      modifies this, cache
      ensures ok <==> old(cache[i].busy) == 0 || old(cache[i].typ) == typ
      ensures ok ==> Now() == Touched(old(Now()), i, bno, clr, typ)
    {
      clock := clock + 1;
      cache[i] := cache[i].(used := clock, busy := cache[i].busy + 1, data := if clr then ZEROBLOCK else cache[i].data);
      if !(cache[i].typ == typ || cache[i].busy == 1) {
        return false;
      }
      cache[i] := cache[i].(typ := typ);
      ghost var s' := Touched(old(Now()), i, bno, clr, typ);
      view, pins, at, filled := s'.view, s'.pins, s'.at, s'.filled;
      assert cache[..] == s'.cache;
      return true;
    }

    // The miss part of getblk: the victim is written back, and the block read into its entry.
    method Load(i: nat, bno: nat, typ: BlockType)
      requires i < cache.Length && bno < disk.Length && (cache[i].used > 0 ==> cache[i].bno < disk.Length)
      modifies cache, disk
      ensures Now() == Loaded(old(Now()), i, bno, typ)
    {
      if cache[i].used != 0 {
        Flush(i);
      }
      cache[i] := Entry(bno, typ, 0, cache[i].used, disk[bno]);
    }

    // flushb: entry i is written back.
    method Flush(i: nat)
      requires i < cache.Length && cache[i].bno < disk.Length
      modifies disk
      ensures Now() == old(Now()).(disk := old(disk[..])[cache[i].bno := cache[i].data])
    {
      disk[cache[i].bno] := cache[i].data;
    }

    /** putblk: the user lets go of a block. */
    method Putblk(slot: nat)
      requires Valid() && slot < cache.Length && cache[slot].busy > 0
      modifies this`pins, cache
      ensures Valid() && Now() == Released(old(Now()), slot)
    {
      ReleaseWorks(Now(), slot);
      cache[slot] := cache[slot].(busy := cache[slot].busy - 1);
      pins := pins - multiset{cache[slot].bno};
      assert Now() == Released(old(Now()), slot);
    }

    /** A user's assignment through the pointer that getblk gave it. */
    method Modify(slot: nat, data: Block)
      requires Valid() && slot < cache.Length && cache[slot].busy > 0
      modifies this`view, cache
      ensures old(cache[slot].bno) < |old(view)|
      ensures Valid() && Now() == Changed(old(Now()), slot, data)
    {
      ChangeWorks(Now(), slot, data);
      cache[slot] := cache[slot].(data := data);
      view := view[cache[slot].bno := data];
      assert Now() == Changed(old(Now()), slot, data);
    }

    /** flushdisk: the image becomes what the users saw. */
    method FlushDisk()
      requires Valid()
      modifies disk
      ensures Valid() && disk[..] == view
    {
      var i := 0;
      SoundIs(Now());
      while i < CACHESIZE
        invariant 0 <= i <= CACHESIZE && Now().Valid() && Synced(Now(), i)
      {
        ghost var s := Now();
        FlushStep(s, i);
        if cache[i].used != 0 {
          Flush(i);
        }
        i := i + 1;
      }
      AllSynced(Now());
      SoundIs(Now());
    }
  }

  // The first n entries have been written back.
  ghost predicate Synced(s: State, n: nat) {
    forall b :: b in s.at && s.at[b] < n ==> b < |s.disk| == |s.view| && s.disk[b] == s.view[b]
  }

  lemma FlushStep(s: State, i: nat)
    requires s.Valid() && i < CACHESIZE && Synced(s, i)
    ensures s.cache[i].used != 0 ==> s.cache[i].bno < |s.disk|
    ensures var s' := if s.cache[i].used != 0 then s.(disk := s.disk[s.cache[i].bno := s.cache[i].data]) else s;
            s'.Valid() && Synced(s', i + 1)
  {
    assert s.EntryOk(i);
    if i < s.filled {
      Flushed(s, i);
    }
    assert forall b :: b in s.at && s.at[b] < i + 1 ==> s.at[b] < i || b == s.cache[i].bno;
  }

  lemma AllSynced(s: State)
    requires s.Valid() && Synced(s, CACHESIZE)
    ensures s.disk == s.view
  {
    forall b | 0 <= b < |s.disk| ensures s.disk[b] == s.view[b] {
      assert b in s.at ==> s.at[b] < CACHESIZE;
    }
  }

  lemma Flushed(s: State, i: nat)
    requires s.Valid() && i < s.filled
    ensures s.cache[i].bno < |s.disk|
    ensures s.(disk := s.disk[s.cache[i].bno := s.cache[i].data]).Valid()
  {
    assert s.EntryOk(i);
    var s' := s.(disk := s.disk[s.cache[i].bno := s.cache[i].data]);
    forall k | 0 <= k < CACHESIZE ensures s'.EntryOk(k) {
      assert s.EntryOk(k);
    }
  }
}
