// Runs of the formatter's cache. To those who use it, it is a plain array of
// blocks, of which at most sixteen can be held at a time, each as one type.
module CacheRuns {
  import opened Layout
  import opened BlockCache

  // getblk, an assignment through the pointer it gave, and putblk. The C program has pointers to the blocks that it
  // holds; here they go by their numbers.
  datatype Use = Fetch(bno: nat, clr: bool, typ: BlockType) | Assign(bno: nat, data: Block) | LetGo(bno: nat)

  // The array without a cache: the blocks, how often each is held, and as what.
  datatype Plain = Plain(blocks: seq<Block>, held: multiset<nat>, types: map<nat, BlockType>)
  {
    function Held(): set<nat> {
      set b | b in held
    }

    /** A block of the disk can be fetched as long as fewer than sixteen others are held, or under the type under which
        it is held. Only blocks that are held can be used. */
    predicate Allows(u: Use) {
      match u
      case Fetch(b, _, t) =>
        b < |blocks| && if b in held then b in types && types[b] == t else |Held()| < CACHESIZE
      case Assign(b, _) => b in held && b < |blocks|
      case LetGo(b) => b in held && b < |blocks|
    }

    function After(u: Use): (p: Plain)
      requires Allows(u)
      ensures |p.blocks| == |blocks| && u.bno < |blocks|
    {
      match u
      case Fetch(b, clr, t) =>
        Plain(if clr then blocks[b := ZEROBLOCK] else blocks, held + multiset{b}, types[b := t])
      case Assign(b, data) => this.(blocks := blocks[b := data])
      case LetGo(b) => this.(held := held - multiset{b})
    }
  }

  /** What becomes of the plain array as far as the uses are allowed, and what each of them sees of its block. */
  function Follow(p: Plain, uses: seq<Use>): (Plain, seq<Block>)
    decreases |uses|
  {
    if uses == [] || !p.Allows(uses[0]) then (p, [])
    else
      var q := p.After(uses[0]);
      var (r, seen) := Follow(q, uses[1..]);
      (r, [q.blocks[uses[0].bno]] + seen)
  }

  /** The cache looks like this plain array. */
  ghost predicate Agrees(s: State, p: Plain) {
    && Sound(s) && s.view == p.blocks && s.pins == p.held && |s.cache| == CACHESIZE
    && forall i :: 0 <= i < CACHESIZE && s.cache[i].busy > 0 ==>
         s.cache[i].bno in p.types && p.types[s.cache[i].bno] == s.cache[i].typ
  }

  // A held block is in one entry, which its users have a pointer to.
  ghost predicate Pointed(s: State, p: Plain, slots: map<nat, nat>) {
    forall b :: b in p.held ==> b in slots && b in p.types && Holds(s, slots[b], b, p.types[b])
  }

  // ----- when getblk aborts

  function Numbers(n: nat): (r: set<nat>)
    ensures |r| == n && forall k: nat :: k in r <==> k < n
  {
    if n == 0 then {} else Numbers(n - 1) + {n - 1}
  }

  // Different blocks are in different entries.
  lemma {:induction false} NoMoreThan(at: map<nat, nat>, held: set<nat>, entries: set<nat>)
    requires forall b :: b in held ==> b in at && at[b] in entries
    requires forall b, c :: b in held && c in held && at[b] == at[c] ==> b == c
    ensures |held| <= |entries|
    decreases |held|
  {
    if held != {} {
      var b :| b in held;
      NoMoreThan(at, held - {b}, entries - {at[b]});
    }
  }

  lemma {:induction false} Smaller(a: set<nat>, b: set<nat>)
    requires a <= b
    ensures |a| <= |b|
    decreases |a|
  {
    if a != {} {
      var x :| x in a;
      Smaller(a - {x}, b - {x});
    }
  }

  // Sixteen blocks take all entries.
  lemma EntryTaken(at: map<nat, nat>, held: set<nat>, i: nat) returns (b: nat)
    requires forall c :: c in held ==> c in at && at[c] < CACHESIZE
    requires forall c, d :: c in held && d in held && at[c] == at[d] ==> c == d
    requires |held| >= CACHESIZE && i < CACHESIZE
    ensures b in held && at[b] == i
  {
    if forall c :: c in held ==> at[c] != i {
      NoMoreThan(at, held, Numbers(CACHESIZE) - {i});
      assert false;
    }
    b :| b in held && at[b] == i;
  }

  // Entry i has a block that is held when sixteen are.
  lemma EntryHeld(s: State, p: Plain, i: nat) returns (b: nat)
    requires Agrees(s, p) && |p.Held()| >= CACHESIZE && i < CACHESIZE
    ensures b in p.held && s.cache[i].bno == b && s.cache[i].busy > 0
  {
    SoundIs(s);
    b := EntryTaken(s.at, p.Held(), i);
    assert s.EntryOk(i);
  }

  lemma HeldIsFound(s: State, p: Plain, bno: nat)
    requires Agrees(s, p) && bno in p.held
    ensures !s.Full(bno)
  {
    SoundIs(s);
    assert s.cache[s.at[bno]].bno == bno;
  }

  /** Every entry is held by others exactly when sixteen other blocks are. */
  lemma FullMeans(s: State, p: Plain, bno: nat)
    requires Agrees(s, p)
    ensures s.Full(bno) <==> bno !in p.held && |p.Held()| >= CACHESIZE
  {
    SoundIs(s);
    if bno in p.held {
      HeldIsFound(s, p, bno);
    } else {
      if |p.Held()| >= CACHESIZE {
        forall i | 0 <= i < |s.cache| ensures s.cache[i].bno != bno && s.cache[i].busy > 0 {
          var b := EntryHeld(s, p, i);
        }
      }
      if s.Full(bno) {
        Smaller(HeldBlocks(s, CACHESIZE), p.Held());
      }
    }
  }

  lemma ClashMeans(s: State, p: Plain, bno: nat, typ: BlockType)
    requires Agrees(s, p)
    ensures bno in p.held ==> bno in p.types
    ensures s.Clash(bno, typ) <==> bno in p.held && p.types[bno] != typ
  {
    SoundIs(s);
    if bno in p.held {
      assert s.EntryOk(s.at[bno]);
    }
    forall i | 0 <= i < CACHESIZE && s.cache[i].bno == bno && s.cache[i].busy > 0 ensures bno in p.held {
      assert s.EntryOk(i);
    }
  }

  // ----- each use

  lemma FetchedAgrees(s: State, s': State, p: Plain, i: nat, u: Use)
    requires Agrees(s, p) && u.Fetch? && p.Allows(u) && Fetched(s, s', i, u.bno, u.clr, u.typ)
    ensures Agrees(s', p.After(u)) && s'.cache[i].data == p.After(u).blocks[u.bno]
  {
    SoundIs(s');
    assert s'.EntryOk(i);
    forall k | 0 <= k < CACHESIZE && s'.cache[k].busy > 0
      ensures s'.cache[k].bno in p.After(u).types && p.After(u).types[s'.cache[k].bno] == s'.cache[k].typ
    {
      assert s'.EntryOk(k);
    }
  }

  lemma FetchedPointed(s: State, s': State, p: Plain, slots: map<nat, nat>, i: nat, u: Use)
    requires Agrees(s, p) && Pointed(s, p, slots) && u.Fetch? && p.Allows(u) && !s.Clash(u.bno, u.typ)
    requires Fetched(s, s', i, u.bno, u.clr, u.typ)
    ensures Pointed(s', p.After(u), slots[u.bno := i])
  {
    var q := p.After(u);
    assert s'.cache[i].busy == s'.pins[u.bno] > 0;
    forall b | b in q.held && b != u.bno
      ensures b in slots && b in q.types && Holds(s', slots[b], b, q.types[b])
    {
      HeldStays(s, s', i, u.bno, u.clr, u.typ, slots[b], b, p.types[b]);
    }
  }

  lemma AssignedAgrees(s: State, p: Plain, slots: map<nat, nat>, u: Use)
    requires Agrees(s, p) && Pointed(s, p, slots) && u.Assign? && p.Allows(u)
    ensures s.cache[slots[u.bno]].bno == u.bno < |s.view|
    ensures var s' := Changed(s, slots[u.bno], u.data); Agrees(s', p.After(u)) && Pointed(s', p.After(u), slots)
  {
    ChangeWorks(s, slots[u.bno], u.data);
  }

  lemma ReleasedAgrees(s: State, p: Plain, slots: map<nat, nat>, u: Use)
    requires Agrees(s, p) && Pointed(s, p, slots) && u.LetGo? && p.Allows(u)
    ensures s.cache[slots[u.bno]].bno == u.bno && s.cache[slots[u.bno]].busy > 0
    ensures Agrees(Released(s, slots[u.bno]), p.After(u))
  {
    ReleaseWorks(s, slots[u.bno]);
  }

  lemma ReleasedPointed(s: State, p: Plain, slots: map<nat, nat>, u: Use, b: nat)
    requires Agrees(s, p) && Pointed(s, p, slots) && u.LetGo? && p.Allows(u) && b in p.After(u).held
    ensures s.cache[slots[u.bno]].busy > 0
    ensures b in slots && b in p.types && Holds(Released(s, slots[u.bno]), slots[b], b, p.types[b])
  {
    HeldCount(s, slots[u.bno], u.bno, p.types[u.bno]);
    HeldCount(s, slots[b], b, p.types[b]);
  }

  // ----- runs

  lemma NobodyHolds(s: State)
    requires Sound(s) && s.pins == multiset{}
    ensures |s.cache| == CACHESIZE && forall i :: 0 <= i < CACHESIZE ==> s.cache[i].busy == 0
  {
    SoundIs(s);
    forall i | 0 <= i < CACHESIZE ensures s.cache[i].busy == 0 {
      assert s.EntryOk(i);
    }
  }

  // Whether the pointer that was got for a block is still good.
  lemma PointerGood(s: State, p: Plain, slots: map<nat, nat>, b: nat)
    requires Agrees(s, p) && Pointed(s, p, slots)
    ensures b in p.held <==>
            b in slots && slots[b] < CACHESIZE && s.cache[slots[b]].bno == b && s.cache[slots[b]].busy > 0
    ensures b in p.held ==> b < |p.blocks| && s.cache[slots[b]].data == p.blocks[b]
  {
    SoundIs(s);
    if b in slots && slots[b] < CACHESIZE {
      assert s.EntryOk(slots[b]);
    }
  }

  method Do(c: Cache, u: Use, ghost p: Plain, slots: map<nat, nat>)
    returns (ok: bool, data: Block, slots': map<nat, nat>)
    requires Agrees(c.Now(), p) && Pointed(c.Now(), p, slots) && c.cache.Length == CACHESIZE
    modifies c, c.cache, c.disk
    ensures ok <==> p.Allows(u)
    ensures ok ==> Agrees(c.Now(), p.After(u)) && Pointed(c.Now(), p.After(u), slots')
    ensures ok ==> data == p.After(u).blocks[u.bno]
  {
    match u
    case Fetch(_, _, _) =>
      ok, data, slots' := DoFetch(c, u, p, slots);
    case _ =>
      ok, data := DoHeld(c, u, p, slots);
      slots' := slots;
  }

  method DoFetch(c: Cache, u: Use, ghost p: Plain, slots: map<nat, nat>)
    returns (ok: bool, data: Block, slots': map<nat, nat>)
    requires Agrees(c.Now(), p) && Pointed(c.Now(), p, slots) && c.cache.Length == CACHESIZE && u.Fetch?
    modifies c, c.cache, c.disk
    ensures ok <==> p.Allows(u)
    ensures ok ==> Agrees(c.Now(), p.After(u)) && Pointed(c.Now(), p.After(u), slots')
    ensures ok ==> data == p.After(u).blocks[u.bno]
  {
    ghost var s := c.Now();
    FullMeans(s, p, u.bno);
    ClashMeans(s, p, u.bno, u.typ);
    SameSize(s, p);
    var r := c.Getblk(u.bno, u.clr, u.typ);
    if r == Abort {
      return false, ZEROBLOCK, slots;
    }
    FetchedAgrees(s, c.Now(), p, r.slot, u);
    FetchedPointed(s, c.Now(), p, slots, r.slot, u);
    return true, c.cache[r.slot].data, slots[u.bno := r.slot];
  }

  lemma SameSize(s: State, p: Plain)
    requires Agrees(s, p)
    ensures |s.disk| == |p.blocks|
  {
    SoundIs(s);
  }

  // An assignment or putblk; false when the pointer is not good any more.
  method DoHeld(c: Cache, u: Use, ghost p: Plain, slots: map<nat, nat>) returns (ok: bool, data: Block)
    requires Agrees(c.Now(), p) && Pointed(c.Now(), p, slots) && c.cache.Length == CACHESIZE && !u.Fetch?
    modifies c, c.cache
    ensures ok <==> p.Allows(u)
    ensures ok ==> Agrees(c.Now(), p.After(u)) && Pointed(c.Now(), p.After(u), slots)
    ensures ok ==> data == p.After(u).blocks[u.bno]
  {
    ghost var s := c.Now();
    PointerGood(s, p, slots, u.bno);
    if !(u.bno in slots && slots[u.bno] < CACHESIZE) {
      return false, ZEROBLOCK;
    }
    var slot := slots[u.bno];
    if c.cache[slot].bno != u.bno || c.cache[slot].busy == 0 {
      return false, ZEROBLOCK;
    }
    data := c.cache[slot].data;
    if u.Assign? {
      AssignedAgrees(s, p, slots, u);
      c.Modify(slot, u.data);
      data := u.data;
    } else {
      ReleasedAgrees(s, p, slots, u);
      forall b | b in p.After(u).held
        ensures b in slots && b in p.types && Holds(Released(s, slot), slots[b], b, p.types[b])
      {
        ReleasedPointed(s, p, slots, u, b);
      }
      c.Putblk(slot);
    }
    return true, data;
  }

  // The uses seen so far lead from p0 to p.
  ghost predicate OnTheWay(p0: Plain, p: Plain, uses: seq<Use>, seen: seq<Block>) {
    && |seen| <= |uses|
    && Follow(p0, uses) == (Follow(p, uses[|seen|..]).0, seen + Follow(p, uses[|seen|..]).1)
  }

  lemma OneMore(p0: Plain, p: Plain, uses: seq<Use>, seen: seq<Block>)
    requires OnTheWay(p0, p, uses, seen) && |seen| < |uses| && p.Allows(uses[|seen|])
    ensures var u := uses[|seen|]; OnTheWay(p0, p.After(u), uses, seen + [p.After(u).blocks[u.bno]])
  {
    var q := p.After(uses[|seen|]);
    assert uses[|seen|..][1..] == uses[|seen| + 1..];
    assert seen + ([q.blocks[uses[|seen|].bno]] + Follow(q, uses[|seen| + 1..]).1)
        == (seen + [q.blocks[uses[|seen|].bno]]) + Follow(q, uses[|seen| + 1..]).1;
  }

  lemma Stopped(p0: Plain, p: Plain, uses: seq<Use>, seen: seq<Block>)
    requires OnTheWay(p0, p, uses, seen) && (|seen| == |uses| || !p.Allows(uses[|seen|]))
    ensures Follow(p0, uses) == (p, seen)
  {
    assert seen + [] == seen;
  }

  /** The uses one after the other, until one is not allowed: the cache goes exactly as far as the plain array does, and
      its users see the same blocks. */
  method Run(c: Cache, uses: seq<Use>) returns (seen: seq<Block>, ghost p: Plain)
    requires c.Valid() && c.pins == multiset{} && c.cache.Length == CACHESIZE
    modifies c, c.cache, c.disk
    ensures (p, seen) == Follow(Plain(old(c.view), multiset{}, map[]), uses)
    ensures |seen| == |uses| ==> Agrees(c.Now(), p)
  {
    ghost var p0 := Plain(c.view, multiset{}, map[]);
    seen, p := [], p0;
    var slots: map<nat, nat> := map[];
    NobodyHolds(c.Now());
    assert uses[0..] == uses && [] + Follow(p0, uses).1 == Follow(p0, uses).1;
    while |seen| < |uses|
      invariant |seen| <= |uses| && Agrees(c.Now(), p) && Pointed(c.Now(), p, slots)
      invariant c.cache.Length == CACHESIZE
      invariant OnTheWay(p0, p, uses, seen)
    {
      var ok, data;
      ok, data, slots := Do(c, uses[|seen|], p, slots);
      if !ok {
        Stopped(p0, p, uses, seen);
        return;
      }
      OneMore(p0, p, uses, seen);
      p, seen := p.After(uses[|seen|]), seen + [data];
    }
    Stopped(p0, p, uses, seen);
  }

  /** From an empty disk to the finished image: if no use is turned away, the image is the plain array. */
  method RunAndFlush(n: nat, uses: seq<Use>) returns (seen: seq<Block>, disk: seq<Block>)
    ensures var (p, blocks) := Follow(Plain(seq(n, _ => ZEROBLOCK), multiset{}, map[]), uses);
      seen == blocks && (|seen| == |uses| ==> disk == p.blocks)
  {
    var c := new Cache(n);
    ghost var p;
    seen, p := Run(c, uses);
    disk := [];
    if |seen| == |uses| {
      c.FlushDisk();
      disk := c.disk[..];
    }
  }
}
