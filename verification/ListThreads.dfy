// Threads that insert into, measure, and delete from hashed sorted lists, each
// list under its own lock: every interleaving of any number of threads.
module ListThreads {
  import opened SortedList

  /** hash: which of n lists a key belongs to. */
  method Hash(key: Key, n: nat) returns (h: nat)
    requires n > 0
    ensures h == ListOf(key, n) == CharSum(key) % n
  {
    var sum, i := 0, 0;
    while i != |key|
      invariant 0 <= i <= |key| && sum == CharSum(key[..i])
    {
      assert key[..i + 1][..i] == key[..i];
      sum := sum + key[i];
      i := i + 1;
    }
    assert key[..i] == key;
    h := sum % n;
  }

  function CharSum(key: Key): nat {
    if key == [] then 0 else CharSum(key[..|key| - 1]) + key[|key| - 1]
  }

  /** The sum counts every character once: in whatever pieces the key is summed up, and a character for what it is. */
  lemma {:induction false} CharSumAdds(a: Key, b: Key)
    ensures CharSum(a + b) == CharSum(a) + CharSum(b)
    ensures |b| == 1 ==> CharSum(b) == b[0]
  {
    if b == [] {
      assert a + b == a;
    } else {
      var n := |b| - 1;
      CharSumAdds(a, b[..n]);
      assert (a + b)[..|a + b| - 1] == a + b[..n];
    }
  }

  function ListOf(key: Key, n: nat): (h: nat)
    requires n > 0
    ensures h < n
  {
    CharSum(key) % n
  }

  // ----- the machine

  // Thread t inserts elements (t, 0) to (t, iterations - 1).
  datatype Item = Item(thread: nat, index: nat)

  // keys[t][i] is the key of element (t, i).
  datatype Config = Config(keys: seq<seq<Key>>, nLists: nat, iterations: nat) {
    predicate Ok() {
      nLists > 0 && forall t :: 0 <= t < |keys| ==> |keys[t]| == iterations
    }

    function Threads(): nat {
      |keys|
    }

    predicate Has(e: Item) {
      e.thread < |keys| && e.index < |keys[e.thread]|
    }

    function KeyOf(e: Item): Key
      requires Has(e)
    {
      keys[e.thread][e.index]
    }

    function Route(e: Item): (j: nat)
      requires Ok() && Has(e)
      ensures j < nLists
    {
      ListOf(KeyOf(e), nLists)
    }
  }

  // Where a thread stands in threadfunc. Its yields lie between InsertSearch and InsertLink, inside the lookup, between
  // lookup and DeleteUnlink, and between the lists that are counted.
  datatype Pc =
    | InsertLock(i: nat)
    | InsertSearch(i: nat)
    | InsertLink(i: nat, place: nat)
    | InsertUnlock(i: nat)
    | LenLock
    | LockAll(k: nat)
    | Count(k: nat, sum: nat)
    | UnlockAll(k: nat, length: nat)
    | LenUnlock(length: nat)
    | DeleteLock(i: nat)
    | Lookup(i: nat)
    | DeleteUnlink(i: nat, target: Item)
    | DeleteUnlock(i: nat)
    | Missing(i: nat)
    | Done

  datatype Owner = Free | Held(t: nat)

  datatype State = State(pcs: seq<Pc>, lists: seq<seq<Item>>, owner: seq<Owner>, lenOwner: Owner)

  function FirstInsert(c: Config): Pc {
    if c.iterations == 0 then LenLock else InsertLock(0)
  }

  function NextInsert(c: Config, i: nat): Pc {
    if i + 1 < c.iterations then InsertLock(i + 1) else LenLock
  }

  function NextDelete(c: Config, i: nat): Pc {
    if i + 1 < c.iterations then DeleteLock(i + 1) else Done
  }

  ghost predicate Init(c: Config, s: State) {
    && s.pcs == seq(c.Threads(), _ => FirstInsert(c))
    && s.lists == seq(c.nLists, _ => [])
    && s.owner == seq(c.nLists, _ => Free)
    && s.lenOwner == Free
  }

  predicate WellFormed(c: Config, s: State) {
    && c.Ok() && |s.pcs| == c.Threads() && |s.lists| == |s.owner| == c.nLists
    && (forall t :: 0 <= t < |s.pcs| ==> PcOk(c, s.pcs[t]))
    && (forall j :: 0 <= j < |s.lists| ==> forall e :: e in s.lists[j] ==> c.Has(e))
  }

  predicate PcOk(c: Config, pc: Pc) {
    match pc
    case InsertLock(i) => i < c.iterations
    case InsertSearch(i) => i < c.iterations
    case InsertLink(i, _) => i < c.iterations
    case InsertUnlock(i) => i < c.iterations
    case LockAll(k) => k <= c.nLists
    case Count(k, _) => k <= c.nLists
    case UnlockAll(k, _) => k <= c.nLists
    case DeleteLock(i) => i < c.iterations
    case Lookup(i) => i < c.iterations
    case DeleteUnlink(i, e) => i < c.iterations && c.Has(e)
    case DeleteUnlock(i) => i < c.iterations
    case Missing(i) => i < c.iterations
    case _ => true
  }

  function KeysOf(c: Config, items: seq<Item>): (keys: seq<Key>)
    requires forall e :: e in items ==> c.Has(e)
    ensures |keys| == |items| && forall i :: 0 <= i < |items| ==> keys[i] == c.KeyOf(items[i])
  {
    seq(|items|, i requires 0 <= i < |items| => c.KeyOf(items[i]))
  }

  /** The element taken out of a list; an element that is not there leaves the list alone. */
  function Removed(items: seq<Item>, e: Item): seq<Item> {
    if items == [] then [] else if items[0] == e then items[1..] else [items[0]] + Removed(items[1..], e)
  }

  /** Thread t is not waiting for a lock. */
  predicate Enabled(c: Config, s: State, t: nat)
    requires WellFormed(c, s) && t < |s.pcs|
  {
    match s.pcs[t]
    case InsertLock(i) => s.owner[c.Route(Item(t, i))] == Free
    case DeleteLock(i) => s.owner[c.Route(Item(t, i))] == Free
    case LenLock => s.lenOwner == Free
    case LockAll(k) => k < c.nLists ==> s.owner[k] == Free
    case Done => false
    case _ => true
  }

  /** What thread t does next. In the spinlock version a thread that is not enabled tries again and changes nothing. */
  function Step(c: Config, s: State, t: nat): State
    requires WellFormed(c, s) && t < |s.pcs| && Enabled(c, s, t)
  {
    match s.pcs[t]
    case InsertLock(i) => s.(pcs := s.pcs[t := InsertSearch(i)], owner := s.owner[c.Route(Item(t, i)) := Held(t)])
    case InsertSearch(i) =>
      var j := c.Route(Item(t, i));
      s.(pcs := s.pcs[t := InsertLink(i, Place(KeysOf(c, s.lists[j]), c.KeyOf(Item(t, i))))])
    case InsertLink(i, place) =>
      var j := c.Route(Item(t, i));
      var at := if place <= |s.lists[j]| then place else |s.lists[j]|;
      s.(pcs := s.pcs[t := InsertUnlock(i)], lists := s.lists[j := Inserted(s.lists[j], at, Item(t, i))])
    case InsertUnlock(i) => s.(pcs := s.pcs[t := NextInsert(c, i)], owner := s.owner[c.Route(Item(t, i)) := Free])
    case LenLock => s.(pcs := s.pcs[t := LockAll(0)], lenOwner := Held(t))
    case LockAll(k) =>
      if k < c.nLists then s.(pcs := s.pcs[t := LockAll(k + 1)], owner := s.owner[k := Held(t)])
      else s.(pcs := s.pcs[t := Count(0, 0)])
    case Count(k, sum) =>
      if k < c.nLists then s.(pcs := s.pcs[t := Count(k + 1, sum + |s.lists[k]|)])
      else s.(pcs := s.pcs[t := UnlockAll(0, sum)])
    case UnlockAll(k, length) =>
      if k < c.nLists then s.(pcs := s.pcs[t := UnlockAll(k + 1, length)], owner := s.owner[k := Free])
      else s.(pcs := s.pcs[t := LenUnlock(length)])
    case LenUnlock(_) => s.(pcs := s.pcs[t := if c.iterations == 0 then Done else DeleteLock(0)], lenOwner := Free)
    case DeleteLock(i) => s.(pcs := s.pcs[t := Lookup(i)], owner := s.owner[c.Route(Item(t, i)) := Held(t)])
    case Lookup(i) =>
      var items := s.lists[c.Route(Item(t, i))];
      s.(pcs := s.pcs[t := if items == [] then Missing(i) else DeleteUnlink(i, items[0])])
    case DeleteUnlink(i, e) =>
      var j := c.Route(Item(t, i));
      s.(pcs := s.pcs[t := DeleteUnlock(i)], lists := s.lists[j := Removed(s.lists[j], e)])
    case DeleteUnlock(i) => s.(pcs := s.pcs[t := NextDelete(c, i)], owner := s.owner[c.Route(Item(t, i)) := Free])
    case Missing(i) => s.(pcs := s.pcs[t := NextDelete(c, i)], owner := s.owner[c.Route(Item(t, i)) := Free])
  }

  // ----- locks

  /** Thread t is between taking and releasing the lock of list j. */
  predicate Holds(c: Config, t: nat, pc: Pc, j: nat)
    requires c.Ok() && t < c.Threads() && PcOk(c, pc)
  {
    match pc
    case InsertSearch(i) => c.Route(Item(t, i)) == j
    case InsertLink(i, _) => c.Route(Item(t, i)) == j
    case InsertUnlock(i) => c.Route(Item(t, i)) == j
    case LockAll(k) => j < k
    case Count(_, _) => true
    case UnlockAll(k, _) => k <= j
    case Lookup(i) => c.Route(Item(t, i)) == j
    case DeleteUnlink(i, _) => c.Route(Item(t, i)) == j
    case DeleteUnlock(i) => c.Route(Item(t, i)) == j
    case Missing(i) => c.Route(Item(t, i)) == j
    case _ => false
  }

  predicate HoldsLen(pc: Pc) {
    pc.LockAll? || pc.Count? || pc.UnlockAll? || pc.LenUnlock?
  }

  /** Each lock is held by the thread that is in its section, and by no other. */
  ghost predicate LocksOk(c: Config, s: State)
    requires WellFormed(c, s)
  {
    && (forall j :: 0 <= j < c.nLists ==> ListLockOk(c, s, j))
    && (s.lenOwner.Held? ==> s.lenOwner.t < |s.pcs|)
    && (forall t :: 0 <= t < |s.pcs| ==> (HoldsLen(s.pcs[t]) <==> s.lenOwner == Held(t)))
  }

  ghost predicate ListLockOk(c: Config, s: State, j: nat)
    requires WellFormed(c, s) && j < c.nLists
  {
    && (s.owner[j].Held? ==> s.owner[j].t < |s.pcs|)
    && (forall t :: 0 <= t < |s.pcs| ==> (Holds(c, t, s.pcs[t], j) <==> s.owner[j] == Held(t)))
  }

  lemma StepWellFormed(c: Config, s: State, t: nat)
    requires WellFormed(c, s) && t < |s.pcs| && Enabled(c, s, t)
    ensures WellFormed(c, Step(c, s, t))
  {
    var s' := Step(c, s, t);
    forall j | 0 <= j < |s'.lists| ensures forall e :: e in s'.lists[j] ==> c.Has(e) {
      if s.pcs[t].DeleteUnlink? {
        RemovedSubset(s.lists[j], s.pcs[t].target);
      }
    }
  }

  lemma {:induction false} RemovedSubset(items: seq<Item>, e: Item)
    ensures forall x :: x in Removed(items, e) ==> x in items
  {
    if items != [] && items[0] != e {
      RemovedSubset(items[1..], e);
    }
  }

  lemma StepLocks(c: Config, s: State, t: nat)
    requires WellFormed(c, s) && t < |s.pcs| && Enabled(c, s, t) && LocksOk(c, s)
    ensures WellFormed(c, Step(c, s, t)) && LocksOk(c, Step(c, s, t))
  {
    StepWellFormed(c, s, t);
    var s' := Step(c, s, t);
    forall j | 0 <= j < c.nLists ensures ListLockOk(c, s', j) {
      assert ListLockOk(c, s, j);
      StepListLock(c, s, t, j);
    }
  }

  lemma StepListLock(c: Config, s: State, t: nat, j: nat)
    requires WellFormed(c, s) && t < |s.pcs| && Enabled(c, s, t) && j < c.nLists && ListLockOk(c, s, j)
    requires WellFormed(c, Step(c, s, t))
    ensures ListLockOk(c, Step(c, s, t), j)
  {
    var s' := Step(c, s, t);
    assert s'.pcs == s.pcs[t := s'.pcs[t]];
    assert Holds(c, t, s'.pcs[t], j) <==> s'.owner[j] == Held(t);
    assert s'.owner[j] != s.owner[j] ==> s.owner[j] in {Free, Held(t)} && s'.owner[j] in {Free, Held(t)};
  }

  // No two threads are in the section of one list.
  lemma OneInSection(c: Config, s: State, t: nat, u: nat, j: nat)
    requires WellFormed(c, s) && LocksOk(c, s) && t < |s.pcs| && u < |s.pcs| && j < c.nLists
    requires Holds(c, t, s.pcs[t], j) && Holds(c, u, s.pcs[u], j)
    ensures t == u
  {
    assert ListLockOk(c, s, j);
  }

  // As long as a thread is unfinished, some thread is not waiting.
  lemma SomeoneMoves(c: Config, s: State, t: nat) returns (u: nat)
    requires WellFormed(c, s) && LocksOk(c, s) && t < |s.pcs| && s.pcs[t] != Done
    ensures u < |s.pcs| && Enabled(c, s, u)
  {
    u := t;
    if !Enabled(c, s, t) {
      match s.pcs[t] {
        case InsertLock(i) => u := ListHolderMoves(c, s, c.Route(Item(t, i)));
        case DeleteLock(i) => u := ListHolderMoves(c, s, c.Route(Item(t, i)));
        case LockAll(k) => u := ListHolderMoves(c, s, k);
        case LenLock =>
          u := s.lenOwner.t;
          if !Enabled(c, s, u) {
            u := ListHolderMoves(c, s, s.pcs[u].k);
          }
      }
    }
  }

  // The holder of a list lock moves, or it is taking all locks and waits for a thread that moves.
  lemma ListHolderMoves(c: Config, s: State, j: nat) returns (u: nat)
    requires WellFormed(c, s) && LocksOk(c, s) && j < c.nLists && s.owner[j] != Free
    ensures u < |s.pcs| && Enabled(c, s, u)
  {
    assert ListLockOk(c, s, j);
    u := s.owner[j].t;
    if !Enabled(c, s, u) {
      var k := s.pcs[u].k;
      assert ListLockOk(c, s, k);
      var v := s.owner[k].t;
      // v does not hold the length lock, so it is in the section of one list.
      assert v != u && !HoldsLen(s.pcs[v]);
      u := v;
    }
  }

  // ----- conservation

  /** How many of its elements a thread has linked in so far, and how many deletions it has done. */
  function Linked(c: Config, pc: Pc): nat {
    match pc
    case InsertLock(i) => i
    case InsertSearch(i) => i
    case InsertLink(i, _) => i
    case InsertUnlock(i) => i + 1
    case _ => c.iterations
  }

  function Unlinked(c: Config, pc: Pc): nat {
    match pc
    case DeleteLock(i) => i
    case Lookup(i) => i
    case DeleteUnlink(i, _) => i
    case DeleteUnlock(i) => i + 1
    case Missing(i) => i
    case Done => c.iterations
    case _ => 0
  }

  /** How many of thread t's first n elements belong to list j. */
  function Routed(c: Config, t: nat, j: nat, n: nat): nat
    requires c.Ok() && t < c.Threads() && n <= c.iterations
  {
    if n == 0 then 0 else Routed(c, t, j, n - 1) + if c.Route(Item(t, n - 1)) == j then 1 else 0
  }

  lemma {:induction false} RoutedGrows(c: Config, t: nat, j: nat, m: nat, n: nat)
    requires c.Ok() && t < c.Threads() && m <= n <= c.iterations
    ensures Routed(c, t, j, m) <= Routed(c, t, j, n)
    decreases n
  {
    if m < n {
      RoutedGrows(c, t, j, m, n - 1);
    }
  }

  /** Thread t's insertions into list j minus its deletions from it. */
  function Net(c: Config, t: nat, pc: Pc, j: nat): int
    requires c.Ok() && t < c.Threads() && PcOk(c, pc)
  {
    Routed(c, t, j, Linked(c, pc)) - Routed(c, t, j, Unlinked(c, pc))
  }

  lemma NetNotNegative(c: Config, t: nat, pc: Pc, j: nat)
    requires c.Ok() && t < c.Threads() && PcOk(c, pc)
    ensures Net(c, t, pc, j) >= 0
  {
    RoutedGrows(c, t, j, Unlinked(c, pc), Linked(c, pc));
  }

  /** The same for the first n threads together. */
  function NetOfAll(c: Config, pcs: seq<Pc>, j: nat, n: nat): int
    requires c.Ok() && |pcs| == c.Threads() && n <= |pcs| && forall t :: 0 <= t < |pcs| ==> PcOk(c, pcs[t])
  {
    if n == 0 then 0 else NetOfAll(c, pcs, j, n - 1) + Net(c, n - 1, pcs[n - 1], j)
  }

  lemma {:induction false} NetOfUpdate(c: Config, pcs: seq<Pc>, pcs': seq<Pc>, j: nat, n: nat, t: nat)
    requires c.Ok() && |pcs| == |pcs'| == c.Threads() && n <= |pcs| && t < |pcs|
    requires forall u :: 0 <= u < |pcs| ==> PcOk(c, pcs[u]) && PcOk(c, pcs'[u]) && (u != t ==> pcs'[u] == pcs[u])
    ensures NetOfAll(c, pcs', j, n) == NetOfAll(c, pcs, j, n) +
            if t < n then Net(c, t, pcs'[t], j) - Net(c, t, pcs[t], j) else 0
  {
    if n > 0 {
      NetOfUpdate(c, pcs, pcs', j, n - 1, t);
    }
  }

  lemma {:induction false} NetAtLeast(c: Config, pcs: seq<Pc>, j: nat, n: nat, t: nat)
    requires c.Ok() && |pcs| == c.Threads() && t < n <= |pcs| && forall u :: 0 <= u < |pcs| ==> PcOk(c, pcs[u])
    ensures NetOfAll(c, pcs, j, n) >= Net(c, t, pcs[t], j)
    decreases n
  {
    NetNotNegative(c, n - 1, pcs[n - 1], j);
    if t < n - 1 {
      NetAtLeast(c, pcs, j, n - 1, t);
    } else {
      NetsNotNegative(c, pcs, j, n - 1);
    }
  }

  lemma {:induction false} NetsNotNegative(c: Config, pcs: seq<Pc>, j: nat, n: nat)
    requires c.Ok() && |pcs| == c.Threads() && n <= |pcs| && forall u :: 0 <= u < |pcs| ==> PcOk(c, pcs[u])
    ensures NetOfAll(c, pcs, j, n) >= 0
  {
    if n > 0 {
      NetsNotNegative(c, pcs, j, n - 1);
      NetNotNegative(c, n - 1, pcs[n - 1], j);
    }
  }

  /** What a thread in the middle of an operation knows about the list it has locked. */
  ghost predicate PcSees(c: Config, s: State, t: nat)
    requires WellFormed(c, s) && t < |s.pcs|
  {
    match s.pcs[t]
    case InsertLink(i, place) =>
      place == Place(KeysOf(c, s.lists[c.Route(Item(t, i))]), c.KeyOf(Item(t, i)))
    case DeleteUnlink(i, e) =>
      var items := s.lists[c.Route(Item(t, i))]; items != [] && items[0] == e
    case Count(k, sum) => sum == TotalLength(s.lists[..k])
    case Missing(_) => false
    case _ => true
  }

  /** List j is sorted and has as many elements as the threads have put in and not taken out. */
  ghost predicate ListOk(c: Config, s: State, j: nat)
    requires WellFormed(c, s) && j < c.nLists
  {
    && Ascending(KeysOf(c, s.lists[j])) && ItemsOk(c, s, j)
    && |s.lists[j]| == NetOfAll(c, s.pcs, j, |s.pcs|)
  }

  ghost predicate Inv(c: Config, s: State) {
    && WellFormed(c, s) && LocksOk(c, s)
    && (forall t :: 0 <= t < |s.pcs| ==> PcSees(c, s, t))
    && (forall j :: 0 <= j < c.nLists ==> ListOk(c, s, j))
  }

  /** The thread's own count changes exactly when the list does. */
  lemma StepNet(c: Config, s: State, t: nat, j: nat)
    requires WellFormed(c, s) && t < |s.pcs| && Enabled(c, s, t) && j < c.nLists && PcSees(c, s, t)
    ensures WellFormed(c, Step(c, s, t))
    ensures Net(c, t, Step(c, s, t).pcs[t], j) - Net(c, t, s.pcs[t], j) == |Step(c, s, t).lists[j]| - |s.lists[j]|
  {
    StepWellFormed(c, s, t);
  }

  lemma StepAscends(c: Config, s: State, t: nat, j: nat)
    requires WellFormed(c, s) && t < |s.pcs| && Enabled(c, s, t) && j < c.nLists && PcSees(c, s, t)
    requires Ascending(KeysOf(c, s.lists[j]))
    ensures WellFormed(c, Step(c, s, t)) && Ascending(KeysOf(c, Step(c, s, t).lists[j]))
  {
    StepWellFormed(c, s, t);
    var s' := Step(c, s, t);
    var pc := s.pcs[t];
    if pc.InsertLink? && c.Route(Item(t, pc.i)) == j {
      assert KeysOf(c, s'.lists[j]) == Inserted(KeysOf(c, s.lists[j]), pc.place, c.KeyOf(Item(t, pc.i)));
      InsertAscends(KeysOf(c, s.lists[j]), c.KeyOf(Item(t, pc.i)));
    } else if pc.DeleteUnlink? && c.Route(Item(t, pc.i)) == j {
      assert KeysOf(c, s'.lists[j]) == Without(KeysOf(c, s.lists[j]), 0);
      DeleteAscends(KeysOf(c, s.lists[j]), 0);
    } else {
      assert s'.lists[j] == s.lists[j];
    }
  }

  /** Items of a list belong there, have been linked in by their thread, and occur once. */
  ghost predicate ItemsOk(c: Config, s: State, j: nat)
    requires WellFormed(c, s) && j < c.nLists
  {
    && (forall e :: e in s.lists[j] ==> c.Route(e) == j && e.index < Linked(c, s.pcs[e.thread]))
    && (forall a, b :: 0 <= a < b < |s.lists[j]| ==> s.lists[j][a] != s.lists[j][b])
  }

  lemma StepItems(c: Config, s: State, t: nat, j: nat)
    requires WellFormed(c, s) && t < |s.pcs| && Enabled(c, s, t) && j < c.nLists && PcSees(c, s, t) && ItemsOk(c, s, j)
    ensures WellFormed(c, Step(c, s, t)) && ItemsOk(c, Step(c, s, t), j)
  {
    StepWellFormed(c, s, t);
    var s' := Step(c, s, t);
    var pc := s.pcs[t];
    assert Linked(c, s'.pcs[t]) >= Linked(c, pc);
    if pc.InsertLink? && c.Route(Item(t, pc.i)) == j {
      var x := Item(t, pc.i);
      assert x !in s.lists[j];
      var items := s.lists[j];
      assert forall e :: e in s'.lists[j] ==> e in items || e == x;
    } else if pc.DeleteUnlink? && c.Route(Item(t, pc.i)) == j {
      assert s'.lists[j] == s.lists[j][1..];
    } else {
      assert s'.lists[j] == s.lists[j];
    }
  }

  lemma StepList(c: Config, s: State, t: nat, j: nat)
    requires Inv(c, s) && t < |s.pcs| && Enabled(c, s, t) && j < c.nLists
    ensures WellFormed(c, Step(c, s, t)) && ListOk(c, Step(c, s, t), j)
  {
    assert ListOk(c, s, j) && PcSees(c, s, t);
    StepNet(c, s, t, j);
    StepAscends(c, s, t, j);
    StepItems(c, s, t, j);
    NetOfUpdate(c, s.pcs, Step(c, s, t).pcs, j, |s.pcs|, t);
  }

  /** A thread in the delete phase finds its list not empty: the "should never be here" branch is never taken. */
  lemma NeverMissing(c: Config, s: State, t: nat)
    requires WellFormed(c, s) && t < |s.pcs| && s.pcs[t].Lookup?
    requires forall j :: 0 <= j < c.nLists ==> ListOk(c, s, j)
    ensures s.lists[c.Route(Item(t, s.pcs[t].i))] != []
  {
    var i := s.pcs[t].i;
    var j := c.Route(Item(t, i));
    assert ListOk(c, s, j);
    NetAtLeast(c, s.pcs, j, |s.pcs|, t);
    RoutedGrows(c, t, j, i + 1, c.iterations);
  }

  lemma StepSees(c: Config, s: State, t: nat, u: nat)
    requires Inv(c, s) && t < |s.pcs| && u < |s.pcs| && Enabled(c, s, t)
    ensures WellFormed(c, Step(c, s, t)) && PcSees(c, Step(c, s, t), u)
  {
    StepWellFormed(c, s, t);
    var s' := Step(c, s, t);
    assert PcSees(c, s, u) && PcSees(c, s, t);
    if t == u {
      match s.pcs[t] {
        case Count(k, sum) =>
          if k < c.nLists {
            assert s.lists[..k + 1][..k] == s.lists[..k];
          }
        case Lookup(_) => NeverMissing(c, s, t);
        case _ =>
      }
    } else {
      match s.pcs[t] {
        case InsertLink(i, _) => OthersSeeNothing(c, s, t, u, c.Route(Item(t, i)));
        case DeleteUnlink(i, _) => OthersSeeNothing(c, s, t, u, c.Route(Item(t, i)));
        case _ => assert s'.lists == s.lists;
      }
    }
  }

  // A list that changes is one that no other thread is looking at.
  lemma OthersSeeNothing(c: Config, s: State, t: nat, u: nat, j: nat)
    requires Inv(c, s) && t < |s.pcs| && u < |s.pcs| && t != u && j < c.nLists && Holds(c, t, s.pcs[t], j)
    requires !s.pcs[t].Count?
    ensures !Holds(c, u, s.pcs[u], j) && !s.pcs[u].Count?
  {
    assert ListLockOk(c, s, j);
  }

  /** Every step of every thread keeps the invariant. */
  lemma StepInv(c: Config, s: State, t: nat)
    requires Inv(c, s) && t < |s.pcs| && Enabled(c, s, t)
    ensures Inv(c, Step(c, s, t))
  {
    StepLocks(c, s, t);
    var s' := Step(c, s, t);
    forall u | 0 <= u < |s'.pcs| ensures PcSees(c, s', u) {
      StepSees(c, s, t, u);
    }
    forall j | 0 <= j < c.nLists ensures ListOk(c, s', j) {
      StepList(c, s, t, j);
    }
  }

  lemma InitInv(c: Config, s: State)
    requires c.Ok() && Init(c, s)
    ensures Inv(c, s)
  {
    forall j | 0 <= j < c.nLists ensures ListLockOk(c, s, j) && ListOk(c, s, j) {
      NothingYet(c, s.pcs, j, |s.pcs|);
    }
  }

  lemma {:induction false} NothingYet(c: Config, pcs: seq<Pc>, j: nat, n: nat)
    requires c.Ok() && |pcs| == c.Threads() && n <= |pcs|
    requires forall t :: 0 <= t < |pcs| ==> pcs[t] == FirstInsert(c) && PcOk(c, pcs[t])
    ensures NetOfAll(c, pcs, j, n) == 0
  {
    if n > 0 {
      NothingYet(c, pcs, j, n - 1);
    }
  }

  // ----- all lists together

  /** Completed insertions minus completed deletions, over the first n threads. */
  function Balance(c: Config, pcs: seq<Pc>, n: nat): int
    requires n <= |pcs|
  {
    if n == 0 then 0 else Balance(c, pcs, n - 1) + Linked(c, pcs[n - 1]) - Unlinked(c, pcs[n - 1])
  }

  /** The first m lists' share of the first n elements of thread t, and all lists' share. */
  function RoutedBelow(c: Config, t: nat, m: nat, n: nat): nat
    requires c.Ok() && t < c.Threads() && n <= c.iterations
  {
    if m == 0 then 0 else RoutedBelow(c, t, m - 1, n) + Routed(c, t, m - 1, n)
  }

  lemma {:induction false} RoutedBelowStep(c: Config, t: nat, m: nat, n: nat)
    requires c.Ok() && t < c.Threads() && n < c.iterations
    ensures RoutedBelow(c, t, m, n + 1) == RoutedBelow(c, t, m, n) + if c.Route(Item(t, n)) < m then 1 else 0
    decreases m
  {
    if m > 0 {
      RoutedBelowStep(c, t, m - 1, n);
    }
  }

  /** Every element belongs to exactly one list. */
  lemma {:induction false} AllRouted(c: Config, t: nat, n: nat)
    requires c.Ok() && t < c.Threads() && n <= c.iterations
    ensures RoutedBelow(c, t, c.nLists, n) == n
  {
    if n > 0 {
      AllRouted(c, t, n - 1);
      RoutedBelowStep(c, t, c.nLists, n - 1);
    } else {
      NoneRouted(c, t, c.nLists);
    }
  }

  lemma {:induction false} NoneRouted(c: Config, t: nat, m: nat)
    requires c.Ok() && t < c.Threads()
    ensures RoutedBelow(c, t, m, 0) == 0
  {
    if m > 0 {
      NoneRouted(c, t, m - 1);
    }
  }

  /** The sum of the first m lists' counts, thread by thread. */
  function NetBelow(c: Config, pcs: seq<Pc>, m: nat, n: nat): int
    requires c.Ok() && |pcs| == c.Threads() && n <= |pcs| && forall t :: 0 <= t < |pcs| ==> PcOk(c, pcs[t])
  {
    if m == 0 then 0 else NetBelow(c, pcs, m - 1, n) + NetOfAll(c, pcs, m - 1, n)
  }

  lemma {:induction false} NetBelowStep(c: Config, pcs: seq<Pc>, m: nat, n: nat)
    requires c.Ok() && |pcs| == c.Threads() && n < |pcs| && forall t :: 0 <= t < |pcs| ==> PcOk(c, pcs[t])
    ensures NetBelow(c, pcs, m, n + 1) == NetBelow(c, pcs, m, n)
              + RoutedBelow(c, n, m, Linked(c, pcs[n])) - RoutedBelow(c, n, m, Unlinked(c, pcs[n]))
    decreases m
  {
    if m > 0 {
      NetBelowStep(c, pcs, m - 1, n);
    }
  }

  lemma {:induction false} NetIsBalance(c: Config, pcs: seq<Pc>, n: nat)
    requires c.Ok() && |pcs| == c.Threads() && n <= |pcs| && forall t :: 0 <= t < |pcs| ==> PcOk(c, pcs[t])
    ensures NetBelow(c, pcs, c.nLists, n) == Balance(c, pcs, n)
  {
    if n > 0 {
      NetIsBalance(c, pcs, n - 1);
      NetBelowStep(c, pcs, c.nLists, n - 1);
      AllRouted(c, n - 1, Linked(c, pcs[n - 1]));
      AllRouted(c, n - 1, Unlinked(c, pcs[n - 1]));
    } else {
      NoNet(c, pcs, c.nLists);
    }
  }

  lemma {:induction false} NoNet(c: Config, pcs: seq<Pc>, m: nat)
    requires c.Ok() && |pcs| == c.Threads() && forall t :: 0 <= t < |pcs| ==> PcOk(c, pcs[t])
    ensures NetBelow(c, pcs, m, 0) == 0
  {
    if m > 0 {
      NoNet(c, pcs, m - 1);
    }
  }

  lemma {:induction false} LengthsAreNets(c: Config, s: State, m: nat)
    requires Inv(c, s) && m <= c.nLists
    ensures TotalLength(s.lists[..m]) == NetBelow(c, s.pcs, m, |s.pcs|)
  {
    if m > 0 {
      LengthsAreNets(c, s, m - 1);
      assert s.lists[..m][..m - 1] == s.lists[..m - 1];
      assert ListOk(c, s, m - 1);
    }
  }

  // The elements in all lists are those inserted and not deleted.
  lemma ListsBalance(c: Config, s: State)
    requires Inv(c, s)
    ensures TotalLength(s.lists) == Balance(c, s.pcs, |s.pcs|)
  {
    LengthsAreNets(c, s, c.nLists);
    assert s.lists[..c.nLists] == s.lists;
    NetIsBalance(c, s.pcs, |s.pcs|);
  }

  // What a thread has counted under all locks, while no other thread is in the middle of an operation.
  lemma CountedExactly(c: Config, s: State, t: nat)
    requires Inv(c, s) && t < |s.pcs| && s.pcs[t].Count? && s.pcs[t].k == c.nLists
    ensures s.pcs[t].sum == Balance(c, s.pcs, |s.pcs|)
    ensures forall u, j :: 0 <= u < |s.pcs| && 0 <= j < c.nLists && u != t ==> !Holds(c, u, s.pcs[u], j)
  {
    ListsBalance(c, s);
    assert PcSees(c, s, t);
    assert s.lists[..c.nLists] == s.lists;
    forall u, j | 0 <= u < |s.pcs| && 0 <= j < c.nLists && u != t ensures !Holds(c, u, s.pcs[u], j) {
      assert ListLockOk(c, s, j);
    }
  }

  /** main's final check: once all threads are done, all lists are empty. */
  lemma FinalLengthIsZero(c: Config, s: State)
    requires Inv(c, s) && forall t :: 0 <= t < |s.pcs| ==> s.pcs[t] == Done
    ensures TotalLength(s.lists) == 0
  {
    ListsBalance(c, s);
    AllBalanced(c, s.pcs, |s.pcs|);
  }

  lemma {:induction false} AllBalanced(c: Config, pcs: seq<Pc>, n: nat)
    requires n <= |pcs| && forall t :: 0 <= t < |pcs| ==> pcs[t] == Done
    ensures Balance(c, pcs, n) == 0
  {
    if n > 0 {
      AllBalanced(c, pcs, n - 1);
    }
  }

  // ----- runs

  /** The schedule leads from s to s'. */
  ghost predicate Leads(c: Config, s: State, schedule: seq<nat>, s': State)
    decreases |schedule|
  {
    if schedule == [] then s' == s
    else
      && WellFormed(c, s) && schedule[0] < |s.pcs| && Enabled(c, s, schedule[0])
      && Leads(c, Step(c, s, schedule[0]), schedule[1..], s')
  }

  /** How many steps a thread has before it. */
  function Ahead(c: Config, pc: Pc): int {
    var m, l := c.iterations, c.nLists;
    match pc
    case InsertLock(i) => 4 * m + 5 + 3 * l + 4 * (m - i)
    case InsertSearch(i) => 4 * m + 5 + 3 * l + 4 * (m - i) - 1
    case InsertLink(i, _) => 4 * m + 5 + 3 * l + 4 * (m - i) - 2
    case InsertUnlock(i) => 4 * m + 5 + 3 * l + 4 * (m - i) - 3
    case LenLock => 4 * m + 5 + 3 * l
    case LockAll(k) => 4 * m + 4 + 3 * l - k
    case Count(k, _) => 4 * m + 3 + 2 * l - k
    case UnlockAll(k, _) => 4 * m + 2 + l - k
    case LenUnlock(_) => 4 * m + 1
    case DeleteLock(i) => 4 * (m - i)
    case Lookup(i) => 4 * (m - i) - 1
    case DeleteUnlink(i, _) => 4 * (m - i) - 2
    case DeleteUnlock(i) => 4 * (m - i) - 3
    case Missing(i) => 4 * (m - i) - 3
    case Done => 0
  }

  function AheadOfAll(c: Config, pcs: seq<Pc>, n: nat): int
    requires n <= |pcs|
  {
    if n == 0 then 0 else AheadOfAll(c, pcs, n - 1) + Ahead(c, pcs[n - 1])
  }

  lemma {:induction false} AheadOfUpdate(c: Config, pcs: seq<Pc>, t: nat, pc: Pc, n: nat)
    requires n <= |pcs| && t < |pcs|
    ensures AheadOfAll(c, pcs[t := pc], n) == AheadOfAll(c, pcs, n)
              + if t < n then Ahead(c, pc) - Ahead(c, pcs[t]) else 0
  {
    if n > 0 {
      AheadOfUpdate(c, pcs, t, pc, n - 1);
    }
  }

  lemma StepAhead(c: Config, s: State, t: nat)
    requires WellFormed(c, s) && t < |s.pcs| && Enabled(c, s, t)
    ensures |Step(c, s, t).pcs| == |s.pcs| && Step(c, s, t).pcs == s.pcs[t := Step(c, s, t).pcs[t]]
    ensures Ahead(c, Step(c, s, t).pcs[t]) < Ahead(c, s.pcs[t])
  {
  }

  /** Every step brings the threads closer to the end. */
  lemma StepComesCloser(c: Config, s: State, t: nat)
    requires WellFormed(c, s) && t < |s.pcs| && Enabled(c, s, t)
    ensures AheadOfAll(c, Step(c, s, t).pcs, |s.pcs|) < AheadOfAll(c, s.pcs, |s.pcs|)
  {
    StepAhead(c, s, t);
    AheadOfUpdate(c, s.pcs, t, Step(c, s, t).pcs[t], |s.pcs|);
  }

  /** Over any run the invariant holds, and no run is longer than what the threads have to do. */
  lemma {:induction false} RunsAreSafe(c: Config, s: State, schedule: seq<nat>, s': State)
    requires Inv(c, s) && Leads(c, s, schedule, s')
    ensures Inv(c, s') && |s'.pcs| == |s.pcs|
    ensures |schedule| <= AheadOfAll(c, s.pcs, |s.pcs|) - AheadOfAll(c, s'.pcs, |s.pcs|)
    decreases |schedule|
  {
    if schedule != [] {
      StepInv(c, s, schedule[0]);
      StepComesCloser(c, s, schedule[0]);
      RunsAreSafe(c, Step(c, s, schedule[0]), schedule[1..], s');
    }
  }

  /** States that some interleaving of the threads leads to. */
  ghost predicate Reachable(c: Config, s: State) {
    c.Ok() && exists s0: State, schedule: seq<nat> :: Init(c, s0) && Leads(c, s0, schedule, s)
  }

  lemma ReachableInv(c: Config, s: State)
    requires Reachable(c, s)
    ensures Inv(c, s)
  {
    var s0: State, schedule: seq<nat> :| Init(c, s0) && Leads(c, s0, schedule, s);
    InitInv(c, s0);
    RunsAreSafe(c, s0, schedule, s);
  }

  /** Mutual exclusion: in no interleaving are two threads in the section of one list. */
  lemma MutualExclusion(c: Config, s: State, t: nat, u: nat, j: nat)
    requires Reachable(c, s) && t < |s.pcs| && u < |s.pcs| && j < c.nLists
    ensures WellFormed(c, s)
    ensures Holds(c, t, s.pcs[t], j) && Holds(c, u, s.pcs[u], j) ==> t == u
  {
    ReachableInv(c, s);
    if Holds(c, t, s.pcs[t], j) && Holds(c, u, s.pcs[u], j) {
      OneInSection(c, s, t, u, j);
    }
  }

  /** Deadlock freedom: in every interleaving, as long as a thread is unfinished, some thread is not waiting. */
  lemma NoDeadlock(c: Config, s: State, t: nat) returns (u: nat)
    requires Reachable(c, s) && t < |s.pcs| && s.pcs[t] != Done
    ensures WellFormed(c, s) && u < |s.pcs| && Enabled(c, s, u)
  {
    ReachableInv(c, s);
    u := SomeoneMoves(c, s, t);
  }

  /** At any time every list is sorted, holds only elements that hash sends there, none of them twice, and its count
      is the threads' insertions into it minus their deletions from it. */
  lemma ListsStayInOrder(c: Config, s: State, j: nat)
    requires Reachable(c, s) && j < c.nLists
    ensures WellFormed(c, s) && Ascending(KeysOf(c, s.lists[j]))
    ensures forall e :: e in s.lists[j] ==> c.Route(e) == j
    ensures forall a, b :: 0 <= a < b < |s.lists[j]| ==> s.lists[j][a] != s.lists[j][b]
    ensures |s.lists[j]| == NetOfAll(c, s.pcs, j, |s.pcs|)
  {
    ReachableInv(c, s);
    assert ListOk(c, s, j);
  }

  /** The "should never be here" branch is never taken. */
  lemma NeverHere(c: Config, s: State, t: nat)
    requires Reachable(c, s) && t < |s.pcs|
    ensures !s.pcs[t].Missing?
  {
    ReachableInv(c, s);
    assert PcSees(c, s, t);
  }

  /** Conservation: at any time the elements in all lists are those inserted and not deleted. */
  lemma Conservation(c: Config, s: State)
    requires Reachable(c, s)
    ensures TotalLength(s.lists) == Balance(c, s.pcs, |s.pcs|)
  {
    ReachableInv(c, s);
    ListsBalance(c, s);
  }

  /** The length that a thread reads under all locks is the number of insertions minus deletions completed by then,
      and no other thread is in the middle of one. */
  lemma LengthIsExact(c: Config, s: State, t: nat)
    requires Reachable(c, s) && t < |s.pcs| && s.pcs[t].Count? && s.pcs[t].k == c.nLists
    ensures WellFormed(c, s) && s.pcs[t].sum == Balance(c, s.pcs, |s.pcs|)
    ensures forall u, j :: 0 <= u < |s.pcs| && 0 <= j < c.nLists && u != t ==> !Holds(c, u, s.pcs[u], j)
  {
    ReachableInv(c, s);
    CountedExactly(c, s, t);
  }

  /** From every reachable state all threads can finish; every run that cannot go on has finished, with all lists
      empty. */
  lemma StuckMeansFinished(c: Config, s: State, schedule: seq<nat>, s': State)
    requires c.Ok() && Init(c, s) && Leads(c, s, schedule, s')
    requires WellFormed(c, s') ==> forall t :: 0 <= t < |s'.pcs| ==> !Enabled(c, s', t)
    ensures TotalLength(s'.lists) == 0 && forall t :: 0 <= t < |s'.pcs| ==> s'.pcs[t] == Done
  {
    InitInv(c, s);
    RunsAreSafe(c, s, schedule, s');
    forall t | 0 <= t < |s'.pcs| ensures s'.pcs[t] == Done {
      if s'.pcs[t] != Done {
        var u := SomeoneMoves(c, s', t);
      }
    }
    FinalLengthIsZero(c, s');
  }
}
