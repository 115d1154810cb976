// The threads' lists in memory: whatever the interleaving, the pointers of
// all rings do at every step what the machine does to its sequences.
module ListMemory {
  import opened SortedList
  import opened Threads = ListThreads

  // The list heads, thread t's elements, and all of these together.
  datatype Memory = Memory(c: Config, heads: seq<Element>, elements: seq<seq<Element>>, ghost all: set<Element>) {
    ghost predicate Sized() {
      && c.Ok() && |heads| == c.nLists && |elements| == c.Threads()
      && forall t :: 0 <= t < |elements| ==> |elements[t]| == c.iterations
    }

    /** The element in memory that stands for an element of the machine. */
    function Elem(e: Item): Element
      requires Sized() && c.Has(e)
    {
      elements[e.thread][e.index]
    }

    /** Everything has a place of its own, and the keys are those of the machine. */
    ghost predicate Laid() {
      && Sized()
      && (forall j :: 0 <= j < |heads| ==> heads[j] in all)
      && (forall e: Item :: c.Has(e) ==> Elem(e) in all && Elem(e).key == c.KeyOf(e) && Elem(e) !in heads)
      && (forall e: Item, f: Item :: c.Has(e) && c.Has(f) && e != f ==> Elem(e) != Elem(f))
      && (forall i, j :: 0 <= i < j < |heads| ==> heads[i] != heads[j])
    }

    ghost function InMemory(items: seq<Item>): (r: seq<Element>)
      requires Laid() && forall e :: e in items ==> c.Has(e)
      ensures |r| == |items| && forall i :: 0 <= i < |items| ==> r[i] == Elem(items[i]) && r[i] in all
    {
      seq(|items|, i requires 0 <= i < |items| => Elem(items[i]))
    }

    /** The head of list j, and the elements that belong to the list. */
    ghost predicate Belongs(o: Element, j: nat)
      requires Sized() && j < c.nLists
    {
      o == heads[j] || exists e: Item :: c.Has(e) && c.Route(e) == j && Elem(e) == o
    }
  }

  /** Nothing belongs to two lists. */
  lemma BelongsOnce(m: Memory, o: Element, i: nat, j: nat)
    requires m.Laid() && i < m.c.nLists && j < m.c.nLists && m.Belongs(o, i) && m.Belongs(o, j)
    ensures i == j
  {
  }

  /** What thread t has in its registers: the place found by the search, the element found by the lookup, the sum. */
  ghost predicate Register(m: Memory, s: State, t: nat, found: Element, sum: int)
    requires m.Laid() && WellFormed(m.c, s) && t < |s.pcs|
  {
    match s.pcs[t]
    case InsertLink(i, place) =>
      var j := m.c.Route(Item(t, i));
      place <= |s.lists[j]| && found == At(m.heads[j], m.InMemory(s.lists[j]), place + 1)
    case DeleteUnlink(i, e) => found == m.Elem(e)
    case Count(_, n) => sum == n
    case UnlockAll(_, n) => sum == n
    case LenUnlock(n) => sum == n
    case _ => true
  }

  ghost predicate RingAt(m: Memory, s: State, j: nat)
    requires m.Laid() && WellFormed(m.c, s) && j < m.c.nLists
    reads m.all
  {
    Ring(m.heads[j], m.InMemory(s.lists[j]))
  }

  ghost predicate Rings(m: Memory, s: State)
    requires m.Laid() && WellFormed(m.c, s)
    reads m.all
  {
    forall j :: 0 <= j < m.c.nLists ==> RingAt(m, s, j)
  }

  lemma StaysApart(m: Memory, s: State, i: nat, j: nat)
    requires m.Laid() && WellFormed(m.c, s) && i < m.c.nLists && j < m.c.nLists && i != j && ItemsOk(m.c, s, i)
    ensures !m.Belongs(m.heads[i], j)
    ensures forall o :: o in m.InMemory(s.lists[i]) ==> !m.Belongs(o, j)
  {
    forall o | o in m.InMemory(s.lists[i]) ensures !m.Belongs(o, j) {
      var k :| 0 <= k < |s.lists[i]| && m.InMemory(s.lists[i])[k] == o;
      assert s.lists[i][k] in s.lists[i] && m.Belongs(o, i);
      if m.Belongs(o, j) {
        BelongsOnce(m, o, i, j);
      }
    }
    assert m.Belongs(m.heads[i], i);
    if m.Belongs(m.heads[i], j) {
      BelongsOnce(m, m.heads[i], i, j);
    }
  }

  lemma RingsSame(m: Memory, s: State, s': State)
    requires m.Laid() && WellFormed(m.c, s) && WellFormed(m.c, s') && s'.lists == s.lists && Rings(m, s)
    ensures Rings(m, s')
  {
    forall j | 0 <= j < m.c.nLists ensures RingAt(m, s', j) {
      assert RingAt(m, s, j);
    }
  }

  ghost predicate Registers(m: Memory, s: State, found: seq<Element>, sums: seq<int>)
    requires m.Laid() && WellFormed(m.c, s)
  {
    |found| == |sums| == |s.pcs| && forall t :: 0 <= t < |s.pcs| ==> Register(m, s, t, found[t], sums[t])
  }

  /** A step of one thread leaves the registers of the others as they should be: their lists are locked. */
  lemma RegistersAfter(m: Memory, s: State, t: nat, found: seq<Element>, sums: seq<int>, f: Element, n: int)
    requires m.Laid() && Inv(m.c, s) && t < |s.pcs| && Enabled(m.c, s, t) && (Registers(m, s, found, sums) == true)
    requires WellFormed(m.c, Step(m.c, s, t)) && Register(m, Step(m.c, s, t), t, f, n)
    ensures |found| == |sums| == |s.pcs| && (Registers(m, Step(m.c, s, t), found[t := f], sums[t := n]) == true)
  {
    var s' := Step(m.c, s, t);
    var found', sums' := found[t := f], sums[t := n];
    forall u | 0 <= u < |s'.pcs| ensures Register(m, s', u, found'[u], sums'[u]) {
      if u != t {
        OthersRegister(m, s, t, u, found[u], sums[u]);
      }
    }
  }

  lemma OthersRegister(m: Memory, s: State, t: nat, u: nat, found: Element, sum: int)
    requires m.Laid() && Inv(m.c, s) && t < |s.pcs| && u < |s.pcs| && u != t && Enabled(m.c, s, t)
    requires WellFormed(m.c, Step(m.c, s, t)) && Register(m, s, u, found, sum)
    ensures Register(m, Step(m.c, s, t), u, found, sum)
  {
    var s' := Step(m.c, s, t);
    match s.pcs[t] {
      case InsertLink(i, _) => OthersSeeNothing(m.c, s, t, u, m.c.Route(Item(t, i)));
      case DeleteUnlink(i, _) => OthersSeeNothing(m.c, s, t, u, m.c.Route(Item(t, i)));
      case _ => assert s'.lists == s.lists;
    }
  }

  // ----- linking in and out

  lemma InsertedInMemory(m: Memory, items: seq<Item>, k: nat, x: Item)
    requires m.Laid() && k <= |items| && m.c.Has(x) && forall e :: e in items ==> m.c.Has(e)
    ensures forall e :: e in Inserted(items, k, x) ==> m.c.Has(e)
    ensures m.InMemory(Inserted(items, k, x)) == Inserted(m.InMemory(items), k, m.Elem(x))
  {
    assert forall e :: e in Inserted(items, k, x) ==> e in items || e == x;
  }

  lemma FirstRemoved(m: Memory, items: seq<Item>)
    requires m.Laid() && items != [] && forall e :: e in items ==> m.c.Has(e)
    ensures forall e :: e in Removed(items, items[0]) ==> m.c.Has(e)
    ensures m.InMemory(Removed(items, items[0])) == Without(m.InMemory(items), 0)
  {
    assert Removed(items, items[0]) == items[1..];
  }

  // The thread's element is not linked in yet.
  lemma NotLinkedYet(m: Memory, s: State, t: nat)
    requires m.Laid() && Inv(m.c, s) && t < |s.pcs| && s.pcs[t].InsertLink?
    ensures var x := Item(t, s.pcs[t].i); m.Elem(x) !in m.InMemory(s.lists[m.c.Route(x)])
  {
    var x := Item(t, s.pcs[t].i);
    assert ListOk(m.c, s, m.c.Route(x)) && x !in s.lists[m.c.Route(x)];
  }

  /** A ring that has nothing to do with list j or with the element. */
  predicate Apart(head: Element, items: seq<Element>, list: Element, listed: seq<Element>, element: Element) {
    && head != list && head !in listed && head != element
    && forall o :: o in items ==> o != list && o !in listed && o != element
  }

  /** The four assignments of SortedList_insert: list j gets the element, and no other ring is touched. */
  method LinkAmong(ghost heads: seq<Element>, ghost rings: seq<seq<Element>>, ghost j: nat, ghost k: nat,
                   element: Element, n: Element)
    requires j < |heads| == |rings| && forall i :: 0 <= i < |heads| ==> Ring(heads[i], rings[i])
    requires forall i :: 0 <= i < |heads| && i != j ==> Apart(heads[i], rings[i], heads[j], rings[j], element)
    requires element != heads[j] && element !in rings[j] && k <= |rings[j]| && n == At(heads[j], rings[j], k + 1)
    modifies element, heads[j], rings[j]
    ensures forall i :: 0 <= i < |heads| ==> Ring(heads[i], rings[j := Inserted(rings[j], k, element)][i])
  {
    assert At(heads[j], rings[j], k).next == n && n.prev == At(heads[j], rings[j], k);
    var p := n.prev;
    assert p == heads[j] || p in rings[j];
    assert n == heads[j] || n in rings[j];
    LinkIn(element, p, n, heads[j], rings[j], k);
    forall i | 0 <= i < |heads| && i != j ensures Ring(heads[i], rings[i]) {
      assert Apart(heads[i], rings[i], heads[j], rings[j], element);
      assert heads[i] !in {element, p, n} && forall o :: o in rings[i] ==> o !in {element, p, n};
      assert old(Ring(heads[i], rings[i]));
    }
  }

  ghost function AllRings(m: Memory, s: State): (r: seq<seq<Element>>)
    requires m.Laid() && WellFormed(m.c, s)
    ensures |r| == m.c.nLists && forall j :: 0 <= j < m.c.nLists ==> r[j] == m.InMemory(s.lists[j])
  {
    seq(m.c.nLists, j requires 0 <= j < m.c.nLists => m.InMemory(s.lists[j]))
  }

  lemma OthersApart(m: Memory, s: State, i: nat, j: nat, x: Item)
    requires m.Laid() && Inv(m.c, s) && i < m.c.nLists && j < m.c.nLists && i != j && m.c.Has(x) && m.c.Route(x) == j
    ensures Apart(m.heads[i], m.InMemory(s.lists[i]), m.heads[j], m.InMemory(s.lists[j]), m.Elem(x))
  {
    assert ListOk(m.c, s, i) && ListOk(m.c, s, j);
    StaysApart(m, s, i, j);
    StaysApart(m, s, j, i);
    assert m.Belongs(m.Elem(x), j) && m.Belongs(m.heads[j], j);
  }

  // The thread's element goes into its list, between the neighbours found before.
  method LinkItem(m: Memory, ghost s: State, ghost t: nat, element: Element, n: Element)
    requires m.Laid() && Inv(m.c, s) && t < |s.pcs| && s.pcs[t].InsertLink? && (Rings(m, s) == true)
    requires Register(m, s, t, n, 0) && element == m.Elem(Item(t, s.pcs[t].i))
    modifies m.all
    ensures WellFormed(m.c, Step(m.c, s, t)) && (Rings(m, Step(m.c, s, t)) == true)
  {
    ghost var x, k := Item(t, s.pcs[t].i), s.pcs[t].place;
    ghost var j, rings := m.c.Route(x), AllRings(m, s);
    StepWellFormed(m.c, s, t);
    NotLinkedYet(m, s, t);
    InsertedInMemory(m, s.lists[j], k, x);
    forall i | 0 <= i < m.c.nLists && i != j ensures Apart(m.heads[i], rings[i], m.heads[j], rings[j], element) {
      OthersApart(m, s, i, j, x);
    }
    forall i | 0 <= i < m.c.nLists ensures Ring(m.heads[i], rings[i]) {
      assert RingAt(m, s, i);
    }
    LinkAmong(m.heads, rings, j, k, element, n);
    assert AllRings(m, Step(m.c, s, t)) == rings[j := Inserted(rings[j], k, element)];
  }

  /** SortedList_delete among all lists: the first element of list j goes, and no other ring is touched. */
  method UnlinkAmong(ghost heads: seq<Element>, ghost rings: seq<seq<Element>>, ghost j: nat, element: Element)
    returns (r: int)
    requires j < |heads| == |rings| && forall i :: 0 <= i < |heads| ==> Ring(heads[i], rings[i])
    requires rings[j] != [] && element == rings[j][0]
    requires forall i :: 0 <= i < |heads| && i != j ==> Apart(heads[i], rings[i], heads[j], rings[j], element)
    modifies heads[j], rings[j]
    ensures r == 0 && forall i :: 0 <= i < |heads| ==> Ring(heads[i], rings[j := Without(rings[j], 0)][i])
  {
    r := Delete(element, heads[j], rings[j], 0);
    forall i | 0 <= i < |heads| && i != j ensures Ring(heads[i], rings[i]) {
      assert Apart(heads[i], rings[i], heads[j], rings[j], element);
      forall x | 0 <= x < |rings[i]| ensures unchanged(rings[i][x]) {
        assert rings[i][x] in rings[i];
      }
      assert old(Ring(heads[i], rings[i])) && unchanged(heads[i]);
    }
  }

  // The element that the lookup found goes out of its list.
  method UnlinkItem(m: Memory, ghost s: State, ghost t: nat, element: Element) returns (r: int)
    requires m.Laid() && Inv(m.c, s) && t < |s.pcs| && s.pcs[t].DeleteUnlink? && (Rings(m, s) == true)
    requires element == m.Elem(s.pcs[t].target)
    modifies m.all
    ensures r == 0 && WellFormed(m.c, Step(m.c, s, t)) && (Rings(m, Step(m.c, s, t)) == true)
  {
    ghost var j, rings := m.c.Route(Item(t, s.pcs[t].i)), AllRings(m, s);
    StepWellFormed(m.c, s, t);
    FirstIsTarget(m, s, t);
    FirstRemoved(m, s.lists[j]);
    forall i | 0 <= i < m.c.nLists && i != j ensures Apart(m.heads[i], rings[i], m.heads[j], rings[j], element) {
      OthersApart(m, s, i, j, s.pcs[t].target);
    }
    forall i | 0 <= i < m.c.nLists ensures Ring(m.heads[i], rings[i]) {
      assert RingAt(m, s, i);
    }
    r := UnlinkAmong(m.heads, rings, j, element);
    assert AllRings(m, Step(m.c, s, t)) == rings[j := Without(rings[j], 0)];
  }

  lemma FirstIsTarget(m: Memory, s: State, t: nat)
    requires m.Laid() && Inv(m.c, s) && t < |s.pcs| && s.pcs[t].DeleteUnlink?
    ensures var j, e := m.c.Route(Item(t, s.pcs[t].i)), s.pcs[t].target;
      s.lists[j] != [] && s.lists[j][0] == e && m.c.Has(e) && m.c.Route(e) == j
  {
    assert PcSees(m.c, s, t) && ListOk(m.c, s, m.c.Route(Item(t, s.pcs[t].i)));
  }

  /** The initial state of the machine. */
  function Start(c: Config): State {
    State(seq(c.Threads(), _ => FirstInsert(c)), seq(c.nLists, _ => []), seq(c.nLists, _ => Free), Free)
  }

  method MakeHeads(n: nat) returns (heads: seq<Element>)
    ensures |heads| == n && forall j :: 0 <= j < n ==> fresh(heads[j]) && Ring(heads[j], [])
    ensures forall i, j :: 0 <= i < j < n ==> heads[i] != heads[j]
  {
    heads := [];
    while |heads| < n
      invariant |heads| <= n && forall j :: 0 <= j < |heads| ==> fresh(heads[j]) && Ring(heads[j], [])
      invariant forall i, j :: 0 <= i < j < |heads| ==> heads[i] != heads[j]
    {
      var head := new Element.Head();
      heads := heads + [head];
    }
  }

  method MakeRow(keys: seq<Key>) returns (row: seq<Element>)
    ensures |row| == |keys| && forall i :: 0 <= i < |row| ==> fresh(row[i]) && row[i].key == keys[i]
    ensures forall i, j :: 0 <= i < j < |row| ==> row[i] != row[j]
  {
    row := [];
    while |row| < |keys|
      invariant |row| <= |keys| && forall i :: 0 <= i < |row| ==> fresh(row[i]) && row[i].key == keys[i]
      invariant forall i, j :: 0 <= i < j < |row| ==> row[i] != row[j]
    {
      var element := new Element(keys[|row|]);
      row := row + [element];
    }
  }

  // main's elements, a row for each thread.
  method MakeElements(keys: seq<seq<Key>>) returns (rows: seq<seq<Element>>)
    ensures |rows| == |keys| && forall t :: 0 <= t < |rows| ==> |rows[t]| == |keys[t]|
    ensures forall t, i :: 0 <= t < |rows| && 0 <= i < |rows[t]| ==>
              fresh(rows[t][i]) && rows[t][i].key == keys[t][i]
    ensures forall t, i, u, j :: 0 <= t < |rows| && 0 <= i < |rows[t]| && 0 <= u < |rows| && 0 <= j < |rows[u]| ==>
              rows[t][i] == rows[u][j] ==> t == u && i == j
  {
    rows := [];
    while |rows| < |keys|
      invariant |rows| <= |keys| && forall t :: 0 <= t < |rows| ==> |rows[t]| == |keys[t]|
      invariant forall t, i :: 0 <= t < |rows| && 0 <= i < |rows[t]| ==>
                  fresh(rows[t][i]) && rows[t][i].key == keys[t][i]
      invariant forall t, i, u, j ::
                  0 <= t < |rows| && 0 <= i < |rows[t]| && 0 <= u < |rows| && 0 <= j < |rows[u]| ==>
                  rows[t][i] == rows[u][j] ==> t == u && i == j
    {
      var row := MakeRow(keys[|rows|]);
      rows := rows + [row];
    }
  }

  class Program {
    const m: Memory
    var s: State
    var found: seq<Element>
    var sums: seq<int>

    ghost predicate Valid()
      reads this, m.all
    {
      m.Laid() && Inv(m.c, s) && Registers(m, s, found, sums) && Rings(m, s)
    }

    /** What main sets up before it starts the threads. */
    constructor (c: Config)
      requires c.Ok()
      ensures (Valid() == true) && m.c == c && s == Start(c) && fresh(m.all)
    {
      var heads := MakeHeads(c.nLists);
      var rows := MakeElements(c.keys);
      ghost var all := (set h | h in heads) + (set row, e | row in rows && e in row :: e);
      m := Memory(c, heads, rows, all);
      s := Start(c);
      found := seq(c.Threads(), _ => heads[0]);
      sums := seq(c.Threads(), _ => 0);
      new;
      assert forall t, i :: 0 <= t < |rows| && 0 <= i < |rows[t]| ==> rows[t] in rows && rows[t][i] in rows[t];
      assert m.Laid();
      InitInv(c, s);
      forall j | 0 <= j < c.nLists ensures RingAt(m, s, j) {
        assert m.InMemory(s.lists[j]) == [];
      }
    }

    // Thread t has done a step, which leaves these in its registers.
    method Advance(t: nat, f: Element, n: int)
      requires m.Laid() && Inv(m.c, s) && t < |s.pcs| && Enabled(m.c, s, t)
      requires (Registers(m, s, found, sums) == true) && WellFormed(m.c, Step(m.c, s, t))
      requires (Register(m, Step(m.c, s, t), t, f, n) == true) && (Rings(m, Step(m.c, s, t)) == true)
      modifies this
      ensures (Valid() == true) && s == Step(m.c, old(s), t)
    {
      StepInv(m.c, s, t);
      RegistersAfter(m, s, t, found, sums, f, n);
      found, sums := found[t := f], sums[t := n];
      s := Step(m.c, s, t);
    }

    // The search of SortedList_insert.
    method Search(t: nat)
      requires Valid() && t < |s.pcs| && s.pcs[t].InsertSearch?
      modifies this
      ensures (Valid() == true) && s == Step(m.c, old(s), t)
    {
      var x := Item(t, s.pcs[t].i);
      ghost var items := m.InMemory(s.lists[m.c.Route(x)]);
      assert Keys(items) == KeysOf(m.c, s.lists[m.c.Route(x)]);
      assert RingAt(m, s, m.c.Route(x));
      var n;
      ghost var k;
      n, k := FindPlace(m.heads[m.c.Route(x)], m.Elem(x).key, items);
      StepWellFormed(m.c, s, t);
      RingsSame(m, s, Step(m.c, s, t));
      Advance(t, n, sums[t]);
    }

    // The rest of SortedList_insert.
    method Link(t: nat)
      requires Valid() && t < |s.pcs| && s.pcs[t].InsertLink?
      modifies this, m.all
      ensures (Valid() == true) && s == Step(m.c, old(s), t)
    {
      assert Register(m, s, t, found[t], sums[t]);
      LinkItem(m, s, t, m.Elem(Item(t, s.pcs[t].i)), found[t]);
      Advance(t, found[t], sums[t]);
    }

    // SortedList_lookup, which never answers NULL here.
    method Find(t: nat)
      requires Valid() && t < |s.pcs| && s.pcs[t].Lookup?
      modifies this
      ensures (Valid() == true) && s == Step(m.c, old(s), t)
    {
      var x := Item(t, s.pcs[t].i);
      NeverMissing(m.c, s, t);
      assert RingAt(m, s, m.c.Route(x));
      var target := SortedList.Lookup(m.heads[m.c.Route(x)], m.Elem(x).key, m.InMemory(s.lists[m.c.Route(x)]));
      StepWellFormed(m.c, s, t);
      RingsSame(m, s, Step(m.c, s, t));
      Advance(t, target, sums[t]);
    }

    // SortedList_delete on what the lookup found.
    method Unlink(t: nat)
      requires Valid() && t < |s.pcs| && s.pcs[t].DeleteUnlink?
      modifies this, m.all
      ensures (Valid() == true) && s == Step(m.c, old(s), t)
    {
      assert Register(m, s, t, found[t], sums[t]);
      var r := UnlinkItem(m, s, t, found[t]);
      Advance(t, found[t], sums[t]);
    }

    // One list of SortedList_length.
    method CountOne(t: nat)
      requires Valid() && t < |s.pcs| && s.pcs[t].Count?
      modifies this
      ensures (Valid() == true) && s == Step(m.c, old(s), t)
    {
      assert Register(m, s, t, found[t], sums[t]);
      StepWellFormed(m.c, s, t);
      RingsSame(m, s, Step(m.c, s, t));
      var n, k := 0, s.pcs[t].k;
      if k < m.c.nLists {
        assert RingAt(m, s, k);
        n := CountList(m.heads[k], m.InMemory(s.lists[k]));
      }
      Advance(t, found[t], sums[t] + n);
    }

    /** One step of thread t, wherever it stands: memory goes along with the machine. */
    method Move(t: nat)
      requires Valid() && t < |s.pcs| && Enabled(m.c, s, t)
      modifies this, m.all
      ensures (Valid() == true) && s == Step(m.c, old(s), t)
    {
      if s.pcs[t].InsertSearch? {
        Search(t);
      } else if s.pcs[t].InsertLink? {
        Link(t);
      } else if s.pcs[t].Count? {
        CountOne(t);
      } else if s.pcs[t].Lookup? {
        Find(t);
      } else if s.pcs[t].DeleteUnlink? {
        Unlink(t);
      } else {
        Pass(t, if s.pcs[t].LockAll? then 0 else sums[t]);
      }
    }

    // A step that has nothing to do with the lists; a thread that starts to count starts at 0.
    method Pass(t: nat, n: int)
      requires Valid() && t < |s.pcs| && Enabled(m.c, s, t) && n == (if s.pcs[t].LockAll? then 0 else sums[t])
      requires var pc := s.pcs[t];
        !pc.InsertSearch? && !pc.InsertLink? && !pc.Count? && !pc.Lookup? && !pc.DeleteUnlink?
      modifies this
      ensures (Valid() == true) && s == Step(m.c, old(s), t)
    {
      assert Register(m, s, t, found[t], sums[t]);
      StepWellFormed(m.c, s, t);
      RingsSame(m, s, Step(m.c, s, t));
      Advance(t, found[t], n);
    }

    /** Every run: whatever the interleaving, memory ends up where the machine does. */
    method Play(schedule: seq<nat>, ghost final: State)
      requires Valid() && Leads(m.c, s, schedule, final)
      modifies this, m.all
      ensures (Valid() == true) && s == final
    {
      var k := 0;
      while k < |schedule|
        invariant k <= |schedule| && (Valid() == true) && Leads(m.c, s, schedule[k..], final)
      {
        assert schedule[k..][0] == schedule[k] && schedule[k..][1..] == schedule[k + 1..];
        Move(schedule[k]);
        k := k + 1;
      }
    }
  }

  /** From main's initialization through any run of the threads: memory has followed the machine, and when no thread can
      go on, all rings are empty. */
  method Execute(c: Config, schedule: seq<nat>, ghost final: State) returns (p: Program)
    requires c.Ok() && Leads(c, Start(c), schedule, final)
    ensures (p.Valid() == true) && p.m.c == c && p.s == final
    ensures (forall t :: 0 <= t < |final.pcs| ==> !Enabled(c, final, t)) ==>
              forall j :: 0 <= j < c.nLists ==> Ring(p.m.heads[j], [])
  {
    p := new Program(c);
    p.Play(schedule, final);
    if forall t :: 0 <= t < |final.pcs| ==> !Enabled(c, final, t) {
      StuckMeansFinished(c, Start(c), schedule, final);
      forall j | 0 <= j < c.nLists ensures Ring(p.m.heads[j], []) {
        assert RingAt(p.m, final, j);
        NothingLeft(final.lists, j);
        assert p.m.InMemory([]) == [];
      }
    }
  }

  lemma {:induction false} NothingLeft<T>(lists: seq<seq<T>>, j: nat)
    requires j < |lists| && TotalLength(lists) == 0
    ensures lists[j] == []
  {
    if j < |lists| - 1 {
      NothingLeft(lists[..|lists| - 1], j);
    }
  }
}
