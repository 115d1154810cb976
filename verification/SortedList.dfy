// The circular doubly linked sorted list: its shape, its order, and what each
// operation does to the sequence of its elements.
module SortedList {

  // Keys are C strings of plain characters.
  type KeyChar = c: int | 0 < c < 128 witness 1
  type Key = seq<KeyChar>

  // ----- the order of keys

  /** strcmp(a, b) <= 0 */
  predicate AtMost(a: Key, b: Key) {
    a == [] || (b != [] && (a[0] < b[0] || (a[0] == b[0] && AtMost(a[1..], b[1..]))))
  }

  lemma {:induction false} Total(a: Key, b: Key)
    ensures AtMost(a, b) || AtMost(b, a)
  {
    if a != [] && b != [] {
      Total(a[1..], b[1..]);
    }
  }

  lemma {:induction false} Transitive(a: Key, b: Key, c: Key)
    requires AtMost(a, b) && AtMost(b, c)
    ensures AtMost(a, c)
  {
    if a != [] && b != [] && c != [] && a[0] == b[0] == c[0] {
      Transitive(a[1..], b[1..], c[1..]);
    }
  }

  /** The keys first differ in character i, where a has the smaller one. */
  predicate SmallerAt(a: Key, b: Key, i: nat) {
    i < |a| && i < |b| && a[..i] == b[..i] && a[i] < b[i]
  }

  /** The order of strings: a is the beginning of b, or smaller where they first differ. */
  ghost predicate NotAfter(a: Key, b: Key) {
    a <= b || exists i: nat :: SmallerAt(a, b, i)
  }

  lemma {:induction false} AtMostMeans(a: Key, b: Key)
    ensures AtMost(a, b) <==> NotAfter(a, b)
  {
    if a != [] && b != [] && a[0] == b[0] {
      AtMostMeans(a[1..], b[1..]);
      if i: nat :| SmallerAt(a[1..], b[1..], i) {
        assert a[..i + 1] == [a[0]] + a[1..][..i] && b[..i + 1] == [b[0]] + b[1..][..i];
        assert SmallerAt(a, b, i + 1);
      }
      if i: nat :| SmallerAt(a, b, i) {
        assert a[1..][..i - 1] == a[..i][1..] && b[1..][..i - 1] == b[..i][1..];
        assert SmallerAt(a[1..], b[1..], i - 1);
      }
      assert a == [a[0]] + a[1..] && b == [b[0]] + b[1..];
    } else if a != [] && b != [] && a[0] < b[0] {
      assert SmallerAt(a, b, 0);
    }
  }

  lemma Antisymmetric(a: Key, b: Key)
    requires NotAfter(a, b) && NotAfter(b, a)
    ensures a == b
  {
  }

  ghost predicate Ascending(keys: seq<Key>) {
    forall i, j :: 0 <= i < j < |keys| ==> NotAfter(keys[i], keys[j])
  }

  /** Where a key goes: before the first one that is not smaller. */
  function Place(keys: seq<Key>, key: Key): (k: nat)
    ensures k <= |keys|
    ensures k < |keys| ==> AtMost(key, keys[k])
    ensures forall i :: 0 <= i < k ==> !AtMost(key, keys[i])
  {
    if keys == [] || AtMost(key, keys[0]) then 0 else 1 + Place(keys[1..], key)
  }

  lemma {:induction false} PlaceIs(keys: seq<Key>, key: Key, k: nat)
    requires k <= |keys| && (k < |keys| ==> AtMost(key, keys[k]))
    requires forall i :: 0 <= i < k ==> !AtMost(key, keys[i])
    ensures Place(keys, key) == k
  {
    if k > 0 {
      PlaceIs(keys[1..], key, k - 1);
    }
  }

  function Inserted<T>(s: seq<T>, k: nat, x: T): seq<T>
    requires k <= |s|
  {
    s[..k] + [x] + s[k..]
  }

  function Without<T>(s: seq<T>, k: nat): seq<T>
    requires k < |s|
  {
    s[..k] + s[k + 1..]
  }

  /** Inserting at its place keeps a key sequence ascending. */
  lemma InsertAscends(keys: seq<Key>, key: Key)
    requires Ascending(keys)
    ensures Ascending(Inserted(keys, Place(keys, key), key))
  {
    var k := Place(keys, key);
    var keys' := Inserted(keys, k, key);
    forall i, j | 0 <= i < j < |keys'| ensures NotAfter(keys'[i], keys'[j]) {
      AtMostMeans(keys'[i], keys'[j]);
      if i == k {
        assert keys'[j] == keys[j - 1];
        if j - 1 > k {
          AtMostMeans(keys[k], keys[j - 1]);
          Transitive(key, keys[k], keys[j - 1]);
        }
      } else if j == k {
        Total(key, keys[i]);
      }
    }
  }

  lemma DeleteAscends(keys: seq<Key>, k: nat)
    requires Ascending(keys) && k < |keys|
    ensures Ascending(Without(keys, k))
  {
  }

  /** Exactly one element more, or fewer. */
  lemma InsertConserves<T>(s: seq<T>, k: nat, x: T)
    requires k <= |s|
    ensures multiset(Inserted(s, k, x)) == multiset(s) + multiset{x}
  {
    assert s == s[..k] + s[k..];
  }

  lemma DeleteConserves<T>(s: seq<T>, k: nat)
    requires k < |s|
    ensures multiset(Without(s, k)) == multiset(s) - multiset{s[k]}
  {
    assert s == s[..k] + [s[k]] + s[k + 1..];
  }

  // ----- the list in memory

  // List heads are elements too; their key is not used.
  class Element {
    var prev: Element?
    var next: Element?
    const key: Key

    constructor (key: Key)
      ensures this.key == key && prev == null && next == null
    {
      this.key := key;
      prev, next := null, null;
    }

    // main's initialization of a list head: an empty list.
    constructor Head()
      ensures Ring(this, [])
    {
      key := [];
      prev, next := this, this;
    }
  }

  /** The i-th element of the ring, counting the head as 0 and going round. */
  function At(head: Element, items: seq<Element>, i: nat): Element
    requires i <= |items| + 1
  {
    if i == 0 || i == |items| + 1 then head else items[i - 1]
  }

  /** The elements 'items' form a ring with the head: next and prev are each other's inverse all the way round. */
  ghost predicate Ring(head: Element, items: seq<Element>)
    reads head, items
  {
    && head !in items
    && (forall i, j :: 0 <= i < j < |items| ==> items[i] != items[j])
    && (forall i {:trigger At(head, items, i)} :: 0 <= i <= |items| ==>
          && At(head, items, i).next == At(head, items, i + 1)
          && At(head, items, i + 1).prev == At(head, items, i))
  }

  function Keys(items: seq<Element>): (keys: seq<Key>)
    ensures |keys| == |items| && forall i :: 0 <= i < |items| ==> keys[i] == items[i].key
  {
    seq(|items|, i requires 0 <= i < |items| => items[i].key)
  }

  lemma AtInserted(head: Element, items: seq<Element>, k: nat, x: Element, i: nat)
    requires k <= |items| && i <= |items| + 2
    ensures At(head, Inserted(items, k, x), i) ==
            if i <= k then At(head, items, i) else if i == k + 1 then x else At(head, items, i - 1)
  {
  }

  lemma KeysInserted(items: seq<Element>, k: nat, x: Element)
    requires k <= |items|
    ensures Keys(Inserted(items, k, x)) == Inserted(Keys(items), k, x.key)
  {
  }

  // The two elements next to a place in the ring are different, unless the ring is empty.
  lemma Neighbours(head: Element, items: seq<Element>, i: nat, j: nat)
    requires head !in items && (forall a, b :: 0 <= a < b < |items| ==> items[a] != items[b])
    requires i <= |items| && j <= |items|
    ensures At(head, items, i) == At(head, items, j) <==> i == j
    ensures At(head, items, i + 1) == At(head, items, j + 1) <==> i == j
  {
  }

  /** Four assignments put an element into the ring. */
  method LinkIn(element: Element, p: Element, n: Element, ghost list: Element, ghost items: seq<Element>, ghost k: nat)
    requires Ring(list, items) && element != list && element !in items && k <= |items|
    requires p == At(list, items, k) && n == At(list, items, k + 1)
    modifies element, p, n
    ensures Ring(list, Inserted(items, k, element))
  {
    element.prev := p;
    element.next := n;
    p.next := element;
    n.prev := element;
    ghost var items' := Inserted(items, k, element);
    forall i {:trigger At(list, items', i)} | 0 <= i <= |items'|
      ensures At(list, items', i).next == At(list, items', i + 1) && At(list, items', i + 1).prev == At(list, items', i)
    {
      AtInserted(list, items, k, element, i);
      AtInserted(list, items, k, element, i + 1);
      ghost var o := if i <= k then i else i - 1;
      Neighbours(list, items, o, k);
      assert old(At(list, items, o).next) == At(list, items, o + 1);
    }
  }

  // The loop of SortedList_insert: the first element that is not smaller than the key, or the head.
  method FindPlace(list: Element, key: Key, ghost items: seq<Element>) returns (n: Element, ghost k: nat)
    requires Ring(list, items)
    ensures k == Place(Keys(items), key) <= |items| && n == At(list, items, k + 1)
  {
    assert list.next == At(list, items, 1) by {
      assert At(list, items, 0) == list;
    }
    n := list.next;
    k := 0;
    while n != list
      invariant k <= |items| && n == At(list, items, k + 1)
      invariant forall i :: 0 <= i < k ==> !AtMost(key, items[i].key)
      decreases |items| - k
    {
      assert n == items[k];
      if AtMost(key, n.key) {
        break;
      }
      n := n.next;
      k := k + 1;
    }
    PlaceIs(Keys(items), key, k);
  }

  /** SortedList_insert */
  method Insert(list: Element, element: Element, ghost items: seq<Element>) returns (ghost k: nat)
    requires Ring(list, items) && element != list && element !in items
    modifies element, list, items
    ensures k == Place(Keys(items), element.key) && Ring(list, Inserted(items, k, element))
    ensures multiset(Inserted(items, k, element)) == multiset(items) + multiset{element}
    ensures Ascending(Keys(items)) ==> Ascending(Keys(Inserted(items, k, element)))
  {
    var n;
    n, k := FindPlace(list, element.key, items);
    assert n.prev == At(list, items, k) by {
      assert At(list, items, k).next == n;
    }
    InsertedKeys(items, k, element);
    var p := n.prev;
    LinkIn(element, p, n, list, items, k);
  }

  lemma InsertedKeys(items: seq<Element>, k: nat, element: Element)
    requires k == Place(Keys(items), element.key)
    ensures multiset(Inserted(items, k, element)) == multiset(items) + multiset{element}
    ensures Ascending(Keys(items)) ==> Ascending(Keys(Inserted(items, k, element)))
  {
    if Ascending(Keys(items)) {
      InsertAscends(Keys(items), element.key);
    }
    KeysInserted(items, k, element);
    InsertConserves(items, k, element);
  }

  lemma AtWithout(head: Element, items: seq<Element>, k: nat, i: nat)
    requires k < |items| && i <= |items|
    ensures At(head, Without(items, k), i) == if i <= k then At(head, items, i) else At(head, items, i + 1)
  {
  }

  lemma KeysWithout(items: seq<Element>, k: nat)
    requires k < |items|
    ensures Keys(Without(items, k)) == Without(Keys(items), k)
  {
  }

  lemma RingAround(head: Element, items: seq<Element>, k: nat)
    requires Ring(head, items) && k < |items|
    ensures items[k].next == At(head, items, k + 2) && At(head, items, k + 2).prev == items[k]
    ensures items[k].prev == At(head, items, k) && At(head, items, k).next == items[k]
  {
    assert At(head, items, k + 1) == items[k];
    assert At(head, items, k).next == At(head, items, k + 1);
    assert At(head, items, k + 1).next == At(head, items, k + 2);
  }

  // The last part of SortedList_delete.
  method LinkOut(element: Element, p: Element, n: Element, ghost list: Element, ghost items: seq<Element>, ghost k: nat)
    requires Ring(list, items) && k < |items| && items[k] == element
    requires p == At(list, items, k) && n == At(list, items, k + 2)
    modifies element, p, n
    ensures Ring(list, Without(items, k)) && element.next == null && element.prev == null
  {
    n.prev := p;
    p.next := n;
    element.next := null;
    element.prev := null;
    ghost var items' := Without(items, k);
    forall i {:trigger At(list, items', i)} | 0 <= i <= |items'|
      ensures At(list, items', i).next == At(list, items', i + 1) && At(list, items', i + 1).prev == At(list, items', i)
    {
      AtWithout(list, items, k, i);
      AtWithout(list, items, k, i + 1);
      ghost var o := if i <= k then i else i + 1;
      Neighbours(list, items, o, k);
      Neighbours(list, items, o, k + 1);
      assert old(At(list, items, o).next) == At(list, items, o + 1);
    }
  }

  /** SortedList_delete on an element of a list: the checks pass, and the element is taken out. */
  method Delete(element: Element, ghost list: Element, ghost items: seq<Element>, ghost k: nat) returns (r: int)
    requires Ring(list, items) && k < |items| && items[k] == element
    modifies list, items
    ensures r == 0 && Ring(list, Without(items, k)) && element.next == null && element.prev == null
    ensures multiset(Without(items, k)) == multiset(items) - multiset{element}
    ensures Ascending(Keys(items)) ==> Ascending(Keys(Without(items, k)))
  {
    RingAround(list, items, k);
    KeysWithout(items, k);
    DeleteConserves(items, k);
    r := Checks(element);
    if r == 0 {
      LinkOut(element, element.prev, element.next, list, items, k);
    }
  }

  /** Both neighbours point back to the element, as SortedList.h has it checked before a deletion. */
  predicate Intact(element: Element)
    reads element, element.next, element.prev
  {
    && element.next != null && element.prev != null
    && element.next.prev == element && element.prev.next == element
  }

  /** The elements of a list are intact, so any other answer than 0 means that the element is in no list. */
  lemma ListedIsIntact(list: Element, items: seq<Element>, element: Element)
    requires Ring(list, items) && element in items
    ensures Intact(element)
  {
    var k :| 0 <= k < |items| && items[k] == element;
    RingAround(list, items, k);
  }

  /** The checks of SortedList_delete, on any element: 0 for those that are intact and for no others, and one of the
      documented answers 0 and 1 only if the next element points back. */
  method Checks(element: Element) returns (r: int)
    requires element.next != null && element.prev != null
    ensures r == 0 <==> Intact(element)
    ensures r == 0 || r == 1 <==> element.next.prev == element
    ensures r == 0 || r == 1 || r == -1
  {
    var n, p := element.next, element.prev;
    if n.prev != element {
      return -1;
    }
    if p.next != element {
      return 1;
    }
    return 0;
  }

  /** An element whose successor has lost its way back: the answer is not one that SortedList.h knows. */
  method DamagedNeighbour(key: Key) returns (r: int)
    ensures r == -1
  {
    var list := new Element.Head();
    var element := new Element(key);
    ghost var k := Insert(list, element, []);
    assert k == 0 && Inserted([], 0, element) == [element];
    RingAround(list, [element], 0);
    list.prev := list;
    r := Checks(element);
  }

  /** What SortedList.h asks of a lookup: an element with the key, or NULL when there is none. */
  ghost predicate Documented(items: seq<Element>, key: Key, r: Element?) {
    && (r == null <==> forall e :: e in items ==> e.key != key)
    && (r != null ==> r in items && r.key == key)
  }

  /** SortedList_lookup as written: its return is not under the comparison, so any list that is not empty gives its
      first element. That is the documented result if and only if the list is empty or starts with the key. */
  method Lookup(list: Element, key: Key, ghost items: seq<Element>) returns (r: Element?)
    requires Ring(list, items)
    ensures r == if items == [] then null else items[0]
    ensures Documented(items, key, r) <==> items == [] || items[0].key == key
  {
    assert list.next == At(list, items, 1) by {
      assert At(list, items, 0) == list;
    }
    if list == list.next {
      return null;
    }
    assert items[0] in items;
    return list.next;
  }

  function TotalLength<T>(lists: seq<seq<T>>): nat {
    if lists == [] then 0 else TotalLength(lists[..|lists| - 1]) + |lists[|lists| - 1]|
  }

  // The inner loop of SortedList_length, for one list that is not empty.
  method Count(head: Element, ghost items: seq<Element>) returns (retval: int)
    requires Ring(head, items)
    ensures retval == |items|
  {
    retval := -1;
    var list := head;
    retval := retval + 1;
    assert list == At(head, items, 0);
    list := list.next;
    while head != list
      invariant 0 <= retval <= |items| && list == At(head, items, retval + 1)
      decreases |items| - retval
    {
      assert At(head, items, retval + 1) == items[retval];
      retval := retval + 1;
      list := list.next;
    }
  }

  // One round of the outer loop of SortedList_length.
  method CountList(list: Element, ghost items: seq<Element>) returns (n: int)
    requires Ring(list, items)
    ensures n == |items|
  {
    assert list.next == At(list, items, 1) by {
      assert At(list, items, 0) == list;
    }
    if list == list.next {
      return 0;
    }
    n := Count(list, items);
  }

  /** SortedList_length: the elements of all lists. */
  method Length(lists: array<Element>, ghost items: seq<seq<Element>>) returns (finalRet: int)
    requires |items| == lists.Length && forall j :: 0 <= j < lists.Length ==> Ring(lists[j], items[j])
    ensures finalRet == TotalLength(items)
  {
    finalRet := 0;
    var i := 0;
    while i != lists.Length
      invariant 0 <= i <= lists.Length && finalRet == TotalLength(items[..i])
    {
      assert items[..i + 1][..i] == items[..i];
      var retval := CountList(lists[i], items[i]);
      finalRet := finalRet + retval;
      i := i + 1;
    }
    assert items[..i] == items;
  }
}
