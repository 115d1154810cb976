// The byte string of a directory as an array of 128-byte entries, and the
// finite map from names to inode numbers that the entries stand for.
module DirEntries {
  import opened Words

  const DIRENTRY_SIZE := 128
  const MAXNAMELEN := DIRENTRY_SIZE - 5

  type Name = n: seq<byte> | 0 !in n witness []

  // An entry whose inode number is 0 is empty.
  datatype Entry = Entry(ino: uint32, name: Name)

  /** A C string: the bytes before the first NUL. */
  function CString(bs: seq<byte>): (n: Name)
    ensures |n| <= |bs|
  {
    if bs == [] || bs[0] == 0 then [] else [bs[0]] + CString(bs[1..])
  }

  lemma {:induction false} CStringAppend(n: Name, rest: seq<byte>)
    ensures CString(n + rest) == n + CString(rest)
  {
    if n == [] {
      assert n + rest == rest;
    } else {
      assert 0 !in n[1..];
      CStringAppend(n[1..], rest);
      assert (n + rest)[1..] == n[1..] + rest;
      assert n == [n[0]] + n[1..];
    }
  }

  // ----- entries in bytes

  /** od_ino and od_name of entry k. */
  function EntryAt(bs: seq<byte>, k: nat): Entry
    requires DIRENTRY_SIZE * (k + 1) <= |bs|
  {
    var lo := DIRENTRY_SIZE * k;
    Entry(Decode(bs[lo..lo + 4]), CString(bs[lo + 4..lo + DIRENTRY_SIZE]))
  }

  /** The first c entries. */
  function Entries(bs: seq<byte>, c: nat): (es: seq<Entry>)
    requires DIRENTRY_SIZE * c <= |bs|
    ensures |es| == c
  {
    if c == 0 then [] else Entries(bs, c - 1) + [EntryAt(bs, c - 1)]
  }

  lemma {:induction false} EntriesAt(bs: seq<byte>, c: nat, k: nat)
    requires DIRENTRY_SIZE * c <= |bs| && k < c
    ensures Entries(bs, c)[k] == EntryAt(bs, k)
  {
    if k < c - 1 {
      EntriesAt(bs, c - 1, k);
    }
  }

  lemma {:induction false} EntriesEqual(bs: seq<byte>, c: nat, es: seq<Entry>)
    requires DIRENTRY_SIZE * c <= |bs| && |es| == c
    requires forall k: nat :: k < c ==> EntryAt(bs, k) == es[k]
    ensures Entries(bs, c) == es
  {
    forall k: nat | k < c ensures Entries(bs, c)[k] == es[k] {
      EntriesAt(bs, c, k);
    }
  }

  /** od_ino = ino */
  function SetIno(bs: seq<byte>, k: nat, ino: uint32): (r: seq<byte>)
    requires DIRENTRY_SIZE * (k + 1) <= |bs|
    ensures |r| == |bs|
  {
    Splice(bs, DIRENTRY_SIZE * k, Encode(ino))
  }

  /** memcpy of the name, and the terminating NUL */
  function SetName(bs: seq<byte>, k: nat, name: Name): (r: seq<byte>)
    requires DIRENTRY_SIZE * (k + 1) <= |bs| && |name| <= MAXNAMELEN
    ensures |r| == |bs|
  {
    Splice(bs, DIRENTRY_SIZE * k + 4, name + [0])
  }

  lemma SetInoEntry(bs: seq<byte>, k: nat, ino: uint32, j: nat)
    requires DIRENTRY_SIZE * (k + 1) <= |bs| && DIRENTRY_SIZE * (j + 1) <= |bs|
    ensures EntryAt(SetIno(bs, k, ino), j) == if j == k then Entry(ino, EntryAt(bs, k).name) else EntryAt(bs, j)
  {
    var bs', lo := SetIno(bs, k, ino), DIRENTRY_SIZE * j;
    assert bs'[lo + 4..lo + DIRENTRY_SIZE] == bs[lo + 4..lo + DIRENTRY_SIZE];
    if j == k {
      assert bs'[lo..lo + 4] == Encode(ino);
      DecodeEncode(ino);
    } else {
      assert bs'[lo..lo + 4] == bs[lo..lo + 4];
    }
  }

  lemma SetNameEntry(bs: seq<byte>, k: nat, name: Name, j: nat)
    requires DIRENTRY_SIZE * (k + 1) <= |bs| && DIRENTRY_SIZE * (j + 1) <= |bs| && |name| <= MAXNAMELEN
    ensures EntryAt(SetName(bs, k, name), j) == if j == k then Entry(EntryAt(bs, k).ino, name) else EntryAt(bs, j)
  {
    var bs', lo := SetName(bs, k, name), DIRENTRY_SIZE * j;
    assert bs'[lo..lo + 4] == bs[lo..lo + 4];
    if j == k {
      var rest := bs[lo + 4 + |name| + 1..lo + DIRENTRY_SIZE];
      assert bs'[lo + 4..lo + DIRENTRY_SIZE] == name + ([0] + rest);
      CStringAppend(name, [0] + rest);
    } else {
      assert bs'[lo + 4..lo + DIRENTRY_SIZE] == bs[lo + 4..lo + DIRENTRY_SIZE];
    }
  }

  lemma SetInoEntries(bs: seq<byte>, c: nat, k: nat, ino: uint32)
    requires DIRENTRY_SIZE * c <= |bs| && k < c
    ensures Entries(SetIno(bs, k, ino), c) == Entries(bs, c)[k := Entry(ino, Entries(bs, c)[k].name)]
  {
    var es := Entries(bs, c)[k := Entry(ino, Entries(bs, c)[k].name)];
    forall j: nat | j < c ensures EntryAt(SetIno(bs, k, ino), j) == es[j] {
      SetInoEntry(bs, k, ino, j);
      EntriesAt(bs, c, j);
    }
    EntriesEqual(SetIno(bs, k, ino), c, es);
  }

  lemma SetNameEntries(bs: seq<byte>, c: nat, k: nat, name: Name)
    requires DIRENTRY_SIZE * c <= |bs| && k < c && |name| <= MAXNAMELEN
    ensures Entries(SetName(bs, k, name), c) == Entries(bs, c)[k := Entry(Entries(bs, c)[k].ino, name)]
  {
    var es := Entries(bs, c)[k := Entry(Entries(bs, c)[k].ino, name)];
    forall j: nat | j < c ensures EntryAt(SetName(bs, k, name), j) == es[j] {
      SetNameEntry(bs, k, name, j);
      EntriesAt(bs, c, j);
    }
    EntriesEqual(SetName(bs, k, name), c, es);
  }

  /** The entries of the old part of a longer directory are those of the directory before it grew. */
  lemma {:induction false} EntriesOfPrefix(bs: seq<byte>, bs': seq<byte>, c: nat)
    requires DIRENTRY_SIZE * c <= |bs| <= |bs'| && (forall k :: 0 <= k < |bs| ==> bs'[k] == bs[k])
    ensures Entries(bs', c) == Entries(bs, c)
  {
    if c > 0 {
      EntriesOfPrefix(bs, bs', c - 1);
      var lo := DIRENTRY_SIZE * (c - 1);
      assert bs'[lo..lo + 4] == bs[lo..lo + 4];
      assert bs'[lo + 4..lo + DIRENTRY_SIZE] == bs[lo + 4..lo + DIRENTRY_SIZE];
    }
  }

  lemma FirstEntries(bs: seq<byte>, c: nat, c': nat)
    requires c <= c' && DIRENTRY_SIZE * c' <= |bs|
    ensures Entries(bs, c')[..c] == Entries(bs, c)
  {
    var es, es' := Entries(bs, c), Entries(bs, c');
    forall k: nat | k < c ensures es'[k] == es[k] {
      EntriesAt(bs, c, k);
      EntriesAt(bs, c', k);
    }
  }

  /** All entries of a directory, counted off 128 bytes at a time. */
  function AllEntries(bs: seq<byte>): (es: seq<Entry>)
    ensures DIRENTRY_SIZE * |es| <= |bs| < DIRENTRY_SIZE * |es| + DIRENTRY_SIZE
    decreases |bs|
  {
    if |bs| < DIRENTRY_SIZE then []
    else
      var es := AllEntries(bs[..|bs| - DIRENTRY_SIZE]);
      es + [EntryAt(bs, |es|)]
  }

  lemma {:induction false} AllEntriesAre(bs: seq<byte>)
    ensures AllEntries(bs) == Entries(bs, |AllEntries(bs)|)
    decreases |bs|
  {
    if |bs| >= DIRENTRY_SIZE {
      var init := bs[..|bs| - DIRENTRY_SIZE];
      AllEntriesAre(init);
      EntriesOfPrefix(init, bs, |AllEntries(init)|);
    }
  }

  // ----- entries as a map

  predicate IsNamed(es: seq<Entry>, k: nat, name: Name)
    requires k < |es|
  {
    es[k].ino != 0 && es[k].name == name
  }

  predicate Present(es: seq<Entry>, name: Name) {
    exists k: nat :: k < |es| && IsNamed(es, k, name)
  }

  /** No two entries in use share a name. */
  ghost predicate Distinct(es: seq<Entry>) {
    forall a: nat, b: nat :: a < |es| && b < |es| && es[a].ino != 0 && IsNamed(es, b, es[a].name) ==> a == b
  }

  /** The finite map that the entries stand for: of two entries with one name a scan finds the first. */
  function Binding(es: seq<Entry>): (m: map<Name, uint32>) {
    if es == [] then map[]
    else WithEntry(Binding(es[..|es| - 1]), es[|es| - 1])
  }

  function WithEntry(m: map<Name, uint32>, e: Entry): map<Name, uint32> {
    if e.ino != 0 && e.name !in m then m[e.name := e.ino] else m
  }

  lemma {:induction false} BindingKeys(es: seq<Entry>, name: Name)
    ensures name in Binding(es) <==> Present(es, name)
  {
    if es != [] {
      var init := es[..|es| - 1];
      BindingKeys(init, name);
      if Present(init, name) {
        var k: nat :| k < |init| && IsNamed(init, k, name);
        assert IsNamed(es, k, name);
      }
      if Present(es, name) {
        var k: nat :| k < |es| && IsNamed(es, k, name);
        assert k < |init| ==> IsNamed(init, k, name);
      }
      assert es[|es| - 1].ino != 0 && es[|es| - 1].name == name ==> IsNamed(es, |es| - 1, name);
    }
  }

  /** Entry k is the first with the given name. */
  predicate FirstNamed(es: seq<Entry>, k: nat, name: Name) {
    k < |es| && IsNamed(es, k, name) && forall j: nat :: j < k ==> !IsNamed(es, j, name)
  }

  /** Looking a name up by scanning finds what the map says. */
  lemma {:induction false} BindingAt(es: seq<Entry>, k: nat, name: Name)
    requires FirstNamed(es, k, name)
    ensures name in Binding(es) && Binding(es)[name] == es[k].ino
  {
    var init := es[..|es| - 1];
    if k < |init| {
      assert FirstNamed(init, k, name) by {
        assert forall j: nat :: j < k ==> IsNamed(init, j, name) == IsNamed(es, j, name);
      }
      BindingAt(init, k, name);
    } else {
      BindingKeys(init, name);
      if Present(init, name) {
        var j: nat :| j < |init| && IsNamed(init, j, name);
        assert IsNamed(es, j, name);
      }
    }
  }

  /** An empty entry put to use under a new name adds exactly that binding. */
  lemma {:induction false} InsertBinds(es: seq<Entry>, k: nat, e: Entry)
    requires k < |es| && es[k].ino == 0 && e.ino != 0 && !Present(es, e.name)
    ensures Binding(es[k := e]) == Binding(es)[e.name := e.ino]
  {
    var init, last := es[..|es| - 1], es[|es| - 1];
    var es' := es[k := e];
    assert !Present(init, e.name) by {
      if Present(init, e.name) {
        var j: nat :| j < |init| && IsNamed(init, j, e.name);
        assert IsNamed(es, j, e.name);
      }
    }
    if k < |init| {
      InsertBinds(init, k, e);
      assert es'[..|es'| - 1] == init[k := e];
      assert !IsNamed(es, |es| - 1, e.name);
    } else {
      BindingKeys(init, e.name);
      assert es'[..|es'| - 1] == init;
    }
  }

  lemma InsertDistinct(es: seq<Entry>, k: nat, e: Entry)
    requires k < |es| && es[k].ino == 0 && e.ino != 0
    ensures Distinct(es[k := e]) <==> Distinct(es) && !Present(es, e.name)
  {
    var es' := es[k := e];
    if Distinct(es') {
      InsertedApart(es, k, e);
    }
    if Distinct(es) && !Present(es, e.name) {
      forall a: nat, b: nat | a < |es'| && b < |es'| && es'[a].ino != 0 && IsNamed(es', b, es'[a].name)
        ensures a == b
      {
        assert !IsNamed(es, a, e.name) && !IsNamed(es, b, e.name);
        assert a != k && b != k ==> IsNamed(es, b, es[a].name);
      }
    }
  }

  lemma InsertedApart(es: seq<Entry>, k: nat, e: Entry)
    requires k < |es| && es[k].ino == 0 && e.ino != 0 && Distinct(es[k := e])
    ensures Distinct(es) && !Present(es, e.name)
  {
    var es' := es[k := e];
    forall a: nat, b: nat | a < |es| && b < |es| && es[a].ino != 0 && IsNamed(es, b, es[a].name) ensures a == b {
      assert IsNamed(es', b, es'[a].name);
    }
    if Present(es, e.name) {
      var j: nat :| j < |es| && IsNamed(es, j, e.name);
      assert IsNamed(es', j, es'[k].name);
    }
  }

  /** Two entries have the name. */
  predicate Twice(es: seq<Entry>, name: Name) {
    exists a: nat, b: nat :: a < b < |es| && IsNamed(es, a, name) && IsNamed(es, b, name)
  }

  lemma OthersStay(m: map<Name, uint32>, m': map<Name, uint32>, name: Name, e: Entry)
    requires m - {name} == m' - {name}
    ensures WithEntry(m, e) - {name} == WithEntry(m', e) - {name}
  {
    if e.name == name {
      assert m[name := e.ino] - {name} == m - {name} && m'[name := e.ino] - {name} == m' - {name};
    } else {
      assert (e.name in m <==> e.name in m - {name}) && (e.name in m' <==> e.name in m' - {name});
      assert m[e.name := e.ino] - {name} == (m - {name})[e.name := e.ino];
      assert m'[e.name := e.ino] - {name} == (m' - {name})[e.name := e.ino];
    }
  }

  /** Emptying an entry touches no other name. */
  lemma {:induction false} ClearLeaves(es: seq<Entry>, k: nat)
    requires k < |es| && es[k].ino != 0
    ensures Binding(es[k := es[k].(ino := 0)]) - {es[k].name} == Binding(es) - {es[k].name}
  {
    var init, last, name := es[..|es| - 1], es[|es| - 1], es[k].name;
    var es' := es[k := es[k].(ino := 0)];
    if k < |init| {
      ClearLeaves(init, k);
      assert es'[..|es'| - 1] == init[k := init[k].(ino := 0)];
      OthersStay(Binding(init), Binding(es'[..|es'| - 1]), name, last);
    } else {
      assert es'[..|es'| - 1] == init;
    }
  }

  /** It takes its own name away unless there is a second entry for it. */
  lemma ClearUnbinds(es: seq<Entry>, k: nat)
    requires k < |es| && es[k].ino != 0
    ensures var es', name := es[k := es[k].(ino := 0)], es[k].name;
      && Binding(es') - {name} == Binding(es) - {name}
      && (name in Binding(es') <==> Twice(es, name))
  {
    ClearLeaves(es, k);
    var es', name := es[k := es[k].(ino := 0)], es[k].name;
    BindingKeys(es', name);
    assert IsNamed(es, k, name);
    assert forall j: nat :: j < |es| && j != k ==> IsNamed(es', j, name) == IsNamed(es, j, name);
  }

  /** With distinct names exactly that binding goes. */
  lemma ClearUnbindsOnly(es: seq<Entry>, k: nat)
    requires Distinct(es) && k < |es| && es[k].ino != 0
    ensures Binding(es[k := es[k].(ino := 0)]) == Binding(es) - {es[k].name}
  {
    ClearUnbinds(es, k);
    assert !Twice(es, es[k].name);
  }

  lemma ClearDistinct(es: seq<Entry>, k: nat)
    requires Distinct(es) && k < |es|
    ensures Distinct(es[k := es[k].(ino := 0)])
  {
    var es' := es[k := es[k].(ino := 0)];
    forall a: nat, b: nat | a < |es'| && b < |es'| && es'[a].ino != 0 && IsNamed(es', b, es'[a].name)
      ensures a == b
    {
      assert IsNamed(es, b, es[a].name);
    }
  }

  /** Empty entries at the end change nothing. */
  lemma BlanksBindNothing(es: seq<Entry>, blanks: seq<Entry>)
    requires forall b :: b in blanks ==> b.ino == 0
    ensures Binding(es + blanks) == Binding(es)
    ensures forall name :: Present(es + blanks, name) <==> Present(es, name)
    ensures Distinct(es + blanks) <==> Distinct(es)
  {
    BlanksBind(es, blanks);
    var es' := es + blanks;
    forall j: nat | |es| <= j < |es'| ensures es'[j].ino == 0 {
      assert es'[j] in blanks;
    }
    forall j: nat, name | j < |es'|
      ensures IsNamed(es', j, name) <==> j < |es| && IsNamed(es, j, name)
    {
    }
    forall name ensures Present(es', name) <==> Present(es, name) {
      BindingKeys(es', name);
      BindingKeys(es, name);
    }
    if Distinct(es') {
      forall a: nat, b: nat | a < |es| && b < |es| && es[a].ino != 0 && IsNamed(es, b, es[a].name) ensures a == b {
        assert IsNamed(es', b, es'[a].name);
      }
    }
  }

  lemma {:induction false} BlanksBind(es: seq<Entry>, blanks: seq<Entry>)
    requires forall b :: b in blanks ==> b.ino == 0
    ensures Binding(es + blanks) == Binding(es)
  {
    if blanks == [] {
      assert es + blanks == es;
    } else {
      var init := blanks[..|blanks| - 1];
      BlanksBind(es, init);
      assert (es + blanks)[..|es + blanks| - 1] == es + init;
    }
  }
}
