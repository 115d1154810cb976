// All directories of an image together: names bound to inodes, and link
// counts that agree with the entries.
module Namespace {
  import opened Words
  import opened Layout
  import opened Image
  import opened DirEntries

  // The entries of every directory, by inode number.
  type Table = map<nat, seq<Entry>>

  predicate IsDir(fs: Fs, d: nat) {
    fs.HasTree(d) && fs.inodes[d].ftype == FTYPE_DIR
  }

  /** The entries of directory d. */
  function Slots(fs: Fs, d: nat): (es: seq<Entry>)
    requires d < |fs.inodes| && fs.inodes[d].size <= MAXFILEBLKS * BLKSIZE
    ensures DIRENTRY_SIZE * |es| <= fs.inodes[d].size < DIRENTRY_SIZE * |es| + DIRENTRY_SIZE
  {
    SlotsAfter(|fs.inodes|, fs, d)
  }

  // The countdown keeps the bytes behind the entries out of proofs that only pass entries around;
  // SlotsAre says what they are.
  function SlotsAfter(n: nat, fs: Fs, d: nat): (es: seq<Entry>)
    requires d < |fs.inodes| && fs.inodes[d].size <= MAXFILEBLKS * BLKSIZE
    ensures DIRENTRY_SIZE * |es| <= fs.inodes[d].size < DIRENTRY_SIZE * |es| + DIRENTRY_SIZE
    decreases n
  {
    if n == 0 then AllEntries(fs.Contents(d)) else SlotsAfter(n - 1, fs, d)
  }

  lemma SlotsAre(fs: Fs, d: nat)
    requires d < |fs.inodes| && fs.inodes[d].size <= MAXFILEBLKS * BLKSIZE
    ensures Slots(fs, d) == AllEntries(fs.Contents(d))
  {
    SlotsAfterAre(|fs.inodes|, fs, d);
  }

  lemma {:induction false} SlotsAfterAre(n: nat, fs: Fs, d: nat)
    requires d < |fs.inodes| && fs.inodes[d].size <= MAXFILEBLKS * BLKSIZE
    ensures SlotsAfter(n, fs, d) == AllEntries(fs.Contents(d))
    decreases n
  {
    if n > 0 {
      SlotsAfterAre(n - 1, fs, d);
    }
  }

  ghost function TableOf(fs: Fs): (t: Table)
    requires fs.Valid()
    ensures forall d: nat :: d in t <==> IsDir(fs, d)
    ensures forall d: nat :: d in t ==> fs.HasTree(d) && t[d] == Slots(fs, d)
  {
    map d: nat | d < |fs.inodes| && IsDir(fs, d) :: Slots(fs, d)
  }

  /** The map from names to inodes that directory d stands for. */
  ghost function Dir(fs: Fs, d: nat): map<Name, uint32>
    requires fs.Valid() && IsDir(fs, d)
  {
    Binding(Slots(fs, d))
  }

  /** The entries that name inode i. */
  ghost function Refs(t: Table, i: nat): set<(nat, nat)> {
    set d, k | d in t && 0 <= k < |t[d]| && t[d][k].ino == i :: (d, k)
  }

  ghost predicate TableOk(t: Table, n: nat) {
    forall d, k :: d in t && 0 <= k < |t[d]| ==> t[d][k].ino < n
  }

  ghost predicate AllDistinct(t: Table) {
    forall d :: d in t ==> Distinct(t[d])
  }

  /** No directory has two entries for one name. */
  ghost predicate NamesDistinct(fs: Fs)
    requires fs.Valid()
  {
    AllDistinct(TableOf(fs))
  }

  /** Every non-directory inode from 2 on has as many links as there are entries naming it. */
  ghost predicate LinksOk(inodes: seq<Inode>, t: Table) {
    forall i: nat :: 2 <= i < |inodes| && inodes[i].ftype != FTYPE_DIR ==> inodes[i].nlink == |Refs(t, i)|
  }

  /** The invariant of the mounted file system. */
  ghost predicate FsOk(fs: Fs)
    ensures FsOk(fs) ==> fs.Valid() && |fs.inodes| <= TWO32
    ensures FsOk(fs) ==> forall d: nat :: IsDir(fs, d) ==> fs.inodes[d].size % BLKSIZE == 0 && fs.inodes[d].nlink != 0
  {
    FsOkAfter(1 + |fs.inodes|, fs)
  }

  // The countdown keeps the definition out of proofs that only pass the invariant on; FsOkIs opens it.
  ghost predicate FsOkAfter(n: nat, fs: Fs)
    ensures FsOkAfter(n, fs) ==> fs.Valid() && |fs.inodes| <= TWO32
    ensures FsOkAfter(n, fs) ==>
              forall d: nat :: IsDir(fs, d) ==> fs.inodes[d].size % BLKSIZE == 0 && fs.inodes[d].nlink != 0
    decreases n
  {
    if n == 0 then FsInvariant(fs) else FsOkAfter(n - 1, fs)
  }

  ghost predicate FsInvariant(fs: Fs) {
    && fs.Valid() && |fs.inodes| <= TWO32
    && (forall d: nat :: IsDir(fs, d) ==> fs.inodes[d].size % BLKSIZE == 0 && fs.inodes[d].nlink != 0)
    && TableOk(TableOf(fs), |fs.inodes|)
    && LinksOk(fs.inodes, TableOf(fs))
  }

  lemma FsOkIs(fs: Fs)
    ensures FsOk(fs) <==> FsInvariant(fs)
  {
    FsOkAfterIs(1 + |fs.inodes|, fs);
  }

  lemma {:induction false} FsOkAfterIs(n: nat, fs: Fs)
    ensures FsOkAfter(n, fs) <==> FsInvariant(fs)
    decreases n
  {
    if n > 0 {
      FsOkAfterIs(n - 1, fs);
    }
  }

  // ----- steps on tables

  lemma RefsInsert(t: Table, d: nat, k: nat, e: Entry, i: nat)
    requires d in t && k < |t[d]| && t[d][k].ino == 0 && i != 0
    ensures Refs(t[d := t[d][k := e]], i) == Refs(t, i) + (if e.ino == i then {(d, k)} else {})
    ensures |Refs(t[d := t[d][k := e]], i)| == |Refs(t, i)| + (if e.ino == i then 1 else 0)
  {
    assert (d, k) !in Refs(t, i);
  }

  lemma RefsClear(t: Table, d: nat, k: nat, i: nat)
    requires d in t && k < |t[d]| && i != 0
    ensures Refs(t[d := t[d][k := t[d][k].(ino := 0)]], i) == Refs(t, i) - {(d, k)}
    ensures |Refs(t[d := t[d][k := t[d][k].(ino := 0)]], i)| == |Refs(t, i)| - (if t[d][k].ino == i then 1 else 0)
  {
    assert t[d][k].ino == i <==> (d, k) in Refs(t, i);
  }

  lemma RefsBlanks(t: Table, d: nat, blanks: seq<Entry>, i: nat)
    requires d in t && i != 0 && forall b :: b in blanks ==> b.ino == 0
    ensures Refs(t[d := t[d] + blanks], i) == Refs(t, i)
  {
    var t': Table := t[d := t[d] + blanks];
    assert forall k :: |t[d]| <= k < |t'[d]| ==> t'[d][k] in blanks;
    forall a: nat, k: nat | a in t' && k < |t'[a]| && t'[a][k].ino == i ensures (a, k) in Refs(t, i) {
    }
  }

  /** A new name: an empty entry of directory d, or one of the empty entries just added to it, is put to use. */
  ghost function NameAdded(t: Table, d: nat, blanks: seq<Entry>, k: nat, e: Entry): Table
    requires d in t && k < |t[d]| + |blanks|
  {
    t[d := (t[d] + blanks)[k := e]]
  }

  lemma NameAddedOk(t: Table, n: nat, d: nat, blanks: seq<Entry>, k: nat, e: Entry)
    requires TableOk(t, n) && d in t && (forall b :: b in blanks ==> b.ino == 0)
    requires k < |t[d]| + |blanks| && (t[d] + blanks)[k].ino == 0 && 0 < e.ino < n
    ensures TableOk(NameAdded(t, d, blanks, k, e), n)
    ensures forall i: nat :: i != 0 ==>
              |Refs(NameAdded(t, d, blanks, k, e), i)| == |Refs(t, i)| + if e.ino == i then 1 else 0
  {
    var es := t[d] + blanks;
    var t1 := t[d := es];
    assert t1[d := t1[d][k := e]] == NameAdded(t, d, blanks, k, e);
    forall i: nat | i != 0
      ensures |Refs(NameAdded(t, d, blanks, k, e), i)| == |Refs(t, i)| + if e.ino == i then 1 else 0
    {
      RefsBlanks(t, d, blanks, i);
      RefsInsert(t1, d, k, e, i);
    }
    assert forall j :: 0 <= j < |es| && j >= |t[d]| ==> es[j] in blanks;
  }

  /** A name that was not there is bound, and nothing else; names stay distinct exactly when it was not there. */
  lemma NameAddedBinds(t: Table, d: nat, blanks: seq<Entry>, k: nat, e: Entry)
    requires d in t && (forall b :: b in blanks ==> b.ino == 0)
    requires k < |t[d]| + |blanks| && (t[d] + blanks)[k].ino == 0 && e.ino != 0
    ensures !Present(t[d], e.name) ==> Binding(NameAdded(t, d, blanks, k, e)[d]) == Binding(t[d])[e.name := e.ino]
    ensures AllDistinct(NameAdded(t, d, blanks, k, e)) <==> AllDistinct(t) && !Present(t[d], e.name)
  {
    var es, t' := t[d] + blanks, NameAdded(t, d, blanks, k, e);
    BlanksBindNothing(t[d], blanks);
    InsertDistinct(es, k, e);
    if !Present(es, e.name) {
      InsertBinds(es, k, e);
    }
    assert t'[d] == es[k := e] && forall a :: a in t && a != d ==> t'[a] == t[a];
  }

  ghost function NameCleared(t: Table, d: nat, k: nat): Table
    requires d in t && k < |t[d]|
  {
    t[d := t[d][k := t[d][k].(ino := 0)]]
  }

  lemma NameClearedOk(t: Table, n: nat, d: nat, k: nat)
    requires TableOk(t, n) && d in t && k < |t[d]| && t[d][k].ino != 0
    ensures TableOk(NameCleared(t, d, k), n)
    ensures AllDistinct(t) ==> AllDistinct(NameCleared(t, d, k))
    ensures forall i: nat :: i != 0 ==>
              |Refs(NameCleared(t, d, k), i)| == |Refs(t, i)| - if t[d][k].ino == i then 1 else 0
  {
    if AllDistinct(t) {
      ClearDistinct(t[d], k);
    }
    forall i: nat | i != 0
      ensures |Refs(NameCleared(t, d, k), i)| == |Refs(t, i)| - if t[d][k].ino == i then 1 else 0
    {
      RefsClear(t, d, k, i);
    }
  }

  /** Link counts stay right when one non-directory inode gains or loses as many links as entries. */
  lemma LinksAfter(inodes: seq<Inode>, inodes': seq<Inode>, t: Table, t': Table, i: nat, delta: int)
    requires LinksOk(inodes, t) && |inodes'| == |inodes| && 2 <= i < |inodes| && inodes[i].ftype != FTYPE_DIR
    requires forall j: nat :: j != 0 ==> |Refs(t', j)| == |Refs(t, j)| + if j == i then delta else 0
    requires forall j: nat :: 2 <= j < |inodes| && j != i && inodes'[j].ftype != FTYPE_DIR ==>
               inodes[j].ftype != FTYPE_DIR && inodes'[j].nlink == inodes[j].nlink
    requires inodes'[i].nlink == inodes[i].nlink + delta
    ensures LinksOk(inodes', t')
  {
  }

  // ----- tables of images

  /** Only directory d changed. */
  lemma TableSet(fs: Fs, fs': Fs, d: nat, es: seq<Entry>)
    requires fs.Valid() && fs'.Valid() && |fs'.inodes| == |fs.inodes| && IsDir(fs, d)
    requires forall j: nat :: IsDir(fs', j) <==> IsDir(fs, j)
    requires forall j: nat :: j != d && IsDir(fs, j) ==> fs'.HasTree(j) && fs'.Contents(j) == fs.Contents(j)
    requires fs'.HasTree(d) && Slots(fs', d) == es
    ensures TableOf(fs') == TableOf(fs)[d := es]
  {
    forall j: nat | j != d && IsDir(fs, j) ensures Slots(fs', j) == Slots(fs, j) {
      SlotsAre(fs, j);
      SlotsAre(fs', j);
    }
  }

  /** No directory changed. */
  lemma TableSame(fs: Fs, fs': Fs)
    requires fs.Valid() && fs'.Valid() && |fs'.inodes| == |fs.inodes|
    requires forall j: nat :: IsDir(fs', j) <==> IsDir(fs, j)
    requires forall j: nat :: IsDir(fs, j) ==> fs'.HasTree(j) && fs'.Contents(j) == fs.Contents(j)
    ensures TableOf(fs') == TableOf(fs)
  {
    forall j: nat | IsDir(fs, j) ensures Slots(fs', j) == Slots(fs, j) {
      SlotsAre(fs, j);
      SlotsAre(fs', j);
    }
  }
}
