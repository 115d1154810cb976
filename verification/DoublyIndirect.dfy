// Growing a file by one block at the third level of its block map, which
// only the formatter does.
module DoublyIndirect {
  import opened Words
  import opened Layout
  import opened Image

  /** Where the next block of file i goes: word j of leaf k. */
  function NextLeaf(fs: Fs, i: nat): IndirectNumber
    requires i < |fs.inodes| && NDIRECT + NINDIRECT <= fs.N(i) < MAXFILEBLKS
  {
    DataSlot(fs.N(i)).k
  }

  function NextWord(fs: Fs, i: nat): IndirectNumber
    requires i < |fs.inodes| && NDIRECT + NINDIRECT <= fs.N(i) < MAXFILEBLKS
  {
    DataSlot(fs.N(i)).j
  }

  lemma NextIs(fs: Fs, i: nat)
    requires i < |fs.inodes| && NDIRECT + NINDIRECT <= fs.N(i) < MAXFILEBLKS
    ensures NextLeaf(fs, i) == (fs.N(i) - NDIRECT - NINDIRECT) / NINDIRECT
    ensures NextWord(fs, i) == (fs.N(i) - NDIRECT - NINDIRECT) % NINDIRECT
    ensures fs.N(i) == NDIRECT + NINDIRECT <==> NextLeaf(fs, i) == 0 && NextWord(fs, i) == 0
    ensures fs.HasTree(i) ==> (NextWord(fs, i) == 0 <==> !fs.Owns(i, Leaf(NextLeaf(fs, i))))
  {
    DataSlotIs(fs.N(i));
  }

  /** The numbers at hand are the ones in place where they exist, and free and distinct where they are new. */
  ghost predicate DoubleChoice(fs: Fs, i: nat, ind2: uint32, leaf: uint32, x: uint32) {
    && fs.HasTree(i) && NDIRECT + NINDIRECT <= fs.N(i) < MAXFILEBLKS
    && x in fs.free
    && (if fs.N(i) == NDIRECT + NINDIRECT then ind2 in fs.free && ind2 != x else ind2 == fs.inodes[i].indirect2)
    && (if NextWord(fs, i) == 0 then leaf in fs.free && leaf != x && leaf != ind2
        else leaf == fs.AtI(i, Leaf(NextLeaf(fs, i))))
  }

  ghost predicate DoubleReady(fs: Fs, i: nat, ind2: uint32, leaf: uint32, x: uint32) {
    fs.Trees() && DoubleChoice(fs, i, ind2, leaf, x)
  }

  /** One more block x, named by word NextWord of 'leaf', which word NextLeaf of 'ind2' names. */
  ghost function AddDouble(fs: Fs, i: nat, ind2: uint32, leaf: uint32, x: uint32): Fs
    requires fs.HasTree(i) && NDIRECT + NINDIRECT <= fs.N(i) < MAXFILEBLKS && ind2 < |fs.blocks| && leaf < |fs.blocks|
  {
    var k, j, oi := NextLeaf(fs, i), NextWord(fs, i), fs.inodes[i];
    var taken := DoubleTaken(fs, i, ind2, leaf, x);
    var blocks := fs.blocks[ind2 := fs.blocks[ind2][k := leaf]];
    fs.(free := fs.free - taken.Keys,
        blocks := blocks[leaf := blocks[leaf][j := x]],
        inodes := fs.inodes[i := oi.(indirect2 := ind2, size := Add32(oi.size, BLKSIZE))],
        owner := fs.owner + taken)
  }

  ghost function DoubleTaken(fs: Fs, i: nat, ind2: uint32, leaf: uint32, x: uint32): map<nat, Owner>
    requires i < |fs.inodes| && NDIRECT + NINDIRECT <= fs.N(i) < MAXFILEBLKS
  {
    var k, j := NextLeaf(fs, i), NextWord(fs, i);
    (if fs.N(i) == NDIRECT + NINDIRECT then map[ind2 := Owner(i, Indirect2)] else map[])
    + (if j == 0 then map[leaf := Owner(i, Leaf(k))] else map[])
    + map[x := Owner(i, Double(k, j))]
  }

  lemma DoubleInRange(fs: Fs, i: nat, ind2: uint32, leaf: uint32, x: uint32)
    requires DoubleReady(fs, i, ind2, leaf, x)
    ensures fs.first <= ind2 < |fs.blocks| && fs.first <= leaf < |fs.blocks| && leaf != ind2
    ensures x != ind2 && x != leaf
    ensures ind2 in fs.free || (fs.Owns(i, Indirect2) && ind2 == fs.AtI(i, Indirect2))
    ensures leaf in fs.free || (fs.Owns(i, Leaf(NextLeaf(fs, i))) && leaf == fs.AtI(i, Leaf(NextLeaf(fs, i))))
  {
    NextIs(fs, i);
    if fs.N(i) != NDIRECT + NINDIRECT {
      NoSharing(fs, i, Indirect2, i, Indirect2);
    }
    if NextWord(fs, i) != 0 {
      NoSharing(fs, i, Leaf(NextLeaf(fs, i)), i, Leaf(NextLeaf(fs, i)));
      if fs.N(i) != NDIRECT + NINDIRECT {
        NoSharing(fs, i, Leaf(NextLeaf(fs, i)), i, Indirect2);
      }
    }
  }

  /** Places of file i that are in use keep their values. */
  lemma DoubleKeepsOwn(fs: Fs, i: nat, ind2: uint32, leaf: uint32, x: uint32, s: Slot)
    requires DoubleReady(fs, i, ind2, leaf, x) && fs.Owns(i, s) && ind2 < |fs.blocks| && leaf < |fs.blocks|
    ensures AddDouble(fs, i, ind2, leaf, x).AtI(i, s) == fs.AtI(i, s)
  {
    DoubleInRange(fs, i, ind2, leaf, x);
    NextIs(fs, i);
    var k := NextLeaf(fs, i);
    match s {
      case Direct(_) =>
      case Indirect =>
      case Indirect2 =>
      case Single(_) =>
        NoSharing(fs, i, Indirect, i, Indirect);
        if fs.Owns(i, Indirect2) {
          NoSharing(fs, i, Indirect, i, Indirect2);
        }
        if fs.Owns(i, Leaf(k)) {
          NoSharing(fs, i, Indirect, i, Leaf(k));
        }
      case Leaf(_) =>
        assert fs.Owns(i, Indirect2);
      case Double(k', j') =>
        assert fs.Owns(i, Indirect2) && fs.Owns(i, Leaf(k'));
        NoSharing(fs, i, Leaf(k'), i, Indirect2);
        if fs.Owns(i, Leaf(k)) {
          NoSharing(fs, i, Leaf(k'), i, Leaf(k));
        }
    }
  }

  lemma DoubleKeeps(fs: Fs, i: nat, ind2: uint32, leaf: uint32, x: uint32)
    requires DoubleReady(fs, i, ind2, leaf, x) && ind2 < |fs.blocks| && leaf < |fs.blocks|
    ensures var fs' := AddDouble(fs, i, ind2, leaf, x);
            forall j, s :: fs.Owns(j, s) ==> fs'.Owns(j, s) && fs'.AtI(j, s) == fs.AtI(j, s)
  {
    DoubleInRange(fs, i, ind2, leaf, x);
    var n, fs' := fs.N(i), AddDouble(fs, i, ind2, leaf, x);
    SizeStep(fs.inodes[i].size);
    forall j, s | fs.Owns(j, s) ensures fs'.Owns(j, s) && fs'.AtI(j, s) == fs.AtI(j, s) {
      if j != i {
        OthersUntouched(fs, fs', i, {ind2, leaf}, j, s);
      } else {
        HasNext(n, s);
        DoubleKeepsOwn(fs, i, ind2, leaf, x, s);
      }
    }
  }

  lemma DoubleNew(fs: Fs, i: nat, ind2: uint32, leaf: uint32, x: uint32, j: nat, s: Slot)
    requires DoubleReady(fs, i, ind2, leaf, x) && ind2 < |fs.blocks| && leaf < |fs.blocks|
    requires AddDouble(fs, i, ind2, leaf, x).Owns(j, s) && !fs.Owns(j, s)
    ensures var fs', taken := AddDouble(fs, i, ind2, leaf, x), DoubleTaken(fs, i, ind2, leaf, x);
            j == i && fs'.AtI(j, s) in taken && taken[fs'.AtI(j, s)] == Owner(j, s)
  {
    DoubleInRange(fs, i, ind2, leaf, x);
    SizeStep(fs.inodes[i].size);
    HasNext(fs.N(i), s);
    NextIs(fs, i);
  }

  /** The words written lead to x by way of the numbers at hand. */
  lemma DoubleReads(fs: Fs, i: nat, ind2: uint32, leaf: uint32, x: uint32)
    requires fs.HasTree(i) && NDIRECT + NINDIRECT <= fs.N(i) < MAXFILEBLKS
    requires ind2 < |fs.blocks| && leaf < |fs.blocks| && leaf != ind2
    ensures var fs', k, j := AddDouble(fs, i, ind2, leaf, x), NextLeaf(fs, i), NextWord(fs, i);
      fs'.AtI(i, Indirect2) == ind2 && fs'.AtI(i, Leaf(k)) == leaf && fs'.AtI(i, Double(k, j)) == x
  {
  }

  lemma DoubleCounts(fs: Fs, i: nat, ind2: uint32, leaf: uint32, x: uint32)
    requires fs.HasTree(i) && NDIRECT + NINDIRECT <= fs.N(i) < MAXFILEBLKS && ind2 < |fs.blocks| && leaf < |fs.blocks|
    ensures var fs' := AddDouble(fs, i, ind2, leaf, x);
      && fs'.HasTree(i) && fs'.N(i) == fs.N(i) + 1
      && forall j: nat :: fs'.HasTree(j) ==> fs.HasTree(j) && (j != i ==> fs'.N(j) == fs.N(j))
  {
    SizeStep(fs.inodes[i].size);
  }

  lemma DoubleTakenPlaces(fs: Fs, i: nat, ind2: uint32, leaf: uint32, x: uint32)
    requires DoubleReady(fs, i, ind2, leaf, x) && ind2 < |fs.blocks| && leaf < |fs.blocks|
    ensures var fs', taken := AddDouble(fs, i, ind2, leaf, x), DoubleTaken(fs, i, ind2, leaf, x);
      forall b :: b in taken ==> fs'.Owns(taken[b].ino, taken[b].slot) && fs'.AtI(taken[b].ino, taken[b].slot) == b
  {
    forall b | b in DoubleTaken(fs, i, ind2, leaf, x)
      ensures var o := DoubleTaken(fs, i, ind2, leaf, x)[b];
        AddDouble(fs, i, ind2, leaf, x).Owns(o.ino, o.slot) && AddDouble(fs, i, ind2, leaf, x).AtI(o.ino, o.slot) == b
    {
      DoubleTakenPlace(fs, i, ind2, leaf, x, b);
    }
  }

  lemma DoubleTakenPlace(fs: Fs, i: nat, ind2: uint32, leaf: uint32, x: uint32, b: nat)
    requires DoubleReady(fs, i, ind2, leaf, x) && ind2 < |fs.blocks| && leaf < |fs.blocks|
    requires b in DoubleTaken(fs, i, ind2, leaf, x)
    ensures var fs', o := AddDouble(fs, i, ind2, leaf, x), DoubleTaken(fs, i, ind2, leaf, x)[b];
      fs'.Owns(o.ino, o.slot) && fs'.AtI(o.ino, o.slot) == b
  {
    DoubleInRange(fs, i, ind2, leaf, x);
    DoubleReads(fs, i, ind2, leaf, x);
    DoubleCounts(fs, i, ind2, leaf, x);
    NewPlaces(fs, i);
    TakenIsAt(fs, i, ind2, leaf, x, b);
  }

  lemma TakenIsAt(fs: Fs, i: nat, ind2: uint32, leaf: uint32, x: uint32, b: nat)
    requires i < |fs.inodes| && NDIRECT + NINDIRECT <= fs.N(i) < MAXFILEBLKS
    requires b in DoubleTaken(fs, i, ind2, leaf, x)
    ensures TakenAt(fs, i, ind2, leaf, x, b)
  {
  }

  // What block b, one of those taken, is for.
  ghost predicate TakenAt(fs: Fs, i: nat, ind2: uint32, leaf: uint32, x: uint32, b: nat)
    requires i < |fs.inodes| && NDIRECT + NINDIRECT <= fs.N(i) < MAXFILEBLKS
  {
    var taken, k := DoubleTaken(fs, i, ind2, leaf, x), NextLeaf(fs, i);
    b in taken
    && ((b == ind2 && taken[b] == Owner(i, Indirect2)) || (b == leaf && taken[b] == Owner(i, Leaf(k)))
        || (b == x && taken[b] == Owner(i, Double(k, NextWord(fs, i)))))
  }

  lemma NewPlaces(fs: Fs, i: nat)
    requires i < |fs.inodes| && NDIRECT + NINDIRECT <= fs.N(i) < MAXFILEBLKS
    ensures var n, k := fs.N(i), NextLeaf(fs, i);
      Has(n + 1, Indirect2) && Has(n + 1, Leaf(k)) && Has(n + 1, Double(k, NextWord(fs, i)))
  {
    NextIs(fs, i);
    HasNext(fs.N(i), DataSlot(fs.N(i)));
  }

  lemma AddDoubleTrees(fs: Fs, i: nat, ind2: uint32, leaf: uint32, x: uint32)
    requires DoubleReady(fs, i, ind2, leaf, x) && ind2 < |fs.blocks| && leaf < |fs.blocks|
    ensures AddDouble(fs, i, ind2, leaf, x).Trees()
  {
    var fs', taken := AddDouble(fs, i, ind2, leaf, x), DoubleTaken(fs, i, ind2, leaf, x);
    DoubleCounts(fs, i, ind2, leaf, x);
    DoubleKeeps(fs, i, ind2, leaf, x);
    DoubleTakenPlaces(fs, i, ind2, leaf, x);
    DoubleTakenFree(fs, i, ind2, leaf, x);
    forall j, s | fs'.Owns(j, s)
      ensures fs.Owns(j, s) || (fs'.AtI(j, s) in taken && taken[fs'.AtI(j, s)] == Owner(j, s))
    {
      if !fs.Owns(j, s) {
        DoubleNew(fs, i, ind2, leaf, x, j, s);
      }
    }
    TreesExtend(fs, fs', taken);
  }

  lemma DoubleTakenFree(fs: Fs, i: nat, ind2: uint32, leaf: uint32, x: uint32)
    requires DoubleChoice(fs, i, ind2, leaf, x)
    ensures DoubleTaken(fs, i, ind2, leaf, x).Keys <= fs.free
  {
  }

  lemma DoubleKeepsData(fs: Fs, i: nat, ind2: uint32, leaf: uint32, x: uint32)
    requires DoubleReady(fs, i, ind2, leaf, x) && ind2 < |fs.blocks| && leaf < |fs.blocks|
    ensures DataKept(fs, AddDouble(fs, i, ind2, leaf, x))
  {
    DoubleInRange(fs, i, ind2, leaf, x);
    forall j, s | fs.Owns(j, s) && s.IsData() ensures fs.AtI(j, s) != ind2 && fs.AtI(j, s) != leaf {
      assert fs.owner[fs.AtI(j, s)] == Owner(j, s);
    }
  }

  /** The new block and the pointer blocks that had to be opened for it are exactly what file i gains. */
  lemma AddDoubleGrown(fs: Fs, i: nat, ind2: uint32, leaf: uint32, x: uint32)
    requires DoubleReady(fs, i, ind2, leaf, x) && ind2 < |fs.blocks| && leaf < |fs.blocks|
    ensures Grown(fs, AddDouble(fs, i, ind2, leaf, x), i)
  {
    var n, fs' := fs.N(i), AddDouble(fs, i, ind2, leaf, x);
    DoubleCounts(fs, i, ind2, leaf, x);
    assert PrefixKept(fs, fs', i, n) && OthersKept(fs, fs', i) by {
      DoubleKeeps(fs, i, ind2, leaf, x);
      forall s | Has(n, s) ensures fs'.AtI(i, s) == fs.AtI(i, s) {
        assert fs.Owns(i, s);
      }
    }
    DoubleKeepsData(fs, i, ind2, leaf, x);
    assert NewBlocks(fs', i, n) == DoubleTaken(fs, i, ind2, leaf, x).Keys by {
      assert leaf != ind2 by {
        DoubleInRange(fs, i, ind2, leaf, x);
      }
      NextIs(fs, i);
      DoubleReads(fs, i, ind2, leaf, x);
    }
    DoubleTakenFree(fs, i, ind2, leaf, x);
  }
}
