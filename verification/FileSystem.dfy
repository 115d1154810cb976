// The mounted file system: the block allocator, add_block, remove_block,
// change_size, and reading and writing file data.
module FileSystem {
  import opened Words
  import opened Freemap
  import opened Layout
  import opened Image
  import opened Resize
  import opened BlockCalls
  import opened FileData

  class FileSystem {
    const first: nat
    const freemap: FreeMap
    const blocks: array<Block>
    const inodes: array<Inode>
    // Which place in which file's tree names a block.
    ghost var owner: map<nat, Owner>

    ghost predicate Coupled()
      reads this, freemap, freemap.words, blocks, inodes
    {
      && freemap.Valid()
      && freemap.words.Length == BLKWORDS
      && blocks.Length <= BLKBITSIZE
    }

    ghost function State(): Fs
      reads this, freemap, blocks, inodes
    {
      Fs(first, freemap.bits, blocks[..], inodes[..], owner)
    }

    constructor (first: nat, freemap: FreeMap, blocks: array<Block>, inodes: array<Inode>, ghost owner: map<nat, Owner>)
      requires freemap.Valid() && freemap.words.Length == BLKWORDS && blocks.Length <= BLKBITSIZE
      ensures Coupled() && State() == Fs(first, freemap.bits, blocks[..], inodes[..], owner)
      ensures this.freemap == freemap && this.blocks == blocks && this.inodes == inodes
    {
      this.first, this.freemap, this.blocks, this.inodes, this.owner := first, freemap, blocks, inodes, owner;
    }

    // Free blocks are data blocks, and 'data' is a block that was just taken.
    ghost predicate Taken(data: nat)
      reads this, freemap
    {
      && (forall c :: c in freemap.bits ==> FREEMAP_BLK < c < blocks.Length)
      && FREEMAP_BLK < data < blocks.Length
      && data !in freemap.bits
    }

    /** add_block, case 0: record 'data' in the indirect block, taking that block first when index is 0. */
    method LinkIndirect(i: nat, index: IndirectNumber, data: uint32) returns (r: int)
      requires Coupled() && Taken(data) && i < inodes.Length
      requires index != 0 ==> inodes[i].indirect < blocks.Length
      modifies freemap, freemap.words, blocks, inodes
      ensures Coupled()
      ensures r == 0 || r == -EIO
      ensures r == -EIO <==> index == 0 && old(freemap.bits) == {}
      ensures r != 0 ==> freemap.bits == {data} && blocks[..] == old(blocks[..]) && inodes[..] == old(inodes[..])
      ensures r == 0 ==>
        var ind := inodes[i].indirect;
        && ind < blocks.Length
        && (if index == 0 then ind in old(freemap.bits) && freemap.bits == old(freemap.bits) - {ind}
            else ind == old(inodes[i].indirect) && freemap.bits == old(freemap.bits))
        && blocks[..] == old(blocks[..])[ind := old(blocks[..])[ind][index := data]]
        && inodes[..] == old(inodes[..])[i := old(inodes[i]).(indirect := ind)]
    {
      if index == 0 {
        var ind := freemap.Allocate(blocks.Length);
        if ind == 0 {
          freemap.Free(data, blocks.Length);
          return -EIO;
        }
        inodes[i] := inodes[i].(indirect := ind);
      }
      blocks[inodes[i].indirect] := blocks[inodes[i].indirect][index := data];
      return 0;
    }

    /** add_block, default case, as written: a new block is recorded at 'whichBlock' every time. */
    method LinkIndirect2(i: nat, whichBlock: IndirectNumber, index: IndirectNumber, data: uint32)
      returns (r: int, ghost ind: uint32, ghost newBlock: uint32)
      requires Coupled() && Taken(data) && i < inodes.Length
      requires index != 0 ==> inodes[i].indirect2 < blocks.Length
      modifies freemap, freemap.words, blocks, inodes
      ensures Coupled()
      ensures r == 0 || r == -EIO
      ensures r == 0 ==> data !in freemap.bits && newBlock in old(freemap.bits) - freemap.bits
      ensures r == 0 && index == 0 ==> ind in old(freemap.bits) - freemap.bits && ind != newBlock
    {
      var allocated1 := 0;
      if index == 0 {
        allocated1 := freemap.Allocate(blocks.Length);
        if allocated1 == 0 {
          freemap.Free(data, blocks.Length);
          return -EIO, 0, 0;
        }
        inodes[i] := inodes[i].(indirect2 := allocated1);
      }
      var block := freemap.Allocate(blocks.Length);
      if block == 0 {
        freemap.Free(data, blocks.Length);
        if allocated1 != 0 {
          freemap.Free(allocated1, blocks.Length);
          inodes[i] := inodes[i].(indirect2 := 0);
        }
        return -EIO, 0, 0;
      }
      var indirect2 := inodes[i].indirect2;
      blocks[indirect2] := blocks[indirect2][whichBlock := block];
      // When no block was taken for the indirect2 block, this lands in the boot block.
      blocks[allocated1] := blocks[allocated1][index := data];
      return 0, allocated1, block;
    }

    // indir_index and direct_index of a block number.
    static method Indices(b: uint32) returns (whichBlock: int, index: uint32)
      requires b < MAXFILEBLKS
      ensures b < NDIRECT ==> whichBlock == -1 && index == b
      ensures NDIRECT <= b < SINGLYINDIRECT ==> whichBlock == 0 && index == b - NDIRECT
      ensures SINGLYINDIRECT <= b ==> 0 <= whichBlock < 256 && index < 256 && DataSlot(b) == Double(whichBlock, index)
      ensures SINGLYINDIRECT <= b < SINGLYINDIRECT + NINDIRECT <==> SINGLYINDIRECT <= b && whichBlock == 0
      ensures SINGLYINDIRECT <= b < SINGLYINDIRECT + NINDIRECT ==> index == b - SINGLYINDIRECT
    {
      IndexFunctionsAgree(b);
      DataSlotIs(b);
      whichBlock, index := IndirIndex(b), DirectIndex(b);
    }

    // The switch of add_block: 'data', which was just taken, is recorded as block n of file i.
    method LinkBlock(ghost fs: Fs, i: nat, n: uint32, data: uint32) returns (r: int, ghost x: nat, ghost y: nat)
      requires Coupled() && fs.HasTree(i) && InRange(fs, i) && n == fs.N(i) < MAXFILEBLKS
      requires data in fs.free && FREEMAP_BLK < data < blocks.Length && State() == fs.(free := fs.free - {data})
      modifies freemap, freemap.words, blocks, inodes
      ensures Coupled() && (r == 0 || r == -EIO)
      ensures r == 0 ==> BlockLinked(fs, State(), i, data, x, y) == true
      ensures r != 0 && n < SINGLYINDIRECT ==> n == NDIRECT && fs.free == {data} && State() == fs
      ensures r != 0 ==> n >= NDIRECT
    {
      var whichBlock, index := Indices(n);
      r, x, y := 0, 0, 0;
      if whichBlock == -1 {
        inodes[i] := inodes[i].(direct := inodes[i].direct[index := data]);
      } else if whichBlock == 0 {
        r := LinkIndirect(i, index, data);
      } else {
        r, x, y := LinkIndirect2(i, whichBlock, index, data);
      }
    }

    /** add_block: one more block at the end of file i. */
    method AddBlock(i: nat) returns (r: int)
      requires Coupled() && State().HasTree(i) && InRange(State(), i)
      modifies this`owner, freemap, freemap.words, blocks, inodes
      ensures Coupled() && AddOutcome(old(State()), State(), i, r)
    {
      ghost var fs := State();
      var n := Size2NBlocks(inodes[i].size);
      if n >= MAXFILEBLKS {
        NotAdded(fs, i);
        return -ENOSPC;
      }
      var data := freemap.Allocate(blocks.Length);
      if data == 0 {
        NotAdded(fs, i);
        return -ENOSPC;
      }
      OnlyOne(fs.free, data);
      ghost var x, y;
      r, x, y := LinkBlock(fs, i, n, data);
      if r != 0 {
        AddOutcomeIs(fs, State(), i, r);
        return r;
      }
      ghost var mid := State();
      inodes[i] := inodes[i].(size := Add32(inodes[i].size, BLKSIZE));
      owner := OwnersOf(fs, mid, i, data);
      Lengthened(fs, mid, State(), i, data, x, y);
    }

    // The switch of remove_block: the last block, block n, is taken out of file i.
    method UnlinkBlock(i: nat, n: uint32)
      requires Coupled() && State().HasTree(i) && InRange(State(), i) && n + 1 == State().N(i) <= MAXFILEBLKS
      modifies freemap, freemap.words, blocks, inodes
      ensures Coupled() && BlockUnlinked(old(State()), State(), i) == true
    {
      ghost var fs := State();
      LastBlocks(fs, i, n);
      var whichBlock, index := Indices(n);
      if whichBlock == -1 {
        freemap.Free(inodes[i].direct[index], blocks.Length);
        inodes[i] := inodes[i].(direct := inodes[i].direct[index := 0]);
      } else if whichBlock == 0 {
        UnlinkIndirect(i, index);
      } else {
        UnlinkIndirect2(i, whichBlock, index);
      }
    }

    /** remove_block: drop the last block of file i. */
    method RemoveBlock(i: nat) returns (r: int)
      requires Coupled() && State().HasTree(i) && InRange(State(), i)
      modifies this`owner, freemap, freemap.words, blocks, inodes
      ensures Coupled() && RemoveOutcome(old(State()), State(), i, r)
    {
      ghost var fs := State();
      var n := Size2NBlocks(inodes[i].size);
      if n <= 0 {
        RemoveOutcomeIs(fs, State(), i, -ENOSPC);
        return -ENOSPC;
      }
      n := n - 1;
      UnlinkBlock(i, n);
      ghost var mid := State();
      inodes[i] := inodes[i].(size := Sub32(inodes[i].size, BLKSIZE));
      owner := owner - NewBlocks(fs, i, n);
      Shortened(fs, mid, State(), i);
      return 0;
    }

    /** remove_block, case 0: drop a block named by the indirect block, and that block too when index is 0. */
    method UnlinkIndirect(i: nat, index: IndirectNumber)
      requires Coupled() && i < inodes.Length && inodes[i].indirect < blocks.Length
      modifies freemap, freemap.words, blocks, inodes
      ensures Coupled()
      ensures var ind := old(inodes[i].indirect);
        && blocks[..] == old(blocks[..])[ind := old(blocks[ind])[index := 0]]
        && inodes[..] == old(inodes[..])[i := if index == 0 then old(inodes[i]).(indirect := 0) else old(inodes[i])]
        && freemap.bits == old(freemap.bits) + Freed(old(blocks[ind][index])) + (if index == 0 then Freed(ind) else {})
    {
      var ind := inodes[i].indirect;
      freemap.Free(blocks[ind][index], blocks.Length);
      blocks[ind] := blocks[ind][index := 0];
      if index == 0 {
        freemap.Free(ind, blocks.Length);
        inodes[i] := inodes[i].(indirect := 0);
      }
    }

    /** The numbers free_block accepts. */
    ghost function Freed(b: nat): set<nat> {
      if FREEMAP_BLK < b < blocks.Length then {b} else {}
    }

    /** remove_block, default case: drop a block named by an indirect block of the doubly indirect block. */
    method UnlinkIndirect2(i: nat, whichBlock: IndirectNumber, index: IndirectNumber)
      requires Coupled() && i < inodes.Length && inodes[i].indirect2 < blocks.Length
      requires blocks[inodes[i].indirect2][whichBlock] < blocks.Length
      modifies freemap, freemap.words, blocks, inodes
      ensures Coupled()
      ensures var ind2 := old(inodes[i].indirect2);
        var leaf := old(blocks[ind2][whichBlock]);
        var cleared := old(blocks[..])[leaf := old(blocks[leaf])[index := 0]];
        blocks[..] == if index == 0 then cleared[ind2 := cleared[ind2][whichBlock := 0]] else cleared
      ensures whichBlock != 0 ==> inodes[..] == old(inodes[..])
      ensures var leaf := old(blocks[inodes[i].indirect2][whichBlock]);
        whichBlock != 0 ==>
          freemap.bits == old(freemap.bits) + Freed(old(blocks[leaf][index])) + (if index == 0 then Freed(leaf) else {})
    {
      var indirect2 := blocks[inodes[i].indirect2][whichBlock];
      freemap.Free(blocks[indirect2][index], blocks.Length);
      blocks[indirect2] := blocks[indirect2][index := 0];
      if index == 0 {
        freemap.Free(indirect2, blocks.Length);
        blocks[inodes[i].indirect2] := blocks[inodes[i].indirect2][whichBlock := 0];
        if whichBlock == 0 {
          freemap.Free(inodes[i].indirect2, blocks.Length);
          inodes[i] := inodes[i].(indirect2 := 0);
        }
      }
    }

    // The loop of change_size that drops blocks, after k were added to fs0: to undo those, or because the new
    // size needs fewer. A file that has blocks can always lose one, so change_size's second rollback, from a
    // failing remove_block, never runs.
    method DropBlocks(ghost fs0: Fs, ghost k: nat, i: nat, size: uint32)
      requires Coupled() && fs0.HasTree(i) && State().HasTree(i)
      requires Added(fs0, State(), i, k) && State().N(i) == fs0.N(i) + k
      requires k == 0 || fs0.N(i) + k <= SINGLYINDIRECT
      requires Size2NBlocks(size) <= fs0.N(i) + k
      requires k == 0 ==> SoundPath(fs0.N(i), Size2NBlocks(size))
      modifies this`owner, freemap, freemap.words, blocks, inodes
      ensures Coupled() && Dropped(old(State()), State(), i, fs0.N(i) + k - Size2NBlocks(size))
    {
      ghost var grown, d := State(), 0;
      while Size2NBlocks(inodes[i].size) > Size2NBlocks(size)
        invariant Coupled() && Dropped(grown, State(), i, d)
        invariant State().HasTree(i) && State().N(i) == fs0.N(i) + k - d
        invariant Size2NBlocks(size) <= fs0.N(i) + k - d
      {
        ghost var mid := State();
        DropReady(fs0, grown, mid, i, k, d);
        var r := RemoveBlock(i);
        DropDone(fs0, grown, mid, State(), i, k, d, r);
        d := d + 1;
      }
      assert d == fs0.N(i) + k - Size2NBlocks(size);
    }

    // The call of add_block in change_size, after k calls that succeeded.
    method AddAnother(ghost fs: Fs, i: nat, ghost k: nat) returns (r: int)
      requires Coupled() && fs.HasTree(i) && Added(fs, State(), i, k) && fs.N(i) + k < SINGLYINDIRECT
      requires State().HasTree(i) && State().N(i) == fs.N(i) + k
      modifies this`owner, freemap, freemap.words, blocks, inodes
      ensures Coupled() && State().HasTree(i)
      ensures r == 0 ==> Added(fs, State(), i, k + 1) && State().N(i) == fs.N(i) + k + 1
      ensures r != 0 ==> Added(fs, State(), i, k) && State().N(i) == fs.N(i) + k
      ensures r != 0 ==> AddOutcome(State(), State(), i, r)
    {
      ghost var mid := State();
      AddReady(fs, mid, i, k);
      r := AddBlock(i);
      AddBlockFailure(mid, State(), i, r);
      if r == 0 {
        AddDone(fs, mid, State(), i, k);
      }
    }

    // The loop of change_size that adds blocks; k is how many it added.
    method AddBlocks(i: nat, newSize: uint32) returns (r: int, ghost k: nat)
      requires Coupled() && State().Valid() && State().HasTree(i)
      requires State().N(i) < Size2NBlocks(newSize) ==> Size2NBlocks(newSize) <= SINGLYINDIRECT
      modifies this`owner, freemap, freemap.words, blocks, inodes
      ensures Coupled() && Added(old(State()), State(), i, k)
      ensures State().HasTree(i) && State().N(i) == old(State().N(i)) + k
      ensures k == 0 || State().N(i) <= Size2NBlocks(newSize)
      ensures r == 0 ==> State().N(i) >= Size2NBlocks(newSize)
      ensures r != 0 ==> State().N(i) < Size2NBlocks(newSize) && AddOutcome(State(), State(), i, r)
    {
      ghost var fs := State();
      k := 0;
      while Size2NBlocks(inodes[i].size) < Size2NBlocks(newSize)
        invariant Coupled() && Added(fs, State(), i, k)
        invariant State().HasTree(i) && State().N(i) == fs.N(i) + k
        invariant k == 0 || State().N(i) <= Size2NBlocks(newSize)
        decreases Size2NBlocks(newSize) - Size2NBlocks(inodes[i].size)
      {
        r := AddAnother(fs, i, k);
        if r != 0 {
          return r, k;
        }
        k := k + 1;
      }
      return 0, k;
    }

    /** change_size: give file i 'newSize' bytes. */
    method ChangeSize(i: nat, newSize: uint32) returns (r: int)
      requires Coupled() && State().Valid() && State().HasTree(i)
      requires SoundPath(State().N(i), Size2NBlocks(newSize))
      modifies this`owner, freemap, freemap.words, blocks, inodes
      ensures Coupled()
      ensures ChangeSizeOutcome(old(State()), State(), i, newSize, r)
    {
      ghost var fs, k := State(), 0;
      var oldSize := inodes[i].size;
      r, k := AddBlocks(i, newSize);
      ghost var grown := State();
      if r != 0 {
        if r == -ENOSPC {
          DropBlocks(fs, k, i, oldSize);
        }
        ChangeSizeFails(fs, grown, State(), i, newSize, r, k);
        return r;
      }
      ghost var mid := DropAndSet(fs, k, i, newSize);
      ChangeSizeWorks(fs, grown, mid, State(), i, newSize, k);
      return 0;
    }

    // The end of change_size: drop what is too much, and set the size.
    method DropAndSet(ghost fs0: Fs, ghost k: nat, i: nat, newSize: uint32) returns (ghost mid: Fs)
      requires Coupled() && fs0.HasTree(i) && State().HasTree(i)
      requires Added(fs0, State(), i, k) && State().N(i) == fs0.N(i) + k
      requires k == 0 || fs0.N(i) + k <= SINGLYINDIRECT
      requires Size2NBlocks(newSize) <= fs0.N(i) + k
      requires k == 0 ==> SoundPath(fs0.N(i), Size2NBlocks(newSize))
      modifies this`owner, freemap, freemap.words, blocks, inodes
      ensures Coupled() && Dropped(old(State()), mid, i, fs0.N(i) + k - Size2NBlocks(newSize))
      ensures Sized(mid, State(), i, newSize)
    {
      DropBlocks(fs0, k, i, newSize);
      mid := State();
      inodes[i] := inodes[i].(size := newSize);
    }

    /** ospfs_read: at most 'count' bytes of file i from 'pos' on. The VFS keeps positions and counts below 2^31. */
    method Read(i: nat, pos: nat, count: nat) returns (r: int, buffer: seq<byte>, newPos: nat)
      requires Coupled() && State().Valid() && State().HasTree(i)
      requires pos < 0x8000_0000 && count < 0x8000_0000
      ensures pos > inodes[i].size ==> r == -EIO && buffer == [] && newPos == pos
      ensures pos <= inodes[i].size ==>
                && r == (if pos + count > inodes[i].size then inodes[i].size - pos else count)
                && buffer == State().Contents(i)[pos..pos + r]
                && newPos == pos + r
    {
      ghost var fs := State();
      ghost var text := fs.Contents(i);
      var n := count;
      if pos + count > inodes[i].size {
        n := Sub32(inodes[i].size, pos);
      }
      var amount := 0;
      buffer, newPos := [], pos;
      while amount < n
        invariant newPos == pos + amount && amount <= n
        invariant pos > inodes[i].size ==> amount == 0 && buffer == []
        invariant pos <= inodes[i].size ==> pos + amount <= |text| && buffer == text[pos..pos + amount]
      {
        var blockno := InodeBlockno(blocks[..], inodes[i], newPos);
        var remaining := n - amount;
        var offset := newPos % BLKSIZE;
        var chunk := BLKSIZE - offset;
        if chunk > remaining {
          chunk := remaining;
        }
        if pos <= inodes[i].size {
          ReadRound(fs, i, pos, amount, chunk);
        }
        if blockno == 0 {
          return -EIO, buffer, newPos;
        }
        buffer := buffer + Bytes(blocks[blockno])[offset..offset + chunk];
        amount := amount + chunk;
        newPos := newPos + chunk;
      }
      return amount, buffer, newPos;
    }

    // The copying loop of ospfs_write.
    method CopyIn(i: nat, pos: nat, buffer: seq<byte>) returns (r: int, newPos: nat)
      requires Coupled() && State().Valid() && State().HasTree(i)
      requires pos + |buffer| <= inodes[i].size
      modifies blocks
      ensures Coupled() && Wrote(old(State()), State(), i, pos, buffer)
      ensures r == |buffer| && newPos == pos + |buffer|
    {
      ghost var fs := State();
      WroteNothing(fs, i, pos);
      var amount, count := 0, |buffer|;
      newPos := pos;
      while amount < count
        invariant newPos == pos + amount && amount <= count
        invariant Coupled() && Wrote(fs, State(), i, pos, buffer[..amount])
      {
        ghost var mid := State();
        var remaining := count - amount;
        var offset := newPos % BLKSIZE;
        var n := BLKSIZE - offset;
        if n > remaining {
          n := remaining;
        }
        CopyRound(fs, mid, i, pos, buffer, amount, n);
        // Every position below the size has a block, so the loop's -EIO exit is never taken.
        var blockno := InodeBlockno(blocks[..], inodes[i], newPos);
        blocks[blockno] := Pack(Splice(Bytes(blocks[blockno]), offset, buffer[amount..amount + n]));
        assert State() == Poked(mid, i, newPos, buffer[amount..amount + n]);
        assert Wrote(fs, State(), i, pos, buffer[..amount + n]);
        amount := amount + n;
        newPos := newPos + n;
      }
      assert buffer[..amount] == buffer;
      return amount, newPos;
    }

    // The call of change_size in ospfs_write, for a file that has to be longer.
    method Grow(i: nat, end: nat) returns (r: int)
      requires Coupled() && State().Valid() && State().HasTree(i) && inodes[i].size < end && Growable(State(), i, end)
      modifies this`owner, freemap, freemap.words, blocks, inodes
      ensures Coupled() && State().Valid() && State().HasTree(i) && (Resized(old(State()), State(), i) == true)
      ensures end <= TWO32 - BLKSIZE && r == ResizeResult(old(State().N(i)), Size2NBlocks(end), |old(freemap.bits)|)
      ensures r == 0 ==> inodes[i].size == end
      ensures r == -ENOSPC ==> Restored(old(State()), State(), i) == true
    {
      ghost var fs := State();
      GrowableIsSound(fs, i, end);
      r := ChangeSize(i, end);
      ChangeSizeExact(fs, State(), i, end, r);
    }

    /** ospfs_write: 'buffer' written at 'pos', or at the end when the file is open for appending. */
    method Write(i: nat, append: bool, buffer: seq<byte>, pos: nat) returns (r: int, newPos: nat)
      requires Coupled() && State().Valid() && State().HasTree(i)
      requires Growable(State(), i, WriteStart(State(), i, append, pos) + |buffer|)
      modifies this`owner, freemap, freemap.words, blocks, inodes
      ensures Coupled() && State().Valid() && State().HasTree(i)
      ensures WriteResult(old(State()), State(), i, WriteStart(old(State()), i, append, pos), buffer, r) == true
      ensures r >= 0 ==> newPos == WriteStart(old(State()), i, append, pos) + |buffer|
    {
      ghost var fs := State();
      newPos := pos;
      if append {
        newPos := inodes[i].size;
      }
      if newPos + |buffer| > inodes[i].size {
        r := Grow(i, newPos + |buffer|);
        if r < 0 {
          WriteFails(fs, State(), i, newPos, buffer, r);
          return r, newPos;
        }
      } else {
        ResizedRefl(fs, i);
      }
      ghost var mid, start := State(), newPos;
      r, newPos := CopyIn(i, newPos, buffer);
      WriteWorks(fs, mid, State(), i, start, buffer);
    }
  }
}
