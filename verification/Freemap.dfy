// The free-block bitmap: one bit per disk block, 1 meaning free, kept in an
// array of 32-bit words that the bit-vector operations change in place.
module Freemap {
  import opened Words

  type BitIndex = i: nat | i < 32

  // First block of the bitmap; the blocks up to it are never handed out.
  const FREEMAP_BLK := 2

  /** w & (1 << i), w | (1 << i) and w & ~(1 << i), digit by digit. */
  predicate TestDigit(w: nat, i: nat) {
    if i == 0 then w % 2 == 1 else TestDigit(w / 2, i - 1)
  }

  function SetDigit(w: nat, i: nat): nat {
    if i == 0 then w / 2 * 2 + 1 else w % 2 + 2 * SetDigit(w / 2, i - 1)
  }

  function ClearDigit(w: nat, i: nat): nat {
    if i == 0 then w / 2 * 2 else w % 2 + 2 * ClearDigit(w / 2, i - 1)
  }

  function Pow2(n: nat): (p: nat)
    ensures p >= 1
  {
    if n == 0 then 1 else 2 * Pow2(n - 1)
  }

  lemma Pow2Word()
    ensures Pow2(32) == TWO32
  {
    assert Pow2(8) == 256;
    assert Pow2(16) == 65536;
    assert Pow2(24) == 16777216;
  }

  lemma {:induction false} DigitsFit(w: nat, i: nat, n: nat)
    requires i < n && w < Pow2(n)
    ensures SetDigit(w, i) < Pow2(n) && ClearDigit(w, i) < Pow2(n)
  {
    if i > 0 {
      DigitsFit(w / 2, i - 1, n - 1);
    }
  }

  predicate TestBit(w: uint32, i: BitIndex) {
    TestDigit(w, i)
  }

  function SetBit(w: uint32, i: BitIndex): uint32 {
    Pow2Word();
    DigitsFit(w, i, 32);
    SetDigit(w, i)
  }

  function ClearBit(w: uint32, i: BitIndex): uint32 {
    Pow2Word();
    DigitsFit(w, i, 32);
    ClearDigit(w, i)
  }

  /** Setting or clearing a bit is seen by a test of that bit and of no other. */
  lemma {:induction false} DigitAfter(w: nat, i: nat, j: nat)
    ensures TestDigit(SetDigit(w, i), j) <==> i == j || TestDigit(w, j)
    ensures TestDigit(ClearDigit(w, i), j) <==> i != j && TestDigit(w, j)
  {
    assert SetDigit(w, i) / 2 == if i == 0 then w / 2 else SetDigit(w / 2, i - 1);
    assert ClearDigit(w, i) / 2 == if i == 0 then w / 2 else ClearDigit(w / 2, i - 1);
    if i > 0 && j > 0 {
      DigitAfter(w / 2, i - 1, j - 1);
    }
  }

  lemma {:induction false} AllOnes(n: nat, i: nat)
    requires i < n
    ensures TestDigit(Pow2(n) - 1, i)
  {
    if i > 0 {
      assert (Pow2(n) - 1) / 2 == Pow2(n - 1) - 1;
      AllOnes(n - 1, i - 1);
    }
  }

  // Always true; names the block whose bit a proof looks at, so that clients
  // see the bitmap only as the set 'bits'.
  ghost predicate Block(b: nat) {
    true
  }

  class FreeMap {
    const words: array<uint32>
    // The numbers whose bit is set.
    ghost var bits: set<nat>

    ghost predicate Valid()
      reads this, words
    {
      && (forall b :: b in bits ==> b < 32 * words.Length)
      && (forall b: nat {:trigger Block(b)} :: Block(b) && b < 32 * words.Length ==>
            (b in bits <==> TestBit(words[b / 32], b % 32)))
    }

    /** A bitmap of 'n' words with every bit set, as opendisk leaves it. */
    constructor (n: nat)
      ensures Valid() && fresh(words) && words.Length == n
      ensures forall b: nat :: b in bits <==> b < 32 * n
    {
      words := new uint32[n](_ => 0xFFFF_FFFF);
      bits := set b: nat | b < 32 * n && Block(b);
      new;
      forall b: nat | Block(b) && b < 32 * n
        ensures TestBit(words[b / 32], b % 32)
      {
        Pow2Word();
        AllOnes(32, b % 32);
      }
    }

    /** The bitmap that a mounted image has. */
    constructor FromWords(ws: seq<uint32>)
      ensures Valid() && fresh(words) && words[..] == ws
      ensures forall b: nat :: b in bits <==> b < 32 * |ws| && TestBit(ws[b / 32], b % 32)
    {
      words := new uint32[|ws|](i requires 0 <= i < |ws| => ws[i]);
      bits := set b: nat | b < 32 * |ws| && TestBit(ws[b / 32], b % 32) && Block(b);
    }

    predicate Test(b: nat)
      requires Valid() && b < 32 * words.Length
      reads this, words
      ensures Test(b) <==> b in bits
    {
      assert Block(b);
      TestBit(words[b / 32], b % 32)
    }

    method Set(b: nat)
      requires Valid() && b < 32 * words.Length
      modifies this, words
      ensures Valid() && bits == old(bits) + {b}
    {
      words[b / 32] := SetBit(words[b / 32], b % 32);
      bits := bits + {b};
      forall c: nat | Block(c) && c < 32 * words.Length
        ensures c in bits <==> TestBit(words[c / 32], c % 32)
      {
        DigitAfter(old(words[c / 32]), b % 32, c % 32);
      }
    }

    method Clear(b: nat)
      requires Valid() && b < 32 * words.Length
      modifies this, words
      ensures Valid() && bits == old(bits) - {b}
    {
      words[b / 32] := ClearBit(words[b / 32], b % 32);
      bits := bits - {b};
      forall c: nat | Block(c) && c < 32 * words.Length
        ensures c in bits <==> TestBit(words[c / 32], c % 32)
      {
        DigitAfter(old(words[c / 32]), b % 32, c % 32);
      }
    }

    /** allocate_block: the lowest free block above the bitmap, now taken; 0 when there is none. */
    method Allocate(nblocks: nat) returns (b: nat)
      requires Valid() && nblocks <= 32 * words.Length
      modifies this, words
      ensures Valid()
      ensures b == 0 ==> bits == old(bits) && forall c :: FREEMAP_BLK < c < nblocks ==> c !in bits
      ensures b != 0 ==> FREEMAP_BLK < b < nblocks && b in old(bits) && bits == old(bits) - {b}
      ensures b != 0 ==> forall c :: FREEMAP_BLK < c < b ==> c !in old(bits)
    {
      var current := FREEMAP_BLK + 1;
      while current < nblocks
        invariant FREEMAP_BLK < current
        invariant Valid() && bits == old(bits)
        invariant forall c :: FREEMAP_BLK < c < current && c < nblocks ==> c !in bits
        decreases nblocks - current
      {
        if Test(current) {
          Clear(current);
          return current;
        }
        current := current + 1;
      }
      return 0;
    }

    /** free_block: gives a block back; numbers that cannot name a data block are ignored. */
    method Free(b: nat, nblocks: nat)
      requires Valid() && nblocks <= 32 * words.Length
      modifies this, words
      ensures Valid()
      ensures bits == if FREEMAP_BLK < b < nblocks then old(bits) + {b} else old(bits)
    {
      if b < 3 || b >= nblocks {
        return;
      }
      Set(b);
    }
  }
}
