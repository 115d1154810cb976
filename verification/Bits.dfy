// What MD5 does to 32-bit words: the operations as section 3.4 of RFC 1321
// defines them, and as the program computes them.
module Bits {

  // The countdowns keep bits out of proofs about registers; the lemmas below open them.
  const DEPTH := 3

  function F(x: bv32, y: bv32, z: bv32): bv32 {
    FAfter(DEPTH, x, y, z)
  }

  function FAfter(n: nat, x: bv32, y: bv32, z: bv32): bv32
    decreases n, x
  {
    if n == 0 then (x & y) | (!x & z) else FAfter(n - 1, x, y, z)
  }

  lemma {:induction false} FAfterIs(n: nat, x: bv32, y: bv32, z: bv32)
    ensures FAfter(n, x, y, z) == (x & y) | (!x & z)
  {
    if n > 0 {
      FAfterIs(n - 1, x, y, z);
    }
  }

  function G(x: bv32, y: bv32, z: bv32): bv32 {
    GAfter(DEPTH, x, y, z)
  }

  function GAfter(n: nat, x: bv32, y: bv32, z: bv32): bv32
    decreases n, x
  {
    if n == 0 then (x & z) | (y & !z) else GAfter(n - 1, x, y, z)
  }

  lemma {:induction false} GAfterIs(n: nat, x: bv32, y: bv32, z: bv32)
    ensures GAfter(n, x, y, z) == (x & z) | (y & !z)
  {
    if n > 0 {
      GAfterIs(n - 1, x, y, z);
    }
  }

  function H(x: bv32, y: bv32, z: bv32): bv32 {
    HAfter(DEPTH, x, y, z)
  }

  function HAfter(n: nat, x: bv32, y: bv32, z: bv32): bv32
    decreases n, x
  {
    if n == 0 then x ^ y ^ z else HAfter(n - 1, x, y, z)
  }

  lemma {:induction false} HAfterIs(n: nat, x: bv32, y: bv32, z: bv32)
    ensures HAfter(n, x, y, z) == x ^ y ^ z
  {
    if n > 0 {
      HAfterIs(n - 1, x, y, z);
    }
  }

  function I(x: bv32, y: bv32, z: bv32): bv32 {
    IAfter(DEPTH, x, y, z)
  }

  function IAfter(n: nat, x: bv32, y: bv32, z: bv32): bv32
    decreases n, x
  {
    if n == 0 then y ^ (x | !z) else IAfter(n - 1, x, y, z)
  }

  lemma {:induction false} IAfterIs(n: nat, x: bv32, y: bv32, z: bv32)
    ensures IAfter(n, x, y, z) == y ^ (x | !z)
  {
    if n > 0 {
      IAfterIs(n - 1, x, y, z);
    }
  }

  /** Circular shift to the left. */
  function Rotate(x: bv32, s: nat): bv32
    requires 0 < s < 32
  {
    RotateAfter(DEPTH, x, s)
  }

  function RotateAfter(n: nat, x: bv32, s: nat): bv32
    requires 0 < s < 32
    decreases n, s
  {
    if n == 0 then (x << s) | (x >> (32 - s)) else RotateAfter(n - 1, x, s)
  }

  /** What a step makes of register a: b + ((a + f + word + t) <<< s). */
  function TurnWord(f: bv32, a: bv32, b: bv32, word: bv32, s: nat, t: bv32): bv32
    requires 0 < s < 32
  {
    TurnAfter(DEPTH, f, a, b, word, s, t)
  }

  function TurnAfter(n: nat, f: bv32, a: bv32, b: bv32, word: bv32, s: nat, t: bv32): bv32
    requires 0 < s < 32
    decreases n, s
  {
    if n == 0 then b + Rotate(a + f + word + t, s) else TurnAfter(n - 1, f, a, b, word, s, t)
  }

  lemma {:induction false} TurnAfterIs(n: nat, f: bv32, a: bv32, b: bv32, word: bv32, s: nat, t: bv32)
    requires 0 < s < 32
    ensures TurnAfter(n, f, a, b, word, s, t) == b + Rotate(a + f + word + t, s)
  {
    if n > 0 {
      TurnAfterIs(n - 1, f, a, b, word, s, t);
    }
  }

  /** The number that a word stands for, and back. */
  function Value(x: bv32): (n: int)
    ensures 0 <= n < 0x1_0000_0000
  {
    ValueAfter(DEPTH, x)
  }

  function ValueAfter(k: nat, x: bv32): (n: int)
    ensures 0 <= n < 0x1_0000_0000
    decreases k, x
  {
    if k == 0 then x as int else ValueAfter(k - 1, x)
  }

  function Word(n: int): bv32
    requires 0 <= n < 0x1_0000_0000
  {
    WordAfter(DEPTH, n)
  }

  function WordAfter(k: nat, n: int): bv32
    requires 0 <= n < 0x1_0000_0000
    decreases k, n
  {
    if k == 0 then n as bv32 else WordAfter(k - 1, n)
  }

  // ----- as the program computes them

  /** One operation fewer than F needs. */
  function FF(b: bv32, c: bv32, d: bv32): bv32 {
    d ^ (b & (c ^ d))
  }

  function FG(b: bv32, c: bv32, d: bv32): bv32 {
    FF(d, b, c)
  }

  function FH(b: bv32, c: bv32, d: bv32): bv32 {
    b ^ c ^ d
  }

  function FI(b: bv32, c: bv32, d: bv32): bv32 {
    c ^ (b | !d)
  }

  lemma FHIsH(b: bv32, c: bv32, d: bv32)
    ensures FH(b, c, d) == H(b, c, d)
  {
    HAfterIs(DEPTH, b, c, d);
  }

  lemma FIIsI(b: bv32, c: bv32, d: bv32)
    ensures FI(b, c, d) == I(b, c, d)
  {
    IAfterIs(DEPTH, b, c, d);
  }

  lemma FFIsF(b: bv32, c: bv32, d: bv32)
    ensures FF(b, c, d) == F(b, c, d)
  {
    FAfterIs(DEPTH, b, c, d);
    Choice(b, c, d);
  }

  lemma FGIsG(b: bv32, c: bv32, d: bv32)
    ensures FG(b, c, d) == G(b, c, d)
  {
    FFIsF(d, b, c);
    FAfterIs(DEPTH, d, b, c);
    GAfterIs(DEPTH, b, c, d);
    OtherOrder(b, c, d);
  }

  /** a += f + word + t; a = rol(a, s); a += b */
  function OpValue(f: bv32, a: bv32, b: bv32, word: bv32, s: nat, t: bv32): (r: bv32)
    requires 0 < s < 32
    ensures r == TurnWord(f, a, b, word, s, t)
  {
    TurnAfterIs(DEPTH, f, a, b, word, s, t);
    Sum(a, f, word, t);
    Swap(Rotate(a + f + word + t, s), b);
    Rotate(a + (f + word + t), s) + b
  }

  method Op(f: bv32, a: bv32, b: bv32, word: bv32, s: nat, t: bv32) returns (r: bv32)
    requires 0 < s < 32
    ensures r == TurnWord(f, a, b, word, s, t)
  {
    r := OpValue(f, a, b, word, s, t);
  }

  lemma Choice(b: bv32, c: bv32, d: bv32)
    ensures d ^ (b & (c ^ d)) == (b & c) | (!b & d)
  {
  }

  lemma OtherOrder(b: bv32, c: bv32, d: bv32)
    ensures (d & b) | (!d & c) == (b & d) | (c & !d)
  {
  }

  lemma Sum(a: bv32, f: bv32, word: bv32, t: bv32)
    ensures a + (f + word + t) == a + f + word + t
  {
  }

  lemma Swap(a: bv32, b: bv32)
    ensures a + b == b + a
  {
  }
}
