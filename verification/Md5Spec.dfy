// The MD5 message digest of RFC 1321, sections 3.1 to 3.5.
module Md5Spec {
  import opened Bits
  import opened Words

  const BLOCKSIZE := 64
  const DIGESTSIZE := 16

  datatype Registers = Registers(a: bv32, b: bv32, c: bv32, d: bv32)

  type Sixteen = ws: seq<bv32> | |ws| == 16 witness ZeroWords(16)

  function ZeroWords(n: nat): (ws: seq<bv32>)
    ensures |ws| == n
  {
    if n == 0 then [] else [0] + ZeroWords(n - 1)
  }

  // ----- section 3.4: the compression of one block

  type StepNumber = i: nat | i < 64

  /** The table of sines, counted from 0 here: entry i is the integer part of 4294967296 * abs(sin(i + 1)). */
  function T(i: StepNumber): bv32 {
    if i < 16 then T1(i) else if i < 32 then T2(i - 16) else if i < 48 then T3(i - 32) else T4(i - 48)
  }

  type Sixteenth = j: nat | j < 16

  function T1(j: Sixteenth): bv32 {
    match j
    case 0 => 0xd76aa478
    case 1 => 0xe8c7b756
    case 2 => 0x242070db
    case 3 => 0xc1bdceee
    case 4 => 0xf57c0faf
    case 5 => 0x4787c62a
    case 6 => 0xa8304613
    case 7 => 0xfd469501
    case 8 => 0x698098d8
    case 9 => 0x8b44f7af
    case 10 => 0xffff5bb1
    case 11 => 0x895cd7be
    case 12 => 0x6b901122
    case 13 => 0xfd987193
    case 14 => 0xa679438e
    case _ => 0x49b40821
  }

  function T2(j: Sixteenth): bv32 {
    match j
    case 0 => 0xf61e2562
    case 1 => 0xc040b340
    case 2 => 0x265e5a51
    case 3 => 0xe9b6c7aa
    case 4 => 0xd62f105d
    case 5 => 0x02441453
    case 6 => 0xd8a1e681
    case 7 => 0xe7d3fbc8
    case 8 => 0x21e1cde6
    case 9 => 0xc33707d6
    case 10 => 0xf4d50d87
    case 11 => 0x455a14ed
    case 12 => 0xa9e3e905
    case 13 => 0xfcefa3f8
    case 14 => 0x676f02d9
    case _ => 0x8d2a4c8a
  }

  function T3(j: Sixteenth): bv32 {
    match j
    case 0 => 0xfffa3942
    case 1 => 0x8771f681
    case 2 => 0x6d9d6122
    case 3 => 0xfde5380c
    case 4 => 0xa4beea44
    case 5 => 0x4bdecfa9
    case 6 => 0xf6bb4b60
    case 7 => 0xbebfbc70
    case 8 => 0x289b7ec6
    case 9 => 0xeaa127fa
    case 10 => 0xd4ef3085
    case 11 => 0x04881d05
    case 12 => 0xd9d4d039
    case 13 => 0xe6db99e5
    case 14 => 0x1fa27cf8
    case _ => 0xc4ac5665
  }

  function T4(j: Sixteenth): bv32 {
    match j
    case 0 => 0xf4292244
    case 1 => 0x432aff97
    case 2 => 0xab9423a7
    case 3 => 0xfc93a039
    case 4 => 0x655b59c3
    case 5 => 0x8f0ccc92
    case 6 => 0xffeff47d
    case 7 => 0x85845dd1
    case 8 => 0x6fa87e4f
    case 9 => 0xfe2ce6e0
    case 10 => 0xa3014314
    case 11 => 0x4e0811a1
    case 12 => 0xf7537e82
    case 13 => 0xbd3af235
    case 14 => 0x2ad7d2bb
    case _ => 0xeb86d391
  }

  /** The word of the block that step i adds. */
  function K(i: StepNumber): (k: nat)
    ensures k < 16
  {
    if i < 16 then i
    else if i < 32 then (5 * i + 1) % 16
    else if i < 48 then (3 * i + 5) % 16
    else 7 * i % 16
  }

  /** How far step i rotates. */
  function S(i: StepNumber): (s: nat)
    ensures 4 <= s <= 23
  {
    var j := i % 4;
    if i < 16 then 7 + 5 * j
    else if i < 32 then (if j == 0 then 5 else if j == 1 then 9 else if j == 2 then 14 else 20)
    else if i < 48 then (if j == 0 then 4 else if j == 1 then 11 else if j == 2 then 16 else 23)
    else if j == 0 then 6 else if j == 1 then 10 else if j == 2 then 15 else 21
  }

  function Mix(i: StepNumber, x: bv32, y: bv32, z: bv32): bv32 {
    if i < 16 then F(x, y, z) else if i < 32 then G(x, y, z) else if i < 48 then H(x, y, z) else I(x, y, z)
  }

  /** What step i makes of register a. */
  function Turn(i: StepNumber, a: bv32, b: bv32, c: bv32, d: bv32, w: Sixteen): bv32 {
    TurnWord(Mix(i, b, c, d), a, b, w[K(i)], S(i), T(i))
  }

  /** Step i, with the registers moved on by one place so that all steps read the same. */
  function Step(i: StepNumber, r: Registers, w: Sixteen): Registers {
    Registers(r.d, Turn(i, r.a, r.b, r.c, r.d, w), r.b, r.c)
  }

  /** The first n steps. */
  function Steps(n: nat, r: Registers, w: Sixteen): Registers
    requires n <= 64
    decreases n, w
  {
    if n == 0 then r else Step(n - 1, Steps(n - 1, r, w), w)
  }

  function Accumulate(r: Registers, s: Registers): Registers {
    Registers(r.a + s.a, r.b + s.b, r.c + s.c, r.d + s.d)
  }

  function Compress(r: Registers, w: Sixteen): Registers {
    CompressAfter(DEPTH, r, w)
  }

  // The countdown keeps the steps out of proofs that only pass blocks on; CompressIs opens it.
  function CompressAfter(n: nat, r: Registers, w: Sixteen): Registers
    decreases n, w
  {
    if n == 0 then Accumulate(r, Steps(64, r, w)) else CompressAfter(n - 1, r, w)
  }

  lemma CompressIs(r: Registers, w: Sixteen)
    ensures Compress(r, w) == Accumulate(r, Steps(64, r, w))
  {
    CompressAfterIs(DEPTH, r, w);
  }

  lemma {:induction false} CompressAfterIs(n: nat, r: Registers, w: Sixteen)
    ensures CompressAfter(n, r, w) == Accumulate(r, Steps(64, r, w))
    decreases n
  {
    if n > 0 {
      CompressAfterIs(n - 1, r, w);
    }
  }

  // ----- section 3.3: the initial registers

  const INITIAL := Registers(0x67452301, 0xefcdab89, 0x98badcfe, 0x10325476)

  // ----- sections 3.1 and 3.2: padding and length

  function ZeroBytes(n: nat): (zs: seq<byte>)
    ensures |zs| == n && forall k :: 0 <= k < n ==> zs[k] == 0
  {
    if n == 0 then [] else [0] + ZeroBytes(n - 1)
  }

  /** A 64-bit number, low-order word first. */
  function LengthBytes(bits: nat): (bs: seq<byte>)
    ensures |bs| == 8
  {
    Encode(bits % TWO32) + Encode(bits / TWO32 % TWO32)
  }

  lemma FillCount(n: nat, r: nat)
    requires r == n % BLOCKSIZE
    ensures (55 - n) % BLOCKSIZE == if r < 56 then 55 - r else 119 - r
  {
    var q := n / BLOCKSIZE;
    assert n == BLOCKSIZE * q + r;
    assert 55 - n == BLOCKSIZE * (-q) + (55 - r) == BLOCKSIZE * (-q - 1) + (119 - r);
  }

  lemma WholeBlocks(n: nat)
    ensures (n + 1 + (55 - n) % BLOCKSIZE + 8) % BLOCKSIZE == 0
  {
    var q, r := n / BLOCKSIZE, n % BLOCKSIZE;
    FillCount(n, r);
    assert n == BLOCKSIZE * q + r;
    assert n + 1 + (55 - n) % BLOCKSIZE + 8 == BLOCKSIZE * (if r < 56 then q + 1 else q + 2);
  }

  /** The message, a 1 bit, zeros up to 56 bytes modulo 64, and eight bytes of length. */
  function Padded(message: seq<byte>, length: seq<byte>): (p: seq<byte>)
    requires |length| == 8
    ensures |p| % BLOCKSIZE == 0
  {
    WholeBlocks(|message|);
    message + [0x80] + ZeroBytes((55 - |message|) % BLOCKSIZE) + length
  }

  // ----- sections 3.4 and 3.5: all blocks, and the digest

  /** Memory read as words, low-order byte first. */
  function WordsOf(bs: seq<byte>): (ws: seq<bv32>)
    requires |bs| % 4 == 0
    ensures 4 * |ws| == |bs|
  {
    if bs == [] then [] else [Word(Decode(bs[..4]))] + WordsOf(bs[4..])
  }

  function Absorb(r: Registers, bs: seq<byte>): Registers
    requires |bs| % BLOCKSIZE == 0
    decreases |bs|
  {
    if bs == [] then r else Absorb(Compress(r, WordsOf(bs[..BLOCKSIZE])), bs[BLOCKSIZE..])
  }

  function Output(r: Registers): (bs: seq<byte>)
    ensures |bs| == DIGESTSIZE
  {
    Encode(Value(r.a)) + Encode(Value(r.b)) + Encode(Value(r.c)) + Encode(Value(r.d))
  }

  function Digest(message: seq<byte>): (bs: seq<byte>)
    ensures |bs| == DIGESTSIZE
  {
    Output(Absorb(INITIAL, Padded(message, LengthBytes(8 * |message|))))
  }

  /** Absorbing block by block can be cut at any block boundary. */
  lemma {:induction false} AbsorbConcat(r: Registers, a: seq<byte>, b: seq<byte>)
    requires |a| % BLOCKSIZE == 0 && |b| % BLOCKSIZE == 0
    ensures Absorb(r, a + b) == Absorb(Absorb(r, a), b)
    decreases |a|
  {
    if a == [] {
      assert a + b == b;
    } else {
      AbsorbConcat(Compress(r, WordsOf(a[..BLOCKSIZE])), a[BLOCKSIZE..], b);
      assert (a + b)[..BLOCKSIZE] == a[..BLOCKSIZE];
      assert (a + b)[BLOCKSIZE..] == a[BLOCKSIZE..] + b;
    }
  }

  lemma AbsorbOne(r: Registers, a: seq<byte>, block: seq<byte>)
    requires |a| % BLOCKSIZE == 0 && |block| == BLOCKSIZE
    ensures Absorb(r, a + block) == Compress(Absorb(r, a), WordsOf(block))
  {
    AbsorbConcat(r, a, block);
    assert block[..BLOCKSIZE] == block && block[BLOCKSIZE..] == [];
  }
}
