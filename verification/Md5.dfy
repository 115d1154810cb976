// The streaming MD5 implementation that the formatter uses to compare files.
module Md5 {
  import opened Bits
  import opened Md5Spec
  import opened Words

  // ----- transform: the 64 steps with the registers left in place

  // The macro OP for each round: the step that the constants belong to, done in place.

  method OpF(ghost i: StepNumber, a: bv32, b: bv32, c: bv32, d: bv32, word: bv32, s: nat, t: bv32, ghost w: Sixteen)
    returns (r: bv32)
    requires i < 16 && word == w[K(i)] && s == S(i) && t == T(i)
    ensures r == Turn(i, a, b, c, d, w)
  {
    FFIsF(b, c, d);
    r := Op(FF(b, c, d), a, b, word, s, t);
  }

  method OpG(ghost i: StepNumber, a: bv32, b: bv32, c: bv32, d: bv32, word: bv32, s: nat, t: bv32, ghost w: Sixteen)
    returns (r: bv32)
    requires 16 <= i < 32 && word == w[K(i)] && s == S(i) && t == T(i)
    ensures r == Turn(i, a, b, c, d, w)
  {
    FGIsG(b, c, d);
    r := Op(FG(b, c, d), a, b, word, s, t);
  }

  method OpH(ghost i: StepNumber, a: bv32, b: bv32, c: bv32, d: bv32, word: bv32, s: nat, t: bv32, ghost w: Sixteen)
    returns (r: bv32)
    requires 32 <= i < 48 && word == w[K(i)] && s == S(i) && t == T(i)
    ensures r == Turn(i, a, b, c, d, w)
  {
    FHIsH(b, c, d);
    r := Op(FH(b, c, d), a, b, word, s, t);
  }

  method OpI(ghost i: StepNumber, a: bv32, b: bv32, c: bv32, d: bv32, word: bv32, s: nat, t: bv32, ghost w: Sixteen)
    returns (r: bv32)
    requires 48 <= i && word == w[K(i)] && s == S(i) && t == T(i)
    ensures r == Turn(i, a, b, c, d, w)
  {
    FIIsI(b, c, d);
    r := Op(FI(b, c, d), a, b, word, s, t);
  }

  /** Four steps move the registers round once. */
  function Quad(i: StepNumber, r: Registers, w: Sixteen): Registers
    requires i + 4 <= 64
  {
    var a := Turn(i, r.a, r.b, r.c, r.d, w);
    var d := Turn(i + 1, r.d, a, r.b, r.c, w);
    var c := Turn(i + 2, r.c, d, a, r.b, w);
    var b := Turn(i + 3, r.b, c, d, a, w);
    Registers(a, b, c, d)
  }

  lemma Four(i: StepNumber, r: Registers, w: Sixteen)
    requires i + 4 <= 64
    ensures Steps(i + 4, r, w) == Quad(i, Steps(i, r, w), w)
  {
    var s := Steps(i, r, w);
    assert Steps(i + 1, r, w) == Step(i, s, w);
    assert Steps(i + 2, r, w) == Step(i + 1, Steps(i + 1, r, w), w);
    assert Steps(i + 3, r, w) == Step(i + 2, Steps(i + 2, r, w), w);
  }

  // The statements of rounds 1 to 4, four at a time.

  method Steps1To4(A0: bv32, B0: bv32, C0: bv32, D0: bv32, w: Sixteen) returns (A: bv32, B: bv32, C: bv32, D: bv32)
    ensures Registers(A, B, C, D) == Quad(0, Registers(A0, B0, C0, D0), w)
  {
    A, B, C, D := A0, B0, C0, D0;
    A := OpF(0, A, B, C, D, w[0], 7, 0xd76aa478, w);
    D := OpF(1, D, A, B, C, w[1], 12, 0xe8c7b756, w);
    C := OpF(2, C, D, A, B, w[2], 17, 0x242070db, w);
    B := OpF(3, B, C, D, A, w[3], 22, 0xc1bdceee, w);
  }

  method Steps5To8(A0: bv32, B0: bv32, C0: bv32, D0: bv32, w: Sixteen) returns (A: bv32, B: bv32, C: bv32, D: bv32)
    ensures Registers(A, B, C, D) == Quad(4, Registers(A0, B0, C0, D0), w)
  {
    A, B, C, D := A0, B0, C0, D0;
    A := OpF(4, A, B, C, D, w[4], 7, 0xf57c0faf, w);
    D := OpF(5, D, A, B, C, w[5], 12, 0x4787c62a, w);
    C := OpF(6, C, D, A, B, w[6], 17, 0xa8304613, w);
    B := OpF(7, B, C, D, A, w[7], 22, 0xfd469501, w);
  }

  method Steps9To12(A0: bv32, B0: bv32, C0: bv32, D0: bv32, w: Sixteen) returns (A: bv32, B: bv32, C: bv32, D: bv32)
    ensures Registers(A, B, C, D) == Quad(8, Registers(A0, B0, C0, D0), w)
  {
    A, B, C, D := A0, B0, C0, D0;
    A := OpF(8, A, B, C, D, w[8], 7, 0x698098d8, w);
    D := OpF(9, D, A, B, C, w[9], 12, 0x8b44f7af, w);
    C := OpF(10, C, D, A, B, w[10], 17, 0xffff5bb1, w);
    B := OpF(11, B, C, D, A, w[11], 22, 0x895cd7be, w);
  }

  method Steps13To16(A0: bv32, B0: bv32, C0: bv32, D0: bv32, w: Sixteen) returns (A: bv32, B: bv32, C: bv32, D: bv32)
    ensures Registers(A, B, C, D) == Quad(12, Registers(A0, B0, C0, D0), w)
  {
    A, B, C, D := A0, B0, C0, D0;
    A := OpF(12, A, B, C, D, w[12], 7, 0x6b901122, w);
    D := OpF(13, D, A, B, C, w[13], 12, 0xfd987193, w);
    C := OpF(14, C, D, A, B, w[14], 17, 0xa679438e, w);
    B := OpF(15, B, C, D, A, w[15], 22, 0x49b40821, w);
  }

  method Steps17To20(A0: bv32, B0: bv32, C0: bv32, D0: bv32, w: Sixteen) returns (A: bv32, B: bv32, C: bv32, D: bv32)
    ensures Registers(A, B, C, D) == Quad(16, Registers(A0, B0, C0, D0), w)
  {
    A, B, C, D := A0, B0, C0, D0;
    A := OpG(16, A, B, C, D, w[1], 5, 0xf61e2562, w);
    D := OpG(17, D, A, B, C, w[6], 9, 0xc040b340, w);
    C := OpG(18, C, D, A, B, w[11], 14, 0x265e5a51, w);
    B := OpG(19, B, C, D, A, w[0], 20, 0xe9b6c7aa, w);
  }

  method Steps21To24(A0: bv32, B0: bv32, C0: bv32, D0: bv32, w: Sixteen) returns (A: bv32, B: bv32, C: bv32, D: bv32)
    ensures Registers(A, B, C, D) == Quad(20, Registers(A0, B0, C0, D0), w)
  {
    A, B, C, D := A0, B0, C0, D0;
    A := OpG(20, A, B, C, D, w[5], 5, 0xd62f105d, w);
    D := OpG(21, D, A, B, C, w[10], 9, 0x02441453, w);
    C := OpG(22, C, D, A, B, w[15], 14, 0xd8a1e681, w);
    B := OpG(23, B, C, D, A, w[4], 20, 0xe7d3fbc8, w);
  }

  method Steps25To28(A0: bv32, B0: bv32, C0: bv32, D0: bv32, w: Sixteen) returns (A: bv32, B: bv32, C: bv32, D: bv32)
    ensures Registers(A, B, C, D) == Quad(24, Registers(A0, B0, C0, D0), w)
  {
    A, B, C, D := A0, B0, C0, D0;
    A := OpG(24, A, B, C, D, w[9], 5, 0x21e1cde6, w);
    D := OpG(25, D, A, B, C, w[14], 9, 0xc33707d6, w);
    C := OpG(26, C, D, A, B, w[3], 14, 0xf4d50d87, w);
    B := OpG(27, B, C, D, A, w[8], 20, 0x455a14ed, w);
  }

  method Steps29To32(A0: bv32, B0: bv32, C0: bv32, D0: bv32, w: Sixteen) returns (A: bv32, B: bv32, C: bv32, D: bv32)
    ensures Registers(A, B, C, D) == Quad(28, Registers(A0, B0, C0, D0), w)
  {
    A, B, C, D := A0, B0, C0, D0;
    A := OpG(28, A, B, C, D, w[13], 5, 0xa9e3e905, w);
    D := OpG(29, D, A, B, C, w[2], 9, 0xfcefa3f8, w);
    C := OpG(30, C, D, A, B, w[7], 14, 0x676f02d9, w);
    B := OpG(31, B, C, D, A, w[12], 20, 0x8d2a4c8a, w);
  }

  method Steps33To36(A0: bv32, B0: bv32, C0: bv32, D0: bv32, w: Sixteen) returns (A: bv32, B: bv32, C: bv32, D: bv32)
    ensures Registers(A, B, C, D) == Quad(32, Registers(A0, B0, C0, D0), w)
  {
    A, B, C, D := A0, B0, C0, D0;
    A := OpH(32, A, B, C, D, w[5], 4, 0xfffa3942, w);
    D := OpH(33, D, A, B, C, w[8], 11, 0x8771f681, w);
    C := OpH(34, C, D, A, B, w[11], 16, 0x6d9d6122, w);
    B := OpH(35, B, C, D, A, w[14], 23, 0xfde5380c, w);
  }

  method Steps37To40(A0: bv32, B0: bv32, C0: bv32, D0: bv32, w: Sixteen) returns (A: bv32, B: bv32, C: bv32, D: bv32)
    ensures Registers(A, B, C, D) == Quad(36, Registers(A0, B0, C0, D0), w)
  {
    A, B, C, D := A0, B0, C0, D0;
    A := OpH(36, A, B, C, D, w[1], 4, 0xa4beea44, w);
    D := OpH(37, D, A, B, C, w[4], 11, 0x4bdecfa9, w);
    C := OpH(38, C, D, A, B, w[7], 16, 0xf6bb4b60, w);
    B := OpH(39, B, C, D, A, w[10], 23, 0xbebfbc70, w);
  }

  method Steps41To44(A0: bv32, B0: bv32, C0: bv32, D0: bv32, w: Sixteen) returns (A: bv32, B: bv32, C: bv32, D: bv32)
    ensures Registers(A, B, C, D) == Quad(40, Registers(A0, B0, C0, D0), w)
  {
    A, B, C, D := A0, B0, C0, D0;
    A := OpH(40, A, B, C, D, w[13], 4, 0x289b7ec6, w);
    D := OpH(41, D, A, B, C, w[0], 11, 0xeaa127fa, w);
    C := OpH(42, C, D, A, B, w[3], 16, 0xd4ef3085, w);
    B := OpH(43, B, C, D, A, w[6], 23, 0x04881d05, w);
  }

  method Steps45To48(A0: bv32, B0: bv32, C0: bv32, D0: bv32, w: Sixteen) returns (A: bv32, B: bv32, C: bv32, D: bv32)
    ensures Registers(A, B, C, D) == Quad(44, Registers(A0, B0, C0, D0), w)
  {
    A, B, C, D := A0, B0, C0, D0;
    A := OpH(44, A, B, C, D, w[9], 4, 0xd9d4d039, w);
    D := OpH(45, D, A, B, C, w[12], 11, 0xe6db99e5, w);
    C := OpH(46, C, D, A, B, w[15], 16, 0x1fa27cf8, w);
    B := OpH(47, B, C, D, A, w[2], 23, 0xc4ac5665, w);
  }

  method Steps49To52(A0: bv32, B0: bv32, C0: bv32, D0: bv32, w: Sixteen) returns (A: bv32, B: bv32, C: bv32, D: bv32)
    ensures Registers(A, B, C, D) == Quad(48, Registers(A0, B0, C0, D0), w)
  {
    A, B, C, D := A0, B0, C0, D0;
    A := OpI(48, A, B, C, D, w[0], 6, 0xf4292244, w);
    D := OpI(49, D, A, B, C, w[7], 10, 0x432aff97, w);
    C := OpI(50, C, D, A, B, w[14], 15, 0xab9423a7, w);
    B := OpI(51, B, C, D, A, w[5], 21, 0xfc93a039, w);
  }

  method Steps53To56(A0: bv32, B0: bv32, C0: bv32, D0: bv32, w: Sixteen) returns (A: bv32, B: bv32, C: bv32, D: bv32)
    ensures Registers(A, B, C, D) == Quad(52, Registers(A0, B0, C0, D0), w)
  {
    A, B, C, D := A0, B0, C0, D0;
    A := OpI(52, A, B, C, D, w[12], 6, 0x655b59c3, w);
    D := OpI(53, D, A, B, C, w[3], 10, 0x8f0ccc92, w);
    C := OpI(54, C, D, A, B, w[10], 15, 0xffeff47d, w);
    B := OpI(55, B, C, D, A, w[1], 21, 0x85845dd1, w);
  }

  method Steps57To60(A0: bv32, B0: bv32, C0: bv32, D0: bv32, w: Sixteen) returns (A: bv32, B: bv32, C: bv32, D: bv32)
    ensures Registers(A, B, C, D) == Quad(56, Registers(A0, B0, C0, D0), w)
  {
    A, B, C, D := A0, B0, C0, D0;
    A := OpI(56, A, B, C, D, w[8], 6, 0x6fa87e4f, w);
    D := OpI(57, D, A, B, C, w[15], 10, 0xfe2ce6e0, w);
    C := OpI(58, C, D, A, B, w[6], 15, 0xa3014314, w);
    B := OpI(59, B, C, D, A, w[13], 21, 0x4e0811a1, w);
  }

  method Steps61To64(A0: bv32, B0: bv32, C0: bv32, D0: bv32, w: Sixteen) returns (A: bv32, B: bv32, C: bv32, D: bv32)
    ensures Registers(A, B, C, D) == Quad(60, Registers(A0, B0, C0, D0), w)
  {
    A, B, C, D := A0, B0, C0, D0;
    A := OpI(60, A, B, C, D, w[4], 6, 0xf7537e82, w);
    D := OpI(61, D, A, B, C, w[11], 10, 0xbd3af235, w);
    C := OpI(62, C, D, A, B, w[2], 15, 0x2ad7d2bb, w);
    B := OpI(63, B, C, D, A, w[9], 21, 0xeb86d391, w);
  }

  method Round1(A0: bv32, B0: bv32, C0: bv32, D0: bv32, ghost r: Registers, w: Sixteen)
    returns (A: bv32, B: bv32, C: bv32, D: bv32)
    requires Registers(A0, B0, C0, D0) == Steps(0, r, w)
    ensures Registers(A, B, C, D) == Steps(16, r, w)
  {
    Four(0, r, w);
    A, B, C, D := Steps1To4(A0, B0, C0, D0, w);
    Four(4, r, w);
    A, B, C, D := Steps5To8(A, B, C, D, w);
    Four(8, r, w);
    A, B, C, D := Steps9To12(A, B, C, D, w);
    Four(12, r, w);
    A, B, C, D := Steps13To16(A, B, C, D, w);
  }

  method Round2(A0: bv32, B0: bv32, C0: bv32, D0: bv32, ghost r: Registers, w: Sixteen)
    returns (A: bv32, B: bv32, C: bv32, D: bv32)
    requires Registers(A0, B0, C0, D0) == Steps(16, r, w)
    ensures Registers(A, B, C, D) == Steps(32, r, w)
  {
    Four(16, r, w);
    A, B, C, D := Steps17To20(A0, B0, C0, D0, w);
    Four(20, r, w);
    A, B, C, D := Steps21To24(A, B, C, D, w);
    Four(24, r, w);
    A, B, C, D := Steps25To28(A, B, C, D, w);
    Four(28, r, w);
    A, B, C, D := Steps29To32(A, B, C, D, w);
  }

  method Round3(A0: bv32, B0: bv32, C0: bv32, D0: bv32, ghost r: Registers, w: Sixteen)
    returns (A: bv32, B: bv32, C: bv32, D: bv32)
    requires Registers(A0, B0, C0, D0) == Steps(32, r, w)
    ensures Registers(A, B, C, D) == Steps(48, r, w)
  {
    Four(32, r, w);
    A, B, C, D := Steps33To36(A0, B0, C0, D0, w);
    Four(36, r, w);
    A, B, C, D := Steps37To40(A, B, C, D, w);
    Four(40, r, w);
    A, B, C, D := Steps41To44(A, B, C, D, w);
    Four(44, r, w);
    A, B, C, D := Steps45To48(A, B, C, D, w);
  }

  method Round4(A0: bv32, B0: bv32, C0: bv32, D0: bv32, ghost r: Registers, w: Sixteen)
    returns (A: bv32, B: bv32, C: bv32, D: bv32)
    requires Registers(A0, B0, C0, D0) == Steps(48, r, w)
    ensures Registers(A, B, C, D) == Steps(64, r, w)
  {
    Four(48, r, w);
    A, B, C, D := Steps49To52(A0, B0, C0, D0, w);
    Four(52, r, w);
    A, B, C, D := Steps53To56(A, B, C, D, w);
    Four(56, r, w);
    A, B, C, D := Steps57To60(A, B, C, D, w);
    Four(60, r, w);
    A, B, C, D := Steps61To64(A, B, C, D, w);
  }

  // ----- length

  /** The lengths whose bit count do_final computes: above 2^29 bytes most carries are counted twice, and from 2^32
      bytes on the high word is not multiplied by 8 at all. Lengths count modulo 2^61, where their bit count starts
      again. */
  predicate LengthFits(n: nat) {
    var v := n % 0x2000_0000_0000_0000;
    v < TWO32 && 8 * v % TWO32 >= v
  }

  lemma ShortFits(n: nat)
    requires n < 0x2000_0000
    ensures LengthFits(n)
  {
  }

  /** 512 MB is the first length that comes out wrong. */
  lemma FirstMisfit()
    ensures !LengthFits(0x2000_0000)
  {
  }

  lemma Split32(a: nat, q: nat, r: nat)
    requires a == TWO32 * q + r && r < TWO32
    ensures a / TWO32 == q && a % TWO32 == r
  {
  }

  lemma Split61(a: nat, q: nat, r: nat)
    requires a == 0x2000_0000_0000_0000 * q + r && r < 0x2000_0000_0000_0000
    ensures a % 0x2000_0000_0000_0000 == r
  {
  }

  lemma Split6(a: nat, q: nat, r: nat)
    requires a == 64 * q + r && r < 64
    ensures a / 64 == q && a % 64 == r
  {
  }

  // The block count and the byte count in terms of the length.
  lemma Parts(n: nat, t: nat, count: nat)
    requires count < 64 && n % 64 == count && t == n / 64 % TWO32
    ensures var u := n % TWO32;
      && t * 64 % TWO32 + count == u && t / 0x400_0000 == n / TWO32 % 64
      && (t < 0x400_0000 ==> t * 64 % TWO32 == t * 64)
  {
    var q := n / 64;
    var h := q / TWO32;
    var a, b := t / 0x400_0000, t % 0x400_0000;
    assert n == 64 * q + count && q == TWO32 * h + t && t == 0x400_0000 * a + b;
    Split32(n, 64 * h + a, 64 * b + count);
    Split32(t * 64, a, 64 * b);
    Split6(64 * h + a, h, a);
  }

  // The bit count in terms of the length.
  lemma HighWord(n: nat)
    ensures var u, h := n % TWO32, n / TWO32 % 0x2000_0000;
      && 8 * n % TWO32 == 8 * u % TWO32
      && 8 * n / TWO32 % TWO32 == 8 * h + u / 0x2000_0000
      && n % 0x2000_0000_0000_0000 == TWO32 * h + u
      && n / TWO32 % 64 == h % 64
  {
    var u, g := n % TWO32, n / TWO32;
    var h, k := g % 0x2000_0000, g / 0x2000_0000;
    var q, r := u / 0x2000_0000, u % 0x2000_0000;
    assert n == TWO32 * g + u && g == 0x2000_0000 * k + h && u == 0x2000_0000 * q + r;
    Split32(8 * n, 8 * g + q, 8 * r);
    Split32(8 * u, q, 8 * r);
    Split32(8 * g + q, k, 8 * h + q);
    Split61(n, k, TWO32 * h + u);
    Split6(g, 0x80_0000 * k + h / 64, h % 64);
  }

  // do_final's arithmetic, on the length split into h * 2^32 + u bytes.
  method LengthParts(nblocks: uint32, count: nat, ghost h: nat, ghost u: uint32)
    returns (lsb: uint32, msb: int, ghost e: nat)
    requires count < BLOCKSIZE && nblocks * 64 % TWO32 + count == u && nblocks / 0x400_0000 == h % 64
    requires nblocks < 0x400_0000 ==> nblocks * 64 % TWO32 == nblocks * 64
    ensures lsb == 8 * u % TWO32 && e <= 1 && (h % 64 == 0 ==> e == 0)
    ensures msb == e + h % 64 + (if 8 * u % TWO32 < u then 1 else 0) + u / 0x2000_0000 < TWO32
  {
    msb := 0;
    var t := nblocks;
    lsb := t * 64 % TWO32;
    if lsb < t {
      msb := msb + 1;
    }
    e := msb;
    msb := msb + t / 0x400_0000;
    t := lsb;
    lsb := (t + count) % TWO32;
    if lsb < t {
      msb := msb + 1;
    }
    assert lsb == u && msb == e + h % 64;
    t := lsb;
    lsb := t * 8 % TWO32;
    if lsb < t {
      msb := msb + 1;
    }
    msb := msb + t / 0x2000_0000;
  }

  /** The length words of do_final for a message of n bytes. */
  method LengthWords(nblocks: uint32, count: nat, ghost n: nat) returns (lsb: uint32, msb: uint32)
    requires count < BLOCKSIZE && n % BLOCKSIZE == count && nblocks == n / BLOCKSIZE % TWO32
    ensures lsb == 8 * n % TWO32
    ensures msb == 8 * n / TWO32 % TWO32 <==> LengthFits(n)
  {
    ghost var u, h := n % TWO32, n / TWO32 % 0x2000_0000;
    Parts(n, nblocks, count);
    HighWord(n);
    ghost var e;
    lsb, msb, e := LengthParts(nblocks, count, h, u);
    WordsAgree(h, u, e, msb);
  }

  lemma WordsAgree(h: nat, u: uint32, e: nat, msb: nat)
    requires h < 0x2000_0000 && e <= 1 && (h % 64 == 0 ==> e == 0)
    requires msb == e + h % 64 + (if 8 * u % TWO32 < u then 1 else 0) + u / 0x2000_0000
    ensures msb == 8 * h + u / 0x2000_0000 <==> TWO32 * h + u < TWO32 && 8 * (TWO32 * h + u) % TWO32 >= TWO32 * h + u
  {
  }

  // ----- padding

  /** With room for the length the padding ends the block; otherwise it goes on through the next one. */
  lemma PaddedIs(message: seq<byte>, k: nat, c: nat, length: seq<byte>)
    requires |length| == 8 && |message| == BLOCKSIZE * k + c && c < BLOCKSIZE
    ensures c < 56 ==> Padded(message, length) == message + [0x80] + ZeroBytes(55 - c) + length
    ensures c >= 56 ==>
              Padded(message, length) == message + [0x80] + ZeroBytes(63 - c) + ZeroBytes(56) + length
  {
    FillCount(|message|, c);
    if c >= 56 {
      assert ZeroBytes(119 - c) == ZeroBytes(63 - c) + ZeroBytes(56);
    }
  }

  lemma ZerosEnd(n: nat)
    ensures ZeroBytes(n) + [0] == ZeroBytes(n + 1)
  {
  }

  // ----- MD5_CONTEXT

  /** The registers after the first k blocks. */
  function After(message: seq<byte>, k: nat): Registers
    requires BLOCKSIZE * k <= |message|
    decreases k, |message|
  {
    if k == 0 then INITIAL
    else Compress(After(message, k - 1), WordsOf(message[BLOCKSIZE * (k - 1)..BLOCKSIZE * (k - 1) + BLOCKSIZE]))
  }

  lemma {:induction false} AfterOfPrefix(message: seq<byte>, more: seq<byte>, k: nat)
    requires BLOCKSIZE * k <= |message|
    ensures After(message + more, k) == After(message, k)
    decreases k
  {
    if k > 0 {
      AfterOfPrefix(message, more, k - 1);
      var lo := BLOCKSIZE * (k - 1);
      assert (message + more)[lo..lo + BLOCKSIZE] == message[lo..lo + BLOCKSIZE];
    }
  }

  lemma AfterStep(before: seq<byte>, block: seq<byte>, k: nat)
    requires |before| == BLOCKSIZE * k && |block| == BLOCKSIZE
    ensures After(before + block, k + 1) == Compress(After(before, k), WordsOf(block))
  {
    AfterOfPrefix(before, block, k);
    assert (before + block)[BLOCKSIZE * k..BLOCKSIZE * k + BLOCKSIZE] == block;
  }

  /** Block by block from the front, or from the back. */
  lemma {:induction false} AfterIsAbsorb(r: Registers, message: seq<byte>, k: nat)
    requires |message| == BLOCKSIZE * k && |message| % BLOCKSIZE == 0 && r == INITIAL
    ensures After(message, k) == Absorb(r, message)
    decreases k
  {
    if k > 0 {
      var before, block := message[..BLOCKSIZE * (k - 1)], message[BLOCKSIZE * (k - 1)..];
      Split6(|before|, k - 1, 0);
      AfterIsAbsorb(r, before, k - 1);
      AfterStep(before, block, k - 1);
      AbsorbOne(r, before, block);
      assert message == before + block;
    }
  }

  /** The first k blocks of the message are in the registers, and the other bytes are waiting. */
  ghost predicate Fed(r: Registers, nblocks: uint32, waiting: seq<byte>, message: seq<byte>, k: nat) {
    FedAfter(1 + |message|, r, nblocks, waiting, message, k)
  }

  // The countdown keeps the definition out of proofs that only pass it on; FedIs opens it.
  ghost predicate FedAfter(n: nat, r: Registers, nblocks: uint32, waiting: seq<byte>, message: seq<byte>, k: nat)
    decreases n
  {
    if n == 0 then IsFed(r, nblocks, waiting, message, k) else FedAfter(n - 1, r, nblocks, waiting, message, k)
  }

  ghost predicate IsFed(r: Registers, nblocks: uint32, waiting: seq<byte>, message: seq<byte>, k: nat) {
    && |message| == BLOCKSIZE * k + |waiting| && message[BLOCKSIZE * k..] == waiting
    && nblocks == k % TWO32 && r == After(message, k)
  }

  lemma FedIs(r: Registers, nblocks: uint32, waiting: seq<byte>, message: seq<byte>, k: nat)
    ensures Fed(r, nblocks, waiting, message, k) <==> IsFed(r, nblocks, waiting, message, k)
  {
    FedAfterIs(1 + |message|, r, nblocks, waiting, message, k);
  }

  lemma {:induction false} FedAfterIs(n: nat, r: Registers, nblocks: uint32, waiting: seq<byte>, message: seq<byte>,
                                      k: nat)
    ensures FedAfter(n, r, nblocks, waiting, message, k) <==> IsFed(r, nblocks, waiting, message, k)
    decreases n
  {
    if n > 0 {
      FedAfterIs(n - 1, r, nblocks, waiting, message, k);
    }
  }

  /** Bytes put into the buffer. */
  lemma FedBytes(r: Registers, nblocks: uint32, waiting: seq<byte>, message: seq<byte>, k: nat, more: seq<byte>)
    requires Fed(r, nblocks, waiting, message, k)
    ensures Fed(r, nblocks, waiting + more, message + more, k)
  {
    FedIs(r, nblocks, waiting, message, k);
    FedIs(r, nblocks, waiting + more, message + more, k);
    AfterOfPrefix(message, more, k);
  }

  /** A whole block taken into the registers. */
  lemma FedBlock(r: Registers, nblocks: uint32, block: seq<byte>, message: seq<byte>, k: nat)
    requires Fed(r, nblocks, block, message, k) && |block| == BLOCKSIZE
    ensures Fed(Compress(r, WordsOf(block)), Add32(nblocks, 1), [], message, k + 1)
  {
    FedIs(r, nblocks, block, message, k);
    FedIs(Compress(r, WordsOf(block)), Add32(nblocks, 1), [], message, k + 1);
    assert message[BLOCKSIZE * k..BLOCKSIZE * k + BLOCKSIZE] == block;
    NextCount(k);
  }

  lemma NextCount(k: nat)
    ensures Add32(k % TWO32, 1) == (k + 1) % TWO32
  {
  }

  class Context {
    var A: bv32
    var B: bv32
    var C: bv32
    var D: bv32
    var nblocks: uint32
    const buf: array<byte>
    var count: nat
    var finalized: bool
    // All the bytes given to Update so far.
    ghost var input: seq<byte>

    ghost function Regs(): Registers
      reads this
    {
      Registers(A, B, C, D)
    }

    // The first 'blocks' blocks of it are in the registers; the other bytes wait in the buffer.
    ghost var blocks: nat

    ghost predicate Running()
      reads this, buf
    {
      !finalized && buf.Length == BLOCKSIZE && count <= BLOCKSIZE && Fed(Regs(), nblocks, buf[..count], input, blocks)
    }

    /** md5_init */
    constructor ()
      ensures Running() && input == [] && fresh(buf)
    {
      A, B, C, D := 0x67452301, 0xefcdab89, 0x98badcfe, 0x10325476;
      nblocks, count, finalized := 0, 0, false;
      buf := new byte[BLOCKSIZE];
      input, blocks := [], 0;
      new;
      FedIs(Regs(), nblocks, buf[..count], input, blocks);
    }

    /** transform: one block into the registers. */
    method Transform(data: seq<byte>)
      requires |data| == BLOCKSIZE
      modifies this`A, this`B, this`C, this`D
      ensures Regs() == Compress(old(Regs()), WordsOf(data))
    {
      var r := Registers(A, B, C, D);
      var words := WordsOf(data);
      var a, b, c, d := Round1(A, B, C, D, r, words);
      a, b, c, d := Round2(a, b, c, d, r, words);
      a, b, c, d := Round3(a, b, c, d, r, words);
      a, b, c, d := Round4(a, b, c, d, r, words);
      CompressIs(r, words);
      r := Accumulate(r, Registers(a, b, c, d));
      A, B, C, D := r.a, r.b, r.c, r.d;
    }

    // md5_update without input: a full buffer is absorbed.
    method Flush()
      requires Running()
      modifies this`A, this`B, this`C, this`D, this`count, this`nblocks, this`blocks
      ensures Running() && count == if old(count) == BLOCKSIZE then 0 else old(count)
    {
      if count == BLOCKSIZE {
        assert buf[..] == buf[..count];
        FedBlock(Regs(), nblocks, buf[..], input, blocks);
        Transform(buf[..]);
        count := 0;
        nblocks := Add32(nblocks, 1);
        blocks := blocks + 1;
        assert buf[..count] == [];
      }
    }

    // hd->buf[hd->count++] = x
    method Put(x: byte)
      requires Running() && count < BLOCKSIZE
      modifies this`count, this`input, buf
      ensures Running() && count == old(count) + 1 && blocks == old(blocks) && input == old(input) + [x]
    {
      FedBytes(Regs(), nblocks, buf[..count], input, blocks, [x]);
      ghost var waiting := buf[..count];
      buf[count] := x;
      input := input + [x];
      count := count + 1;
      assert buf[..count] == waiting + [x];
    }

    // The byte-copying loop of md5_update, from byte i of the input on.
    method Fill(inbuf: seq<byte>, i: nat) returns (j: nat)
      requires Running() && i <= |inbuf|
      modifies this`count, this`input, buf
      ensures Running() && i <= j <= |inbuf| && input == old(input) + inbuf[i..j]
      ensures j == |inbuf| || count == BLOCKSIZE
      ensures count == old(count) + (j - i) && blocks == old(blocks)
    {
      j := i;
      while j < |inbuf| && count < BLOCKSIZE
        invariant Running() && i <= j <= |inbuf| && input == old(input) + inbuf[i..j]
        invariant count == old(count) + (j - i) && blocks == old(blocks)
        decreases |inbuf| - j
      {
        Put(inbuf[j]);
        j := j + 1;
      }
    }

    // A block straight from the input, with nothing waiting in the buffer.
    method TakeInput(block: seq<byte>)
      requires Running() && count == 0 && |block| == BLOCKSIZE
      modifies this`A, this`B, this`C, this`D, this`count, this`nblocks, this`blocks, this`input
      ensures Running() && count == 0 && input == old(input) + block
    {
      FedBytes(Regs(), nblocks, buf[..count], input, blocks, block);
      input := input + block;
      assert buf[..count] + block == block;
      FedBlock(Regs(), nblocks, block, input, blocks);
      Transform(block);
      count := 0;
      nblocks := Add32(nblocks, 1);
      blocks := blocks + 1;
      assert buf[..count] == [];
    }

    // The block loop of md5_update.
    method TakeBlocks(inbuf: seq<byte>, i: nat) returns (j: nat)
      requires Running() && count == 0 && i <= |inbuf|
      modifies this`A, this`B, this`C, this`D, this`count, this`nblocks, this`blocks, this`input
      ensures Running() && count == 0 && i <= j <= |inbuf| < j + BLOCKSIZE && input == old(input) + inbuf[i..j]
    {
      j := i;
      while |inbuf| - j >= BLOCKSIZE
        invariant Running() && count == 0 && i <= j <= |inbuf| && input == old(input) + inbuf[i..j]
        decreases |inbuf| - j
      {
        TakeInput(inbuf[j..j + BLOCKSIZE]);
        j := j + BLOCKSIZE;
      }
    }

    /** md5_update: however the message is cut up, what counts is all of it so far. */
    method Update(inbuf: seq<byte>)
      requires Running()
      modifies this, buf
      ensures Running() && input == old(input) + inbuf
    {
      Flush();
      var i := 0;
      if count != 0 {
        i := Fill(inbuf, 0);
        Flush();
        if i == |inbuf| {
          return;
        }
      }
      i := TakeBlocks(inbuf, i);
      i := Fill(inbuf, i);
    }

    // A pad byte and zeros up to 'limit'.
    method Pad(limit: nat)
      requires Running() && count < limit <= BLOCKSIZE
      modifies this`count, this`input, buf
      ensures Running() && count == limit && blocks == old(blocks)
      ensures input == old(input) + [0x80] + ZeroBytes(limit - old(count) - 1)
    {
      Put(0x80);
      assert input == old(input) + [0x80] + ZeroBytes(0);
      while count < limit
        invariant Running() && old(count) < count <= limit && blocks == old(blocks)
        invariant input == old(input) + [0x80] + ZeroBytes(count - old(count) - 1)
      {
        ZerosEnd(count - old(count) - 1);
        Put(0);
      }
    }

    // The length words go behind 56 bytes of the last block.
    method PutLength(lsb: uint32, msb: uint32)
      requires buf.Length == BLOCKSIZE
      modifies buf
      ensures buf[..] == old(buf[..56]) + (Encode(lsb) + Encode(msb))
    {
      var i := 0;
      while i < 4
        invariant 0 <= i <= 4 && buf[..56] == old(buf[..56])
        invariant forall k :: 0 <= k < i ==> buf[56 + k] == Encode(lsb)[k] && buf[60 + k] == Encode(msb)[k]
      {
        buf[56 + i] := Encode(lsb)[i];
        buf[60 + i] := Encode(msb)[i];
        i := i + 1;
      }
    }

    // The last block is absorbed.
    method Finish(lsb: uint32, msb: uint32)
      requires buf.Length == BLOCKSIZE && Fed(Regs(), nblocks, buf[..56], input, blocks)
      modifies this`A, this`B, this`C, this`D, this`blocks, buf
      ensures blocks == old(blocks) + 1 && |old(input)| + 8 == BLOCKSIZE * blocks
      ensures Regs() == After(old(input) + (Encode(lsb) + Encode(msb)), blocks)
    {
      ghost var length := Encode(lsb) + Encode(msb);
      FedBytes(Regs(), nblocks, buf[..56], input, blocks, length);
      PutLength(lsb, msb);
      FedBlock(Regs(), nblocks, buf[..], input + length, blocks);
      FedIs(Compress(Regs(), WordsOf(buf[..])), Add32(nblocks, 1), [], input + length, blocks + 1);
      Transform(buf[..]);
      blocks := blocks + 1;
    }

    // memset(buf, 0, n), and the same on a memory word at a time at the end.
    method SetBuf(bytes: seq<byte>)
      requires |bytes| <= buf.Length
      modifies buf
      ensures buf[..|bytes|] == bytes
    {
      var i := 0;
      while i < |bytes|
        invariant i <= |bytes| && buf[..i] == bytes[..i]
      {
        buf[i] := bytes[i];
        i := i + 1;
      }
    }

    // The padding of do_final, in both its branches: all but the length.
    method PadMessage(ghost length: seq<byte>)
      requires Running() && count < BLOCKSIZE && |length| == 8
      modifies this, buf
      ensures !finalized && buf.Length == BLOCKSIZE && Fed(Regs(), nblocks, buf[..56], input, blocks)
      ensures input + length == Padded(old(input), length)
    {
      FedIs(Regs(), nblocks, buf[..count], input, blocks);
      PaddedIs(input, blocks, count, length);
      if count < 56 {
        Pad(56);
      } else {
        Pad(64);
        Flush();
        FedBytes(Regs(), nblocks, buf[..count], input, blocks, ZeroBytes(56));
        assert buf[..count] + ZeroBytes(56) == ZeroBytes(56);
        SetBuf(ZeroBytes(56));
        input := input + ZeroBytes(56);
      }
    }

    // The message with its padding, all in the registers.
    method AbsorbPadded(lsb: uint32, msb: uint32)
      requires Running() && count < BLOCKSIZE
      modifies this, buf
      ensures !finalized && buf.Length == BLOCKSIZE
      ensures Regs() == Absorb(INITIAL, Padded(old(input), Encode(lsb) + Encode(msb)))
    {
      ghost var length := Encode(lsb) + Encode(msb);
      PadMessage(length);
      ghost var padded := input + length;
      Finish(lsb, msb);
      Split6(|padded|, blocks, 0);
      AfterIsAbsorb(INITIAL, padded, blocks);
    }

    /** do_final: the digest of the message with the length words as computed, in the first bytes of the buffer. */
    method DoFinal() returns (ghost msb: uint32)
      requires Running()
      modifies this, buf
      ensures finalized && input == old(input)
      ensures msb == 8 * |input| / TWO32 % TWO32 <==> LengthFits(|input|)
      ensures buf.Length == BLOCKSIZE
      ensures buf[..DIGESTSIZE] ==
              Output(Absorb(INITIAL, Padded(input, Encode(8 * |input| % TWO32) + Encode(msb))))
    {
      ghost var message := input;
      Flush();
      FedIs(Regs(), nblocks, buf[..count], message, blocks);
      var lsb, high := LengthWords(nblocks, count, |message|);
      msb := high;
      AbsorbPadded(lsb, high);
      SetBuf(Output(Registers(A, B, C, D)));
      finalized := true;
      input := message;
    }

    /** md5_final: the first call computes the digest, later ones repeat it. */
    method Final() returns (digest: seq<byte>)
      requires Running() || (finalized && buf.Length == BLOCKSIZE)
      modifies this, buf
      ensures finalized && buf.Length == BLOCKSIZE && digest == buf[..DIGESTSIZE] && input == old(input)
      ensures old(finalized) ==> digest == old(buf[..DIGESTSIZE])
      ensures !old(finalized) && LengthFits(|input|) ==> digest == Digest(input)
    {
      if !finalized {
        ghost var msb := DoFinal();
      }
      digest := buf[..DIGESTSIZE];
    }
  }

  function Joined(chunks: seq<seq<byte>>): seq<byte> {
    if chunks == [] then [] else Joined(chunks[..|chunks| - 1]) + chunks[|chunks| - 1]
  }

  /** A message fed in any pieces, as writefile feeds a file: the digest is that of the whole. */
  method DigestOf(chunks: seq<seq<byte>>) returns (digest: seq<byte>)
    ensures LengthFits(|Joined(chunks)|) ==> digest == Digest(Joined(chunks))
  {
    var md5 := new Context();
    var i := 0;
    while i < |chunks|
      invariant 0 <= i <= |chunks| && md5.Running() && fresh(md5) && fresh(md5.buf)
      invariant md5.input == Joined(chunks[..i])
    {
      assert chunks[..i + 1][..i] == chunks[..i];
      md5.Update(chunks[i]);
      i := i + 1;
    }
    assert chunks[..i] == chunks;
    digest := md5.Final();
  }
}
