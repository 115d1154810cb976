// Test vectors of section A.5 of RFC 1321, from the bytes of a message to the
// bytes of its digest. They fix the table of sines, the rotations, the order
// of the words, the initial registers and the order of bytes.
module Md5Answers {
  import opened Bits
  import opened Md5
  import opened Md5Spec
  import opened Words

  // ----- four steps on literal words: for each step the word of the block, the rotation, the entry of the table and
  // what register a becomes

  lemma QuadF(i: StepNumber, w: Sixteen, a: bv32, b: bv32, c: bv32, d: bv32,
              wa: bv32, sa: nat, ta: bv32, xa: bv32, wd: bv32, sd: nat, td: bv32, xd: bv32,
              wc: bv32, sc: nat, tc: bv32, xc: bv32, wb: bv32, sb: nat, tb: bv32, xb: bv32)
    requires i <= 12
    requires wa == w[K(i)] && wd == w[K(i + 1)] && wc == w[K(i + 2)] && wb == w[K(i + 3)]
    requires sa == S(i) && sd == S(i + 1) && sc == S(i + 2) && sb == S(i + 3)
    requires ta == T(i) && td == T(i + 1) && tc == T(i + 2) && tb == T(i + 3)
    requires TurnWord((b & c) | (!b & d), a, b, wa, sa, ta) == xa
    requires TurnWord((xa & b) | (!xa & c), d, xa, wd, sd, td) == xd
    requires TurnWord((xd & xa) | (!xd & b), c, xd, wc, sc, tc) == xc
    requires TurnWord((xc & xd) | (!xc & xa), b, xc, wb, sb, tb) == xb
    ensures Quad(i, Registers(a, b, c, d), w) == Registers(xa, xb, xc, xd)
  {
    FAfterIs(DEPTH, b, c, d);
    FAfterIs(DEPTH, xa, b, c);
    FAfterIs(DEPTH, xd, xa, b);
    FAfterIs(DEPTH, xc, xd, xa);
  }

  lemma QuadG(i: StepNumber, w: Sixteen, a: bv32, b: bv32, c: bv32, d: bv32,
              wa: bv32, sa: nat, ta: bv32, xa: bv32, wd: bv32, sd: nat, td: bv32, xd: bv32,
              wc: bv32, sc: nat, tc: bv32, xc: bv32, wb: bv32, sb: nat, tb: bv32, xb: bv32)
    requires 16 <= i <= 28
    requires wa == w[K(i)] && wd == w[K(i + 1)] && wc == w[K(i + 2)] && wb == w[K(i + 3)]
    requires sa == S(i) && sd == S(i + 1) && sc == S(i + 2) && sb == S(i + 3)
    requires ta == T(i) && td == T(i + 1) && tc == T(i + 2) && tb == T(i + 3)
    requires TurnWord((b & d) | (c & !d), a, b, wa, sa, ta) == xa
    requires TurnWord((xa & c) | (b & !c), d, xa, wd, sd, td) == xd
    requires TurnWord((xd & b) | (xa & !b), c, xd, wc, sc, tc) == xc
    requires TurnWord((xc & xa) | (xd & !xa), b, xc, wb, sb, tb) == xb
    ensures Quad(i, Registers(a, b, c, d), w) == Registers(xa, xb, xc, xd)
  {
    GAfterIs(DEPTH, b, c, d);
    GAfterIs(DEPTH, xa, b, c);
    GAfterIs(DEPTH, xd, xa, b);
    GAfterIs(DEPTH, xc, xd, xa);
  }

  lemma QuadH(i: StepNumber, w: Sixteen, a: bv32, b: bv32, c: bv32, d: bv32,
              wa: bv32, sa: nat, ta: bv32, xa: bv32, wd: bv32, sd: nat, td: bv32, xd: bv32,
              wc: bv32, sc: nat, tc: bv32, xc: bv32, wb: bv32, sb: nat, tb: bv32, xb: bv32)
    requires 32 <= i <= 44
    requires wa == w[K(i)] && wd == w[K(i + 1)] && wc == w[K(i + 2)] && wb == w[K(i + 3)]
    requires sa == S(i) && sd == S(i + 1) && sc == S(i + 2) && sb == S(i + 3)
    requires ta == T(i) && td == T(i + 1) && tc == T(i + 2) && tb == T(i + 3)
    requires TurnWord(b ^ c ^ d, a, b, wa, sa, ta) == xa
    requires TurnWord(xa ^ b ^ c, d, xa, wd, sd, td) == xd
    requires TurnWord(xd ^ xa ^ b, c, xd, wc, sc, tc) == xc
    requires TurnWord(xc ^ xd ^ xa, b, xc, wb, sb, tb) == xb
    ensures Quad(i, Registers(a, b, c, d), w) == Registers(xa, xb, xc, xd)
  {
    HAfterIs(DEPTH, b, c, d);
    HAfterIs(DEPTH, xa, b, c);
    HAfterIs(DEPTH, xd, xa, b);
    HAfterIs(DEPTH, xc, xd, xa);
  }

  lemma QuadI(i: StepNumber, w: Sixteen, a: bv32, b: bv32, c: bv32, d: bv32,
              wa: bv32, sa: nat, ta: bv32, xa: bv32, wd: bv32, sd: nat, td: bv32, xd: bv32,
              wc: bv32, sc: nat, tc: bv32, xc: bv32, wb: bv32, sb: nat, tb: bv32, xb: bv32)
    requires 48 <= i <= 60
    requires wa == w[K(i)] && wd == w[K(i + 1)] && wc == w[K(i + 2)] && wb == w[K(i + 3)]
    requires sa == S(i) && sd == S(i + 1) && sc == S(i + 2) && sb == S(i + 3)
    requires ta == T(i) && td == T(i + 1) && tc == T(i + 2) && tb == T(i + 3)
    requires TurnWord(c ^ (b | !d), a, b, wa, sa, ta) == xa
    requires TurnWord(b ^ (xa | !c), d, xa, wd, sd, td) == xd
    requires TurnWord(xa ^ (xd | !b), c, xd, wc, sc, tc) == xc
    requires TurnWord(xd ^ (xc | !xa), b, xc, wb, sb, tb) == xb
    ensures Quad(i, Registers(a, b, c, d), w) == Registers(xa, xb, xc, xd)
  {
    IAfterIs(DEPTH, b, c, d);
    IAfterIs(DEPTH, xa, b, c);
    IAfterIs(DEPTH, xd, xa, b);
    IAfterIs(DEPTH, xc, xd, xa);
  }

  function Eight(i: StepNumber, r: Registers, w: Sixteen): Registers
    requires i + 8 <= 64
  {
    Quad(i + 4, Quad(i, r, w), w)
  }

  lemma EightSteps(i: StepNumber, r: Registers, w: Sixteen)
    requires i + 8 <= 64
    ensures Steps(i + 8, r, w) == Eight(i, Steps(i, r, w), w)
  {
    Four(i, r, w);
    Four(i + 4, r, w);
  }

  function AllEights(r: Registers, w: Sixteen): Registers {
    Eight(56, Eight(48, Eight(40, Eight(32, Eight(24, Eight(16, Eight(8, Eight(0, r, w), w), w), w), w), w), w), w)
  }

  lemma Compressed(r: Registers, w: Sixteen)
    ensures Compress(r, w) == Accumulate(r, AllEights(r, w))
  {
    CompressIs(r, w);
    EightSteps(0, r, w);
    EightSteps(8, r, w);
    EightSteps(16, r, w);
    EightSteps(24, r, w);
    EightSteps(32, r, w);
    EightSteps(40, r, w);
    EightSteps(48, r, w);
    EightSteps(56, r, w);
  }

  // ----- from bytes to words and back

  lemma {:induction false} WordAt(bs: seq<byte>, k: nat)
    requires |bs| % 4 == 0 && 4 * k < |bs|
    ensures k < |WordsOf(bs)| && WordsOf(bs)[k] == Word(Decode(bs[4 * k..4 * k + 4]))
  {
    if k > 0 {
      WordAt(bs[4..], k - 1);
      assert bs[4..][4 * (k - 1)..4 * (k - 1) + 4] == bs[4 * k..4 * k + 4];
    }
  }

  /** Four bytes as a word, low-order byte first. */
  lemma WordIs(bs: seq<byte>, k: nat, n: uint32, b0: byte, b1: byte, b2: byte, b3: byte, x: bv32)
    requires |bs| % 4 == 0 && 4 * k < |bs| && Word(n) == x
    requires n == b0 + 256 * b1 + 65536 * b2 + 16777216 * b3
    requires bs[4 * k] == b0 && bs[4 * k + 1] == b1 && bs[4 * k + 2] == b2 && bs[4 * k + 3] == b3
    ensures k < |WordsOf(bs)| && WordsOf(bs)[k] == x
  {
    WordAt(bs, k);
    assert bs[4 * k..4 * k + 4] == [b0, b1, b2, b3];
  }

  lemma ZeroWordIs(bs: seq<byte>, k: nat)
    requires |bs| % 4 == 0 && 4 * k < |bs|
    requires forall i :: 4 * k <= i < 4 * k + 4 ==> bs[i] == 0
    ensures k < |WordsOf(bs)| && WordsOf(bs)[k] == 0
  {
    WordIs(bs, k, 0, 0, 0, 0, 0, 0);
  }

  lemma AbsorbBlock(r: Registers, bs: seq<byte>)
    requires |bs| == BLOCKSIZE
    ensures Absorb(r, bs) == Compress(r, WordsOf(bs))
  {
    AbsorbOne(r, [], bs);
    assert [] + bs == bs;
  }

  lemma ShortLength(n: nat)
    requires n < 0x2000
    ensures LengthBytes(8 * n) == [8 * n % 256, 8 * n / 256, 0, 0, 0, 0, 0, 0]
  {
  }

  /** The padding of a message of less than 64 bytes, byte by byte. */
  lemma PaddedBytes(message: seq<byte>, p: seq<byte>)
    requires |message| < 64 && p == Padded(message, LengthBytes(8 * |message|))
    ensures |p| == if |message| < 56 then 64 else 128
    ensures forall k :: 0 <= k < |message| ==> p[k] == message[k]
    ensures p[|message|] == 0x80
    ensures forall k :: |message| < k < |p| && k != |p| - 8 && k != |p| - 7 ==> p[k] == 0
    ensures p[|p| - 8] == 8 * |message| % 256 && p[|p| - 7] == 8 * |message| / 256
  {
    ShortLength(|message|);
    FillCount(|message|, |message|);
  }

  /** The block absorbed for a message of less than 56 bytes. */
  lemma OneBlock(message: seq<byte>) returns (bs: seq<byte>)
    requires |message| < 56
    ensures |bs| == BLOCKSIZE && bs == Padded(message, LengthBytes(8 * |message|))
    ensures Digest(message) == Output(Compress(INITIAL, WordsOf(bs)))
  {
    bs := Padded(message, LengthBytes(8 * |message|));
    PaddedBytes(message, bs);
    AbsorbBlock(INITIAL, bs);
  }

  /** The two blocks absorbed for a message of 56 to 63 bytes. */
  lemma TwoBlocks(message: seq<byte>) returns (p: seq<byte>)
    requires 56 <= |message| < 64
    ensures |p| == 2 * BLOCKSIZE && p == Padded(message, LengthBytes(8 * |message|))
    ensures Digest(message) ==
            Output(Compress(Compress(INITIAL, WordsOf(p[..BLOCKSIZE])), WordsOf(p[BLOCKSIZE..])))
  {
    p := Padded(message, LengthBytes(8 * |message|));
    PaddedBytes(message, p);
    AbsorbBlock(INITIAL, p[..BLOCKSIZE]);
    AbsorbOne(INITIAL, p[..BLOCKSIZE], p[BLOCKSIZE..]);
    assert p[..BLOCKSIZE] + p[BLOCKSIZE..] == p;
  }

  lemma RegisterIs(x: bv32, n: uint32, b0: byte, b1: byte, b2: byte, b3: byte)
    requires Value(x) == n && n == b0 + 256 * b1 + 65536 * b2 + 16777216 * b3
    ensures Encode(Value(x)) == [b0, b1, b2, b3]
  {
    EncodeDecode([b0, b1, b2, b3]);
  }

  ghost predicate Empty(w: Sixteen) {
    && w[0] == 0x00000080 && w[1] == 0x00000000 && w[2] == 0x00000000 && w[3] == 0x00000000
    && w[4] == 0x00000000 && w[5] == 0x00000000 && w[6] == 0x00000000 && w[7] == 0x00000000
    && w[8] == 0x00000000 && w[9] == 0x00000000 && w[10] == 0x00000000 && w[11] == 0x00000000
    && w[12] == 0x00000000 && w[13] == 0x00000000 && w[14] == 0x00000000 && w[15] == 0x00000000
  }

  lemma Empty0(w: Sixteen)
    requires Empty(w)
    ensures Eight(0, Registers(0x67452301, 0xefcdab89, 0x98badcfe, 0x10325476), w) ==
            Registers(0x32033344, 0x9bc13ce9, 0xf5b158db, 0x2f35d494)
  {
    QuadF(0, w, 0x67452301, 0xefcdab89, 0x98badcfe, 0x10325476,
          0x00000080, 7, 0xd76aa478, 0xa5202774, 0x00000000, 12, 0xe8c7b756, 0xf59592dd,
          0x00000000, 17, 0x242070db, 0xe7f06b23, 0x00000000, 22, 0xc1bdceee, 0x1b163203);
    QuadF(4, w, 0xa5202774, 0x1b163203, 0xe7f06b23, 0xf59592dd,
          0x00000000, 7, 0xf57c0faf, 0x32033344, 0x00000000, 12, 0x4787c62a, 0x2f35d494,
          0x00000000, 17, 0xa8304613, 0xf5b158db, 0x00000000, 22, 0xfd469501, 0x9bc13ce9);
  }

  lemma Empty8(w: Sixteen)
    requires Empty(w)
    ensures Eight(8, Registers(0x32033344, 0x9bc13ce9, 0xf5b158db, 0x2f35d494), w) ==
            Registers(0xf56c7cf1, 0xd6819c6a, 0x5aa53f75, 0x374943a7)
  {
    QuadF(8, w, 0x32033344, 0x9bc13ce9, 0xf5b158db, 0x2f35d494,
          0x00000000, 7, 0x698098d8, 0x3893b991, 0x00000000, 12, 0x8b44f7af, 0xfce4a312,
          0x00000000, 17, 0xffff5bb1, 0xe1ef0576, 0x00000000, 22, 0x895cd7be, 0x70768a29);
    QuadF(12, w, 0x3893b991, 0x70768a29, 0xe1ef0576, 0xfce4a312,
          0x00000000, 7, 0x6b901122, 0xf56c7cf1, 0x00000000, 12, 0xfd987193, 0x374943a7,
          0x00000000, 17, 0xa679438e, 0x5aa53f75, 0x00000000, 22, 0x49b40821, 0xd6819c6a);
  }

  lemma Empty16(w: Sixteen)
    requires Empty(w)
    ensures Eight(16, Registers(0xf56c7cf1, 0xd6819c6a, 0x5aa53f75, 0x374943a7), w) ==
            Registers(0x3d1e3e6c, 0xe422531a, 0xeb41643e, 0x68b7b3e3)
  {
    QuadG(16, w, 0xf56c7cf1, 0xd6819c6a, 0x5aa53f75, 0x374943a7,
          0x00000000, 5, 0xf61e2562, 0x1c7d7513, 0x00000000, 9, 0xc040b340, 0x7bd57a3a,
          0x00000000, 14, 0x265e5a51, 0xc095f13a, 0x00000080, 20, 0xe9b6c7aa, 0xbd782e17);
    QuadG(20, w, 0x1c7d7513, 0xbd782e17, 0xc095f13a, 0x7bd57a3a,
          0x00000000, 5, 0xd62f105d, 0x3d1e3e6c, 0x00000000, 9, 0x02441453, 0x68b7b3e3,
          0x00000000, 14, 0xd8a1e681, 0xeb41643e, 0x00000000, 20, 0xe7d3fbc8, 0xe422531a);
  }

  lemma Empty24(w: Sixteen)
    requires Empty(w)
    ensures Eight(24, Registers(0x3d1e3e6c, 0xe422531a, 0xeb41643e, 0x68b7b3e3), w) ==
            Registers(0x13707036, 0xa2205f1f, 0x1c31c384, 0xae7813db)
  {
    QuadG(24, w, 0x3d1e3e6c, 0xe422531a, 0xeb41643e, 0x68b7b3e3,
          0x00000000, 5, 0x21e1cde6, 0x306ec122, 0x00000000, 9, 0xc33707d6, 0xd28c77c2,
          0x00000000, 14, 0xf4d50d87, 0xa3c663da, 0x00000000, 20, 0x455a14ed, 0xa0572807);
    QuadG(28, w, 0x306ec122, 0xa0572807, 0xa3c663da, 0xd28c77c2,
          0x00000000, 5, 0xa9e3e905, 0x13707036, 0x00000000, 9, 0xfcefa3f8, 0xae7813db,
          0x00000000, 14, 0x676f02d9, 0x1c31c384, 0x00000000, 20, 0x8d2a4c8a, 0xa2205f1f);
  }

  lemma Empty32(w: Sixteen)
    requires Empty(w)
    ensures Eight(32, Registers(0x13707036, 0xa2205f1f, 0x1c31c384, 0xae7813db), w) ==
            Registers(0x5f7a9b2e, 0xc5dc8c15, 0x91ca4cb7, 0xabc34e16)
  {
    QuadH(32, w, 0x13707036, 0xa2205f1f, 0x1c31c384, 0xae7813db,
          0x00000000, 4, 0xfffa3942, 0xdf63eaa1, 0x00000000, 11, 0x8771f681, 0xc3689f5b,
          0x00000000, 16, 0x6d9d6122, 0x12f3e755, 0x00000000, 23, 0xfde5380c, 0x004b6669);
    QuadH(36, w, 0xdf63eaa1, 0x004b6669, 0x12f3e755, 0xc3689f5b,
          0x00000000, 4, 0xa4beea44, 0x5f7a9b2e, 0x00000000, 11, 0x4bdecfa9, 0xabc34e16,
          0x00000000, 16, 0xf6bb4b60, 0x91ca4cb7, 0x00000000, 23, 0xbebfbc70, 0xc5dc8c15);
  }

  lemma Empty40(w: Sixteen)
    requires Empty(w)
    ensures Eight(40, Registers(0x5f7a9b2e, 0xc5dc8c15, 0x91ca4cb7, 0xabc34e16), w) ==
            Registers(0x3f55edfd, 0xca7d2dbd, 0x68d84ea2, 0x22a31f54)
  {
    QuadH(40, w, 0x5f7a9b2e, 0xc5dc8c15, 0x91ca4cb7, 0xabc34e16,
          0x00000000, 4, 0x289b7ec6, 0x4497169d, 0x00000080, 11, 0xeaa127fa, 0x76fd93d4,
          0x00000000, 16, 0xd4ef3085, 0xfd95f243, 0x00000000, 23, 0x04881d05, 0x0fe32453);
    QuadH(44, w, 0x4497169d, 0x0fe32453, 0xfd95f243, 0x76fd93d4,
          0x00000000, 4, 0xd9d4d039, 0x3f55edfd, 0x00000000, 11, 0xe6db99e5, 0x22a31f54,
          0x00000000, 16, 0x1fa27cf8, 0x68d84ea2, 0x00000000, 23, 0xc4ac5665, 0xca7d2dbd);
  }

  lemma Empty48(w: Sixteen)
    requires Empty(w)
    ensures Eight(48, Registers(0x3f55edfd, 0xca7d2dbd, 0x68d84ea2, 0x22a31f54), w) ==
            Registers(0x5625a114, 0x1e77fa61, 0x392ad0d0, 0x3450f42b)
  {
    QuadI(48, w, 0x3f55edfd, 0xca7d2dbd, 0x68d84ea2, 0x22a31f54,
          0x00000080, 6, 0xf4292244, 0x93aa2577, 0x00000000, 10, 0x432aff97, 0x1688dc85,
          0x00000000, 15, 0xab9423a7, 0xcd85b8cb, 0x00000000, 21, 0xfc93a039, 0x561e0689);
    QuadI(52, w, 0x93aa2577, 0x561e0689, 0xcd85b8cb, 0x1688dc85,
          0x00000000, 6, 0x655b59c3, 0x5625a114, 0x00000000, 10, 0x8f0ccc92, 0x3450f42b,
          0x00000000, 15, 0xffeff47d, 0x392ad0d0, 0x00000000, 21, 0x85845dd1, 0x1e77fa61);
  }

  lemma Empty56(w: Sixteen)
    requires Empty(w)
    ensures Eight(56, Registers(0x5625a114, 0x1e77fa61, 0x392ad0d0, 0x3450f42b), w) ==
            Registers(0x7246fad3, 0x14e45506, 0xff4ea3eb, 0x6e10a476)
  {
    QuadI(56, w, 0x5625a114, 0x1e77fa61, 0x392ad0d0, 0x3450f42b,
          0x00000000, 6, 0x6fa87e4f, 0x474a9c8c, 0x00000000, 10, 0xfe2ce6e0, 0xdfce00bc,
          0x00000000, 15, 0xa3014314, 0x36594b14, 0x00000000, 21, 0x4e0811a1, 0x30130182);
    QuadI(60, w, 0x474a9c8c, 0x30130182, 0x36594b14, 0xdfce00bc,
          0x00000000, 6, 0xf7537e82, 0x7246fad3, 0x00000000, 10, 0xbd3af235, 0x6e10a476,
          0x00000000, 15, 0x2ad7d2bb, 0xff4ea3eb, 0x00000000, 21, 0xeb86d391, 0x14e45506);
  }

  lemma EmptyCompressed(w: Sixteen)
    requires Empty(w)
    ensures Compress(INITIAL, w) ==
            Registers(0xd98c1dd4, 0x04b2008f, 0x980980e9, 0x7e42f8ec)
  {
    Empty0(w);
    Empty8(w);
    Empty16(w);
    Empty24(w);
    Empty32(w);
    Empty40(w);
    Empty48(w);
    Empty56(w);
    Compressed(INITIAL, w);
  }

  lemma EmptyWords(bs: seq<byte>)
    requires |bs| == BLOCKSIZE
    requires bs[0] == 0x80
    requires forall k :: 1 <= k < 64 ==> bs[k] == 0
    ensures Empty(WordsOf(bs))
  {
    WordIs(bs, 0, 0x00000080, 0x80, 0x00, 0x00, 0x00, 0x00000080);
    forall k: nat | 1 <= k < 16 ensures k < |WordsOf(bs)| && WordsOf(bs)[k] == 0 {
      ZeroWordIs(bs, k);
    }
  }

  lemma EmptyOutput(r: Registers)
    requires r == Registers(0xd98c1dd4, 0x04b2008f, 0x980980e9, 0x7e42f8ec)
    ensures Output(r) ==
            [0xd4, 0x1d, 0x8c, 0xd9, 0x8f, 0x00, 0xb2, 0x04, 0xe9, 0x80, 0x09, 0x98, 0xec, 0xf8, 0x42, 0x7e]
  {
    RegisterIs(r.a, 0xd98c1dd4, 0xd4, 0x1d, 0x8c, 0xd9);
    RegisterIs(r.b, 0x04b2008f, 0x8f, 0x00, 0xb2, 0x04);
    RegisterIs(r.c, 0x980980e9, 0xe9, 0x80, 0x09, 0x98);
    RegisterIs(r.d, 0x7e42f8ec, 0xec, 0xf8, 0x42, 0x7e);
  }

  /** MD5 ("") = d41d8cd98f00b204e9800998ecf8427e */
  lemma DigestOfEmpty(message: seq<byte>)
    requires |message| == 0
    ensures Digest(message) ==
            [0xd4, 0x1d, 0x8c, 0xd9, 0x8f, 0x00, 0xb2, 0x04, 0xe9, 0x80, 0x09, 0x98, 0xec, 0xf8, 0x42, 0x7e]
  {
    var bs := OneBlock(message);
    PaddedBytes(message, bs);
    EmptyWords(bs);
    EmptyCompressed(WordsOf(bs));
    EmptyOutput(Compress(INITIAL, WordsOf(bs)));
  }

  ghost predicate Abc(w: Sixteen) {
    && w[0] == 0x80636261 && w[1] == 0x00000000 && w[2] == 0x00000000 && w[3] == 0x00000000
    && w[4] == 0x00000000 && w[5] == 0x00000000 && w[6] == 0x00000000 && w[7] == 0x00000000
    && w[8] == 0x00000000 && w[9] == 0x00000000 && w[10] == 0x00000000 && w[11] == 0x00000000
    && w[12] == 0x00000000 && w[13] == 0x00000000 && w[14] == 0x00000018 && w[15] == 0x00000000
  }

  lemma Abc0(w: Sixteen)
    requires Abc(w)
    ensures Eight(0, Registers(0x67452301, 0xefcdab89, 0x98badcfe, 0x10325476), w) ==
            Registers(0xc73741ef, 0x928d99f6, 0x207dc67b, 0x8bac3051)
  {
    QuadF(0, w, 0x67452301, 0xefcdab89, 0x98badcfe, 0x10325476,
          0x80636261, 7, 0xd76aa478, 0xd6d117b4, 0x00000000, 12, 0xe8c7b756, 0x344a8432,
          0x00000000, 17, 0x242070db, 0x2f6fbd72, 0x00000000, 22, 0xc1bdceee, 0x7ad956f2);
    QuadF(4, w, 0xd6d117b4, 0x7ad956f2, 0x2f6fbd72, 0x344a8432,
          0x00000000, 7, 0xf57c0faf, 0xc73741ef, 0x00000000, 12, 0x4787c62a, 0x8bac3051,
          0x00000000, 17, 0xa8304613, 0x207dc67b, 0x00000000, 22, 0xfd469501, 0x928d99f6);
  }

  lemma Abc8(w: Sixteen)
    requires Abc(w)
    ensures Eight(8, Registers(0xc73741ef, 0x928d99f6, 0x207dc67b, 0x8bac3051), w) ==
            Registers(0xdda9b9a6, 0x72aff2e0, 0xe396856b, 0xa1051895)
  {
    QuadF(8, w, 0xc73741ef, 0x928d99f6, 0x207dc67b, 0x8bac3051,
          0x00000000, 7, 0x698098d8, 0x854b3712, 0x00000000, 12, 0x8b44f7af, 0x74e2f284,
          0x00000000, 17, 0xffff5bb1, 0x3020401c, 0x00000000, 22, 0x895cd7be, 0x5ed49596);
    QuadF(12, w, 0x854b3712, 0x5ed49596, 0x3020401c, 0x74e2f284,
          0x00000000, 7, 0x6b901122, 0xdda9b9a6, 0x00000000, 12, 0xfd987193, 0xa1051895,
          0x00000018, 17, 0xa679438e, 0xe396856b, 0x00000000, 22, 0x49b40821, 0x72aff2e0);
  }

  lemma Abc16(w: Sixteen)
    requires Abc(w)
    ensures Eight(16, Registers(0xdda9b9a6, 0x72aff2e0, 0xe396856b, 0xa1051895), w) ==
            Registers(0x59a8ffda, 0x47092c07, 0xabfc7920, 0x6d002f1e)
  {
    QuadG(16, w, 0xdda9b9a6, 0x72aff2e0, 0xe396856b, 0xa1051895,
          0x00000000, 5, 0xf61e2562, 0x3e9e9126, 0x00000000, 9, 0xc040b340, 0x4a1d804e,
          0x00000000, 14, 0x265e5a51, 0xe25e1652, 0x80636261, 20, 0xe9b6c7aa, 0xb5b204e4);
    QuadG(20, w, 0x3e9e9126, 0xb5b204e4, 0xe25e1652, 0x4a1d804e,
          0x00000000, 5, 0xd62f105d, 0x59a8ffda, 0x00000000, 9, 0x02441453, 0x6d002f1e,
          0x00000000, 14, 0xd8a1e681, 0xabfc7920, 0x00000000, 20, 0xe7d3fbc8, 0x47092c07);
  }

  lemma Abc24(w: Sixteen)
    requires Abc(w)
    ensures Eight(24, Registers(0x59a8ffda, 0x47092c07, 0xabfc7920, 0x6d002f1e), w) ==
            Registers(0x790a77fb, 0x726342d3, 0xa62884aa, 0x9f47e4f8)
  {
    QuadG(24, w, 0x59a8ffda, 0x47092c07, 0xabfc7920, 0x6d002f1e,
          0x00000000, 5, 0x21e1cde6, 0xb7f268cf, 0x00000018, 9, 0xc33707d6, 0x09388eff,
          0x00000000, 14, 0xf4d50d87, 0xfe1623b1, 0x00000000, 20, 0x455a14ed, 0x786acb8f);
    QuadG(28, w, 0xb7f268cf, 0x786acb8f, 0xfe1623b1, 0x09388eff,
          0x00000000, 5, 0xa9e3e905, 0x790a77fb, 0x00000000, 9, 0xfcefa3f8, 0x9f47e4f8,
          0x00000000, 14, 0x676f02d9, 0xa62884aa, 0x00000000, 20, 0x8d2a4c8a, 0x726342d3);
  }

  lemma Abc32(w: Sixteen)
    requires Abc(w)
    ensures Eight(32, Registers(0x790a77fb, 0x726342d3, 0xa62884aa, 0x9f47e4f8), w) ==
            Registers(0x21b117b9, 0x5a2f5ea5, 0x3575227e, 0x6e7429d5)
  {
    QuadH(32, w, 0x790a77fb, 0x726342d3, 0xa62884aa, 0x9f47e4f8,
          0x00000000, 4, 0xfffa3942, 0xb3707ebf, 0x00000000, 11, 0x8771f681, 0x60127b2e,
          0x00000000, 16, 0x6d9d6122, 0x8d212ff5, 0x00000018, 23, 0xfde5380c, 0x3b0875c7);
    QuadH(36, w, 0xb3707ebf, 0x3b0875c7, 0x8d212ff5, 0x60127b2e,
          0x00000000, 4, 0xa4beea44, 0x21b117b9, 0x00000000, 11, 0x4bdecfa9, 0x6e7429d5,
          0x00000000, 16, 0xf6bb4b60, 0x3575227e, 0x00000000, 23, 0xbebfbc70, 0x5a2f5ea5);
  }

  lemma Abc40(w: Sixteen)
    requires Abc(w)
    ensures Eight(40, Registers(0x21b117b9, 0x5a2f5ea5, 0x3575227e, 0x6e7429d5), w) ==
            Registers(0x7f2e507b, 0x7beb9700, 0x8fae6399, 0x99d9679d)
  {
    QuadH(40, w, 0x21b117b9, 0x5a2f5ea5, 0x3575227e, 0x6e7429d5,
          0x00000000, 4, 0x289b7ec6, 0x11de1779, 0x80636261, 11, 0xeaa127fa, 0xfadcaa38,
          0x00000000, 16, 0xd4ef3085, 0x31c465ca, 0x00000000, 23, 0x04881d05, 0x4c6124f4);
    QuadH(44, w, 0x11de1779, 0x4c6124f4, 0x31c465ca, 0xfadcaa38,
          0x00000000, 4, 0xd9d4d039, 0x7f2e507b, 0x00000000, 11, 0xe6db99e5, 0x99d9679d,
          0x00000000, 16, 0x1fa27cf8, 0x8fae6399, 0x00000000, 23, 0xc4ac5665, 0x7beb9700);
  }

  lemma Abc48(w: Sixteen)
    requires Abc(w)
    ensures Eight(48, Registers(0x7f2e507b, 0x7beb9700, 0x8fae6399, 0x99d9679d), w) ==
            Registers(0x06cc5e8a, 0x3bfa2c27, 0x7d632dd0, 0x5b0d97aa)
  {
    QuadI(48, w, 0x7f2e507b, 0x7beb9700, 0x8fae6399, 0x99d9679d,
          0x80636261, 6, 0xf4292244, 0x7b201df8, 0x00000000, 10, 0x432aff97, 0xf4e8e96e,
          0x00000018, 15, 0xab9423a7, 0xb298cefd, 0x00000000, 21, 0xfc93a039, 0x8bf025c4);
    QuadI(52, w, 0x7b201df8, 0x8bf025c4, 0xb298cefd, 0xf4e8e96e,
          0x00000000, 6, 0x655b59c3, 0x06cc5e8a, 0x00000000, 10, 0x8f0ccc92, 0x5b0d97aa,
          0x00000000, 15, 0xffeff47d, 0x7d632dd0, 0x00000000, 21, 0x85845dd1, 0x3bfa2c27);
  }

  lemma Abc56(w: Sixteen)
    requires Abc(w)
    ensures Eight(56, Registers(0x06cc5e8a, 0x3bfa2c27, 0x7d632dd0, 0x5b0d97aa), w) ==
            Registers(0x310ade8f, 0xc08226b3, 0xe484b9d8, 0x624d8cb2)
  {
    QuadI(56, w, 0x06cc5e8a, 0x3bfa2c27, 0x7d632dd0, 0x5b0d97aa,
          0x00000000, 6, 0x6fa87e4f, 0x7f81cc35, 0x00000000, 10, 0xfe2ce6e0, 0x094454ab,
          0x00000000, 15, 0xa3014314, 0x4f9dbe3f, 0x00000000, 21, 0x4e0811a1, 0x7327d604);
    QuadI(60, w, 0x7f81cc35, 0x7327d604, 0x4f9dbe3f, 0x094454ab,
          0x00000000, 6, 0xf7537e82, 0x310ade8f, 0x00000000, 10, 0xbd3af235, 0x624d8cb2,
          0x00000000, 15, 0x2ad7d2bb, 0xe484b9d8, 0x00000000, 21, 0xeb86d391, 0xc08226b3);
  }

  lemma AbcCompressed(w: Sixteen)
    requires Abc(w)
    ensures Compress(INITIAL, w) ==
            Registers(0x98500190, 0xb04fd23c, 0x7d3f96d6, 0x727fe128)
  {
    Abc0(w);
    Abc8(w);
    Abc16(w);
    Abc24(w);
    Abc32(w);
    Abc40(w);
    Abc48(w);
    Abc56(w);
    Compressed(INITIAL, w);
  }

  lemma AbcWords(bs: seq<byte>)
    requires |bs| == BLOCKSIZE
    requires bs[0] == 0x61 && bs[1] == 0x62 && bs[2] == 0x63 && bs[3] == 0x80 && bs[56] == 0x18
    requires forall k :: 4 <= k < 64 && k != 56 ==> bs[k] == 0
    ensures Abc(WordsOf(bs))
  {
    WordIs(bs, 0, 0x80636261, 0x61, 0x62, 0x63, 0x80, 0x80636261);
    WordIs(bs, 14, 0x00000018, 0x18, 0x00, 0x00, 0x00, 0x00000018);
    forall k: nat | 1 <= k < 16 && k != 14 ensures k < |WordsOf(bs)| && WordsOf(bs)[k] == 0 {
      ZeroWordIs(bs, k);
    }
  }

  lemma AbcOutput(r: Registers)
    requires r == Registers(0x98500190, 0xb04fd23c, 0x7d3f96d6, 0x727fe128)
    ensures Output(r) ==
            [0x90, 0x01, 0x50, 0x98, 0x3c, 0xd2, 0x4f, 0xb0, 0xd6, 0x96, 0x3f, 0x7d, 0x28, 0xe1, 0x7f, 0x72]
  {
    RegisterIs(r.a, 0x98500190, 0x90, 0x01, 0x50, 0x98);
    RegisterIs(r.b, 0xb04fd23c, 0x3c, 0xd2, 0x4f, 0xb0);
    RegisterIs(r.c, 0x7d3f96d6, 0xd6, 0x96, 0x3f, 0x7d);
    RegisterIs(r.d, 0x727fe128, 0x28, 0xe1, 0x7f, 0x72);
  }

  /** MD5 ("abc") = 900150983cd24fb0d6963f7d28e17f72 */
  lemma DigestOfAbc(message: seq<byte>)
    requires |message| == 3 && message[0] == 0x61 && message[1] == 0x62 && message[2] == 0x63
    ensures Digest(message) ==
            [0x90, 0x01, 0x50, 0x98, 0x3c, 0xd2, 0x4f, 0xb0, 0xd6, 0x96, 0x3f, 0x7d, 0x28, 0xe1, 0x7f, 0x72]
  {
    var bs := OneBlock(message);
    PaddedBytes(message, bs);
    AbcWords(bs);
    AbcCompressed(WordsOf(bs));
    AbcOutput(Compress(INITIAL, WordsOf(bs)));
  }

  ghost predicate Letters(w: Sixteen) {
    && w[0] == 0x44434241 && w[1] == 0x48474645 && w[2] == 0x4c4b4a49 && w[3] == 0x504f4e4d
    && w[4] == 0x54535251 && w[5] == 0x58575655 && w[6] == 0x62615a59 && w[7] == 0x66656463
    && w[8] == 0x6a696867 && w[9] == 0x6e6d6c6b && w[10] == 0x7271706f && w[11] == 0x76757473
    && w[12] == 0x7a797877 && w[13] == 0x33323130 && w[14] == 0x37363534 && w[15] == 0x00803938
  }

  lemma Letters0(w: Sixteen)
    requires Letters(w)
    ensures Eight(0, Registers(0x67452301, 0xefcdab89, 0x98badcfe, 0x10325476), w) ==
            Registers(0xf22e6c4e, 0xa4799506, 0xa95a2fc0, 0xb4ac9218)
  {
    QuadF(0, w, 0x67452301, 0xefcdab89, 0x98badcfe, 0x10325476,
          0x44434241, 7, 0xd76aa478, 0xc6c10796, 0x48474645, 12, 0xe8c7b756, 0x99a09999,
          0x4c4b4a49, 17, 0x242070db, 0x11067980, 0x504f4e4d, 22, 0xc1bdceee, 0x27bce07a);
    QuadF(4, w, 0xc6c10796, 0x27bce07a, 0x11067980, 0x99a09999,
          0x54535251, 7, 0xf57c0faf, 0xf22e6c4e, 0x58575655, 12, 0x4787c62a, 0xb4ac9218,
          0x62615a59, 17, 0xa8304613, 0xa95a2fc0, 0x66656463, 22, 0xfd469501, 0xa4799506);
  }

  lemma Letters8(w: Sixteen)
    requires Letters(w)
    ensures Eight(8, Registers(0xf22e6c4e, 0xa4799506, 0xa95a2fc0, 0xb4ac9218), w) ==
            Registers(0x3cbdcd45, 0x5d38e690, 0xfa148c8a, 0xb8dec763)
  {
    QuadF(8, w, 0xf22e6c4e, 0xa4799506, 0xa95a2fc0, 0xb4ac9218,
          0x6a696867, 7, 0x698098d8, 0x1eb3e7c1, 0x6e6d6c6b, 12, 0x8b44f7af, 0xa6e70cfe,
          0x7271706f, 17, 0xffff5bb1, 0xca27520b, 0x76757473, 22, 0x895cd7be, 0x8a7612ec);
    QuadF(12, w, 0x1eb3e7c1, 0x8a7612ec, 0xca27520b, 0xa6e70cfe,
          0x7a797877, 7, 0x6b901122, 0x3cbdcd45, 0x33323130, 12, 0xfd987193, 0xb8dec763,
          0x37363534, 17, 0xa679438e, 0xfa148c8a, 0x00803938, 22, 0x49b40821, 0x5d38e690);
  }

  lemma Letters16(w: Sixteen)
    requires Letters(w)
    ensures Eight(16, Registers(0x3cbdcd45, 0x5d38e690, 0xfa148c8a, 0xb8dec763), w) ==
            Registers(0x2d7d8a3f, 0x75292030, 0x4b534dc3, 0xd1210823)
  {
    QuadG(16, w, 0x3cbdcd45, 0x5d38e690, 0xfa148c8a, 0xb8dec763,
          0x48474645, 5, 0xf61e2562, 0x04b9d52a, 0x62615a59, 9, 0xc040b340, 0x783002eb,
          0x76757473, 14, 0x265e5a51, 0xd3ee3ed1, 0x44434241, 20, 0xe9b6c7aa, 0x47ae7c81);
    QuadG(20, w, 0x04b9d52a, 0x47ae7c81, 0xd3ee3ed1, 0x783002eb,
          0x58575655, 5, 0xd62f105d, 0x2d7d8a3f, 0x7271706f, 9, 0x02441453, 0xd1210823,
          0x00803938, 14, 0xd8a1e681, 0x4b534dc3, 0x54535251, 20, 0xe7d3fbc8, 0x75292030);
  }

  lemma Letters24(w: Sixteen)
    requires Letters(w)
    ensures Eight(24, Registers(0x2d7d8a3f, 0x75292030, 0x4b534dc3, 0xd1210823), w) ==
            Registers(0x9b085fa9, 0xdd789ecc, 0x5993248f, 0x4400a9bd)
  {
    QuadG(24, w, 0x2d7d8a3f, 0x75292030, 0x4b534dc3, 0xd1210823,
          0x6e6d6c6b, 5, 0x21e1cde6, 0x9d2a6e33, 0x37363534, 9, 0xc33707d6, 0x0e8d2e44,
          0x504f4e4d, 14, 0xf4d50d87, 0xd473b564, 0x6a696867, 20, 0x455a14ed, 0xf2ff6ea0);
    QuadG(28, w, 0x9d2a6e33, 0xf2ff6ea0, 0xd473b564, 0x0e8d2e44,
          0x33323130, 5, 0xa9e3e905, 0x9b085fa9, 0x4c4b4a49, 9, 0xfcefa3f8, 0x4400a9bd,
          0x66656463, 14, 0x676f02d9, 0x5993248f, 0x7a797877, 20, 0x8d2a4c8a, 0xdd789ecc);
  }

  lemma Letters32(w: Sixteen)
    requires Letters(w)
    ensures Eight(32, Registers(0x9b085fa9, 0xdd789ecc, 0x5993248f, 0x4400a9bd), w) ==
            Registers(0x436b7fe9, 0xcf0341ed, 0xf404c2f6, 0x075800c1)
  {
    QuadH(32, w, 0x9b085fa9, 0xdd789ecc, 0x5993248f, 0x4400a9bd,
          0x58575655, 4, 0xfffa3942, 0x21c8d2b7, 0x6a696867, 11, 0x8771f681, 0x1d55a18e,
          0x76757473, 16, 0x6d9d6122, 0x056ec119, 0x37363534, 23, 0xfde5380c, 0x1b9504f8);
    QuadH(36, w, 0x21c8d2b7, 0x1b9504f8, 0x056ec119, 0x1d55a18e,
          0x48474645, 4, 0xa4beea44, 0x436b7fe9, 0x54535251, 11, 0x4bdecfa9, 0x075800c1,
          0x66656463, 16, 0xf6bb4b60, 0xf404c2f6, 0x7271706f, 23, 0xbebfbc70, 0xcf0341ed);
  }

  lemma LettersQuad40(w: Sixteen)
    requires Letters(w)
    ensures Quad(40, Registers(0x436b7fe9, 0xcf0341ed, 0xf404c2f6, 0x075800c1), w) ==
            Registers(0x888e7d8a, 0x047b9419, 0xce620273, 0xbbdaecd8)
  {
    QuadH(40, w, 0x436b7fe9, 0xcf0341ed, 0xf404c2f6, 0x075800c1,
          0x33323130, 4, 0x289b7ec6, 0x888e7d8a, 0x44434241, 11, 0xeaa127fa, 0xbbdaecd8,
          0x504f4e4d, 16, 0xd4ef3085, 0xce620273, 0x62615a59, 23, 0x04881d05, 0x047b9419);
  }

  lemma LettersQuad44(w: Sixteen)
    requires Letters(w)
    ensures Quad(44, Registers(0x888e7d8a, 0x047b9419, 0xce620273, 0xbbdaecd8), w) ==
            Registers(0x2dbee21d, 0xf166f514, 0xee46e961, 0xe95c3a43)
  {
    QuadH(44, w, 0x888e7d8a, 0x047b9419, 0xce620273, 0xbbdaecd8,
          0x6e6d6c6b, 4, 0xd9d4d039, 0x2dbee21d, 0x7a797877, 11, 0xe6db99e5, 0xe95c3a43,
          0x00803938, 16, 0x1fa27cf8, 0xee46e961, 0x4c4b4a49, 23, 0xc4ac5665, 0xf166f514);
  }

  lemma Letters40(w: Sixteen)
    requires Letters(w)
    ensures Eight(40, Registers(0x436b7fe9, 0xcf0341ed, 0xf404c2f6, 0x075800c1), w) ==
            Registers(0x2dbee21d, 0xf166f514, 0xee46e961, 0xe95c3a43)
  {
    LettersQuad40(w);
    LettersQuad44(w);
  }

  lemma Letters48(w: Sixteen)
    requires Letters(w)
    ensures Eight(48, Registers(0x2dbee21d, 0xf166f514, 0xee46e961, 0xe95c3a43), w) ==
            Registers(0xa691d430, 0xefb0e72f, 0x3fc23df6, 0x528452f2)
  {
    QuadI(48, w, 0x2dbee21d, 0xf166f514, 0xee46e961, 0xe95c3a43,
          0x44434241, 6, 0xf4292244, 0xe47fd4f3, 0x66656463, 10, 0x432aff97, 0xfb887751,
          0x37363534, 15, 0xab9423a7, 0xf22aedcc, 0x58575655, 21, 0xfc93a039, 0x7a13bc5c);
    QuadI(52, w, 0xe47fd4f3, 0x7a13bc5c, 0xf22aedcc, 0xfb887751,
          0x7a797877, 6, 0x655b59c3, 0xa691d430, 0x504f4e4d, 10, 0x8f0ccc92, 0x528452f2,
          0x7271706f, 15, 0xffeff47d, 0x3fc23df6, 0x48474645, 21, 0x85845dd1, 0xefb0e72f);
  }

  lemma Letters56(w: Sixteen)
    requires Letters(w)
    ensures Eight(56, Registers(0xa691d430, 0xefb0e72f, 0x3fc23df6, 0x528452f2), w) ==
            Registers(0x1cb80f0a, 0xef2e3a46, 0x10f68731, 0xea3d3eb4)
  {
    QuadI(56, w, 0xa691d430, 0xefb0e72f, 0x3fc23df6, 0x528452f2,
          0x6a696867, 6, 0x6fa87e4f, 0x27145703, 0x00803938, 10, 0xfe2ce6e0, 0x21a11069,
          0x62615a59, 15, 0xa3014314, 0x374fbe79, 0x33323130, 21, 0x4e0811a1, 0x49d9a5b4);
    QuadI(60, w, 0x27145703, 0x49d9a5b4, 0x374fbe79, 0x21a11069,
          0x54535251, 6, 0xf7537e82, 0x1cb80f0a, 0x76757473, 10, 0xbd3af235, 0xea3d3eb4,
          0x4c4b4a49, 15, 0x2ad7d2bb, 0x10f68731, 0x6e6d6c6b, 21, 0xeb86d391, 0xef2e3a46);
  }

  lemma LettersCompressed(w: Sixteen)
    requires Letters(w)
    ensures Compress(INITIAL, w) ==
            Registers(0x83fd320b, 0xdefbe5cf, 0xa9b1642f, 0xfa6f932a)
  {
    Letters0(w);
    Letters8(w);
    Letters16(w);
    Letters24(w);
    Letters32(w);
    Letters40(w);
    Letters48(w);
    Letters56(w);
    Compressed(INITIAL, w);
  }

  ghost predicate LettersRest(w: Sixteen) {
    && w[0] == 0x00000000 && w[1] == 0x00000000 && w[2] == 0x00000000 && w[3] == 0x00000000
    && w[4] == 0x00000000 && w[5] == 0x00000000 && w[6] == 0x00000000 && w[7] == 0x00000000
    && w[8] == 0x00000000 && w[9] == 0x00000000 && w[10] == 0x00000000 && w[11] == 0x00000000
    && w[12] == 0x00000000 && w[13] == 0x00000000 && w[14] == 0x000001f0 && w[15] == 0x00000000
  }

  lemma LettersRest0(w: Sixteen)
    requires LettersRest(w)
    ensures Eight(0, Registers(0x83fd320b, 0xdefbe5cf, 0xa9b1642f, 0xfa6f932a), w) ==
            Registers(0x75144433, 0x99b6b699, 0xc783cb60, 0xc8875807)
  {
    QuadF(0, w, 0x83fd320b, 0xdefbe5cf, 0xa9b1642f, 0xfa6f932a,
          0x00000000, 7, 0xd76aa478, 0xeda23ed1, 0x00000000, 12, 0xe8c7b756, 0x989939cf,
          0x00000000, 17, 0x242070db, 0x3c307338, 0x00000000, 22, 0xc1bdceee, 0xddcf0634);
    QuadF(4, w, 0xeda23ed1, 0xddcf0634, 0x3c307338, 0x989939cf,
          0x00000000, 7, 0xf57c0faf, 0x75144433, 0x00000000, 12, 0x4787c62a, 0xc8875807,
          0x00000000, 17, 0xa8304613, 0xc783cb60, 0x00000000, 22, 0xfd469501, 0x99b6b699);
  }

  lemma LettersRest8(w: Sixteen)
    requires LettersRest(w)
    ensures Eight(8, Registers(0x75144433, 0x99b6b699, 0xc783cb60, 0xc8875807), w) ==
            Registers(0xa70737da, 0xa36f556f, 0x96f6586e, 0x5473f8a7)
  {
    QuadF(8, w, 0x75144433, 0x99b6b699, 0xc783cb60, 0xc8875807,
          0x00000000, 7, 0x698098d8, 0xa60a3f69, 0x00000000, 12, 0x8b44f7af, 0xaa6630be,
          0x00000000, 17, 0xffff5bb1, 0x64db26e9, 0x00000000, 22, 0x895cd7be, 0x64cc7c5a);
    QuadF(12, w, 0xa60a3f69, 0x64cc7c5a, 0x64db26e9, 0xaa6630be,
          0x00000000, 7, 0x6b901122, 0xa70737da, 0x00000000, 12, 0xfd987193, 0x5473f8a7,
          0x000001f0, 17, 0xa679438e, 0x96f6586e, 0x00000000, 22, 0x49b40821, 0xa36f556f);
  }

  lemma LettersRest16(w: Sixteen)
    requires LettersRest(w)
    ensures Eight(16, Registers(0xa70737da, 0xa36f556f, 0x96f6586e, 0x5473f8a7), w) ==
            Registers(0xe04f070c, 0xdf35cb56, 0xc0d22b61, 0x2f3cd2a2)
  {
    QuadG(16, w, 0xa70737da, 0xa36f556f, 0x96f6586e, 0x5473f8a7,
          0x00000000, 5, 0xf61e2562, 0xa5050ad3, 0x00000000, 9, 0xc040b340, 0x28776046,
          0x00000000, 14, 0x265e5a51, 0x27dcd8b4, 0x00000000, 20, 0xe9b6c7aa, 0x82b8827c);
    QuadG(20, w, 0xa5050ad3, 0x82b8827c, 0x27dcd8b4, 0x28776046,
          0x00000000, 5, 0xd62f105d, 0xe04f070c, 0x00000000, 9, 0x02441453, 0x2f3cd2a2,
          0x00000000, 14, 0xd8a1e681, 0xc0d22b61, 0x00000000, 20, 0xe7d3fbc8, 0xdf35cb56);
  }

  lemma LettersRest24(w: Sixteen)
    requires LettersRest(w)
    ensures Eight(24, Registers(0xe04f070c, 0xdf35cb56, 0xc0d22b61, 0x2f3cd2a2), w) ==
            Registers(0x24eba695, 0x9c03e2e8, 0x10c42a2f, 0x4bd0378b)
  {
    QuadG(24, w, 0xe04f070c, 0xdf35cb56, 0xc0d22b61, 0x2f3cd2a2,
          0x00000000, 5, 0x21e1cde6, 0x242dd210, 0x000001f0, 9, 0xc33707d6, 0x576ace33,
          0x00000000, 14, 0xf4d50d87, 0x5c295967, 0x00000000, 20, 0x455a14ed, 0x2291191a);
    QuadG(28, w, 0x242dd210, 0x2291191a, 0x5c295967, 0x576ace33,
          0x00000000, 5, 0xa9e3e905, 0x24eba695, 0x00000000, 9, 0xfcefa3f8, 0x4bd0378b,
          0x00000000, 14, 0x676f02d9, 0x10c42a2f, 0x00000000, 20, 0x8d2a4c8a, 0x9c03e2e8);
  }

  lemma LettersRest32(w: Sixteen)
    requires LettersRest(w)
    ensures Eight(32, Registers(0x24eba695, 0x9c03e2e8, 0x10c42a2f, 0x4bd0378b), w) ==
            Registers(0xe14e403d, 0xfe314121, 0x60cc183a, 0xe8cfd670)
  {
    QuadH(32, w, 0x24eba695, 0x9c03e2e8, 0x10c42a2f, 0x4bd0378b,
          0x00000000, 4, 0xfffa3942, 0x5be1d526, 0x00000000, 11, 0x8771f681, 0x9e414279,
          0x00000000, 16, 0x6d9d6122, 0x9f4a1a7e, 0x000001f0, 23, 0xfde5380c, 0xa2448453);
    QuadH(36, w, 0x5be1d526, 0xa2448453, 0x9f4a1a7e, 0x9e414279,
          0x00000000, 4, 0xa4beea44, 0xe14e403d, 0x00000000, 11, 0x4bdecfa9, 0xe8cfd670,
          0x00000000, 16, 0xf6bb4b60, 0x60cc183a, 0x00000000, 23, 0xbebfbc70, 0xfe314121);
  }

  lemma LettersRest40(w: Sixteen)
    requires LettersRest(w)
    ensures Eight(40, Registers(0xe14e403d, 0xfe314121, 0x60cc183a, 0xe8cfd670), w) ==
            Registers(0x54c9eb3a, 0x79c0710a, 0x2ec86f72, 0xd4d9c6ac)
  {
    QuadH(40, w, 0xe14e403d, 0xfe314121, 0x60cc183a, 0xe8cfd670,
          0x00000000, 4, 0x289b7ec6, 0xfff62809, 0x00000000, 11, 0xeaa127fa, 0xe37209ac,
          0x00000000, 16, 0xd4ef3085, 0x8cb5221c, 0x00000000, 23, 0x04881d05, 0x7c7e974c);
    QuadH(44, w, 0xfff62809, 0x7c7e974c, 0x8cb5221c, 0xe37209ac,
          0x00000000, 4, 0xd9d4d039, 0x54c9eb3a, 0x00000000, 11, 0xe6db99e5, 0xd4d9c6ac,
          0x00000000, 16, 0x1fa27cf8, 0x2ec86f72, 0x00000000, 23, 0xc4ac5665, 0x79c0710a);
  }

  lemma LettersRest48(w: Sixteen)
    requires LettersRest(w)
    ensures Eight(48, Registers(0x54c9eb3a, 0x79c0710a, 0x2ec86f72, 0xd4d9c6ac), w) ==
            Registers(0xe126c1aa, 0xfb7bcee0, 0x6f287ff5, 0x96b00fa7)
  {
    QuadI(48, w, 0x54c9eb3a, 0x79c0710a, 0x2ec86f72, 0xd4d9c6ac,
          0x00000000, 6, 0xf4292244, 0x02095af1, 0x00000000, 10, 0x432aff97, 0x13d245fd,
          0x000001f0, 15, 0xab9423a7, 0xa8dcfe26, 0x00000000, 21, 0xfc93a039, 0x2ba98e3f);
    QuadI(52, w, 0x02095af1, 0x2ba98e3f, 0xa8dcfe26, 0x13d245fd,
          0x00000000, 6, 0x655b59c3, 0xe126c1aa, 0x00000000, 10, 0x8f0ccc92, 0x96b00fa7,
          0x00000000, 15, 0xffeff47d, 0x6f287ff5, 0x00000000, 21, 0x85845dd1, 0xfb7bcee0);
  }

  lemma LettersRest56(w: Sixteen)
    requires LettersRest(w)
    ensures Eight(56, Registers(0xe126c1aa, 0xfb7bcee0, 0x6f287ff5, 0x96b00fa7), w) ==
            Registers(0x14ae42c6, 0x16dd9203, 0x826afd76, 0xa52dae75)
  {
    QuadI(56, w, 0xe126c1aa, 0xfb7bcee0, 0x6f287ff5, 0x96b00fa7,
          0x00000000, 6, 0x6fa87e4f, 0x452c1099, 0x00000000, 10, 0xfe2ce6e0, 0xca801ba6,
          0x00000000, 15, 0xa3014314, 0xc197ea8e, 0x00000000, 21, 0x4e0811a1, 0x5ac74608);
    QuadI(60, w, 0x452c1099, 0x5ac74608, 0xc197ea8e, 0xca801ba6,
          0x00000000, 6, 0xf7537e82, 0x14ae42c6, 0x00000000, 10, 0xbd3af235, 0xa52dae75,
          0x00000000, 15, 0x2ad7d2bb, 0x826afd76, 0x00000000, 21, 0xeb86d391, 0x16dd9203);
  }

  lemma LettersRestCompressed(w: Sixteen)
    requires LettersRest(w)
    ensures Compress(Registers(0x83fd320b, 0xdefbe5cf, 0xa9b1642f, 0xfa6f932a), w) ==
            Registers(0x98ab74d1, 0xf5d977d2, 0x2c1c61a5, 0x9f9d419f)
  {
    LettersRest0(w);
    LettersRest8(w);
    LettersRest16(w);
    LettersRest24(w);
    LettersRest32(w);
    LettersRest40(w);
    LettersRest48(w);
    LettersRest56(w);
    Compressed(Registers(0x83fd320b, 0xdefbe5cf, 0xa9b1642f, 0xfa6f932a), w);
  }

  lemma LettersWords0(bs: seq<byte>)
    requires |bs| == BLOCKSIZE
    requires bs[0] == 0x41 && bs[1] == 0x42 && bs[2] == 0x43 && bs[3] == 0x44
    requires bs[4] == 0x45 && bs[5] == 0x46 && bs[6] == 0x47 && bs[7] == 0x48
    requires bs[8] == 0x49 && bs[9] == 0x4a && bs[10] == 0x4b && bs[11] == 0x4c
    requires bs[12] == 0x4d && bs[13] == 0x4e && bs[14] == 0x4f && bs[15] == 0x50
    ensures WordsOf(bs)[0] == 0x44434241 && WordsOf(bs)[1] == 0x48474645
    ensures WordsOf(bs)[2] == 0x4c4b4a49 && WordsOf(bs)[3] == 0x504f4e4d
  {
    WordIs(bs, 0, 0x44434241, 0x41, 0x42, 0x43, 0x44, 0x44434241);
    WordIs(bs, 1, 0x48474645, 0x45, 0x46, 0x47, 0x48, 0x48474645);
    WordIs(bs, 2, 0x4c4b4a49, 0x49, 0x4a, 0x4b, 0x4c, 0x4c4b4a49);
    WordIs(bs, 3, 0x504f4e4d, 0x4d, 0x4e, 0x4f, 0x50, 0x504f4e4d);
  }

  lemma LettersWords4(bs: seq<byte>)
    requires |bs| == BLOCKSIZE
    requires bs[16] == 0x51 && bs[17] == 0x52 && bs[18] == 0x53 && bs[19] == 0x54
    requires bs[20] == 0x55 && bs[21] == 0x56 && bs[22] == 0x57 && bs[23] == 0x58
    requires bs[24] == 0x59 && bs[25] == 0x5a && bs[26] == 0x61 && bs[27] == 0x62
    requires bs[28] == 0x63 && bs[29] == 0x64 && bs[30] == 0x65 && bs[31] == 0x66
    ensures WordsOf(bs)[4] == 0x54535251 && WordsOf(bs)[5] == 0x58575655
    ensures WordsOf(bs)[6] == 0x62615a59 && WordsOf(bs)[7] == 0x66656463
  {
    WordIs(bs, 4, 0x54535251, 0x51, 0x52, 0x53, 0x54, 0x54535251);
    WordIs(bs, 5, 0x58575655, 0x55, 0x56, 0x57, 0x58, 0x58575655);
    WordIs(bs, 6, 0x62615a59, 0x59, 0x5a, 0x61, 0x62, 0x62615a59);
    WordIs(bs, 7, 0x66656463, 0x63, 0x64, 0x65, 0x66, 0x66656463);
  }

  lemma LettersWords8(bs: seq<byte>)
    requires |bs| == BLOCKSIZE
    requires bs[32] == 0x67 && bs[33] == 0x68 && bs[34] == 0x69 && bs[35] == 0x6a
    requires bs[36] == 0x6b && bs[37] == 0x6c && bs[38] == 0x6d && bs[39] == 0x6e
    requires bs[40] == 0x6f && bs[41] == 0x70 && bs[42] == 0x71 && bs[43] == 0x72
    requires bs[44] == 0x73 && bs[45] == 0x74 && bs[46] == 0x75 && bs[47] == 0x76
    ensures WordsOf(bs)[8] == 0x6a696867 && WordsOf(bs)[9] == 0x6e6d6c6b
    ensures WordsOf(bs)[10] == 0x7271706f && WordsOf(bs)[11] == 0x76757473
  {
    WordIs(bs, 8, 0x6a696867, 0x67, 0x68, 0x69, 0x6a, 0x6a696867);
    WordIs(bs, 9, 0x6e6d6c6b, 0x6b, 0x6c, 0x6d, 0x6e, 0x6e6d6c6b);
    WordIs(bs, 10, 0x7271706f, 0x6f, 0x70, 0x71, 0x72, 0x7271706f);
    WordIs(bs, 11, 0x76757473, 0x73, 0x74, 0x75, 0x76, 0x76757473);
  }

  lemma LettersWords12(bs: seq<byte>)
    requires |bs| == BLOCKSIZE
    requires bs[48] == 0x77 && bs[49] == 0x78 && bs[50] == 0x79 && bs[51] == 0x7a
    requires bs[52] == 0x30 && bs[53] == 0x31 && bs[54] == 0x32 && bs[55] == 0x33
    requires bs[56] == 0x34 && bs[57] == 0x35 && bs[58] == 0x36 && bs[59] == 0x37
    requires bs[60] == 0x38 && bs[61] == 0x39 && bs[62] == 0x80 && bs[63] == 0x00
    ensures WordsOf(bs)[12] == 0x7a797877 && WordsOf(bs)[13] == 0x33323130
    ensures WordsOf(bs)[14] == 0x37363534 && WordsOf(bs)[15] == 0x00803938
  {
    WordIs(bs, 12, 0x7a797877, 0x77, 0x78, 0x79, 0x7a, 0x7a797877);
    WordIs(bs, 13, 0x33323130, 0x30, 0x31, 0x32, 0x33, 0x33323130);
    WordIs(bs, 14, 0x37363534, 0x34, 0x35, 0x36, 0x37, 0x37363534);
    WordIs(bs, 15, 0x00803938, 0x38, 0x39, 0x80, 0x00, 0x00803938);
  }

  lemma LettersRestWords(bs: seq<byte>)
    requires |bs| == BLOCKSIZE
    requires bs[56] == 0xf0 && bs[57] == 0x01
    requires forall k :: 0 <= k < 64 && k != 56 && k != 57 ==> bs[k] == 0
    ensures LettersRest(WordsOf(bs))
  {
    WordIs(bs, 14, 0x000001f0, 0xf0, 0x01, 0x00, 0x00, 0x000001f0);
    forall k: nat | k < 16 && k != 14 ensures k < |WordsOf(bs)| && WordsOf(bs)[k] == 0 {
      ZeroWordIs(bs, k);
    }
  }

  lemma LettersFirst(message: seq<byte>, p: seq<byte>)
    requires |message| == 62 && p == Padded(message, LengthBytes(8 * |message|))
    requires forall i :: 0 <= i < 26 ==> message[i] == 0x41 + i
    requires forall i :: 26 <= i < 52 ==> message[i] == 0x61 + i - 26
    requires forall i :: 52 <= i < 62 ==> message[i] == 0x30 + i - 52
    ensures |p| == 128 && Letters(WordsOf(p[..BLOCKSIZE]))
  {
    PaddedBytes(message, p);
    var bs := p[..BLOCKSIZE];
    LettersWords0(bs);
    LettersWords4(bs);
    LettersWords8(bs);
    LettersWords12(bs);
  }

  lemma LettersLast(message: seq<byte>, p: seq<byte>)
    requires |message| == 62 && p == Padded(message, LengthBytes(8 * |message|))
    ensures |p| == 128 && LettersRest(WordsOf(p[BLOCKSIZE..]))
  {
    PaddedBytes(message, p);
    LettersRestWords(p[BLOCKSIZE..]);
  }

  lemma LettersOutput(r: Registers)
    requires r == Registers(0x98ab74d1, 0xf5d977d2, 0x2c1c61a5, 0x9f9d419f)
    ensures Output(r) ==
            [0xd1, 0x74, 0xab, 0x98, 0xd2, 0x77, 0xd9, 0xf5, 0xa5, 0x61, 0x1c, 0x2c, 0x9f, 0x41, 0x9d, 0x9f]
  {
    RegisterIs(r.a, 0x98ab74d1, 0xd1, 0x74, 0xab, 0x98);
    RegisterIs(r.b, 0xf5d977d2, 0xd2, 0x77, 0xd9, 0xf5);
    RegisterIs(r.c, 0x2c1c61a5, 0xa5, 0x61, 0x1c, 0x2c);
    RegisterIs(r.d, 0x9f9d419f, 0x9f, 0x41, 0x9d, 0x9f);
  }

  /** MD5 ("ABCDEFGHIJKLMNOPQRSTUVWXYZabcdefghijklmnopqrstuvwxyz0123456789") =
      d174ab98d277d9f5a5611c2c9f419d9f */
  lemma DigestOfLetters(message: seq<byte>)
    requires |message| == 62
    requires forall i :: 0 <= i < 26 ==> message[i] == 0x41 + i
    requires forall i :: 26 <= i < 52 ==> message[i] == 0x61 + i - 26
    requires forall i :: 52 <= i < 62 ==> message[i] == 0x30 + i - 52
    ensures Digest(message) ==
            [0xd1, 0x74, 0xab, 0x98, 0xd2, 0x77, 0xd9, 0xf5, 0xa5, 0x61, 0x1c, 0x2c, 0x9f, 0x41, 0x9d, 0x9f]
  {
    var p := TwoBlocks(message);
    LettersFirst(message, p);
    LettersLast(message, p);
    var bs, rest := p[..BLOCKSIZE], p[BLOCKSIZE..];
    LettersCompressed(WordsOf(bs));
    LettersRestCompressed(WordsOf(rest));
    LettersOutput(Compress(Compress(INITIAL, WordsOf(bs)), WordsOf(rest)));
  }
}
