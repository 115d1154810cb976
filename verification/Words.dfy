// Fixed-width integers and the little-endian reading of memory that
// every part of the system shares: an OSPFS block is sometimes an array of
// bytes and sometimes an array of 32-bit words, and MD5 reads its
// 64-byte blocks as sixteen words.
module Words {

  const TWO32: int := 0x1_0000_0000

  type uint32 = x: int | 0 <= x < 0x1_0000_0000
  type byte = x: int | 0 <= x < 256

  datatype Option<T> = None | Some(value: T)

  /** Unsigned 32-bit addition and subtraction wrap around. */
  function Add32(a: uint32, b: uint32): uint32 {
    if a + b < TWO32 then a + b else a + b - TWO32
  }

  function Sub32(a: uint32, b: uint32): uint32 {
    if b <= a then a - b else a - b + TWO32
  }

  /** The four bytes of a word, least significant first. */
  function Encode(w: uint32): (bs: seq<byte>)
    ensures |bs| == 4
  {
    [w % 256, w / 256 % 256, w / 65536 % 256, w / 16777216]
  }

  function Decode(bs: seq<byte>): uint32
    requires |bs| == 4
  {
    var b0: int, b1: int, b2: int, b3: int := bs[0], bs[1], bs[2], bs[3];
    b0 + 256 * b1 + 65536 * b2 + 16777216 * b3
  }

  lemma DecodeEncode(w: uint32)
    ensures Decode(Encode(w)) == w
  {
    assert w / 65536 == w / 256 / 256;
    assert w / 16777216 == w / 65536 / 256;
  }

  lemma EncodeDecode(bs: seq<byte>)
    requires |bs| == 4
    ensures Encode(Decode(bs)) == bs
  {
    var b1: int, b2: int, b3: int := bs[1], bs[2], bs[3];
    var w := Decode(bs);
    assert w / 256 == b1 + 256 * b2 + 65536 * b3;
    assert w / 65536 == b2 + 256 * b3;
    assert w / 16777216 == b3;
  }

  /** A word array seen as bytes, and back. */
  function Bytes(ws: seq<uint32>): (bs: seq<byte>)
    ensures |bs| == 4 * |ws|
  {
    if ws == [] then [] else Encode(ws[0]) + Bytes(ws[1..])
  }

  function Pack(bs: seq<byte>): (ws: seq<uint32>)
    requires |bs| % 4 == 0
    ensures 4 * |ws| == |bs|
  {
    if bs == [] then [] else [Decode(bs[..4])] + Pack(bs[4..])
  }

  lemma {:induction false} BytesPack(bs: seq<byte>)
    requires |bs| % 4 == 0
    ensures Bytes(Pack(bs)) == bs
  {
    if bs != [] {
      EncodeDecode(bs[..4]);
      BytesPack(bs[4..]);
      assert Pack(bs)[1..] == Pack(bs[4..]);
      assert bs == bs[..4] + bs[4..];
    }
  }

  lemma {:induction false} PackBytes(ws: seq<uint32>)
    ensures Pack(Bytes(ws)) == ws
  {
    if ws != [] {
      DecodeEncode(ws[0]);
      PackBytes(ws[1..]);
      assert Bytes(ws)[..4] == Encode(ws[0]);
      assert Bytes(ws)[4..] == Bytes(ws[1..]);
    }
  }

  lemma {:induction false} ZerosAsBytes(ws: seq<uint32>, k: nat)
    requires k < 4 * |ws| && forall i :: 0 <= i < |ws| ==> ws[i] == 0
    ensures Bytes(ws)[k] == 0
  {
    if k >= 4 {
      ZerosAsBytes(ws[1..], k - 4);
    }
  }

  function Zeros(n: nat): (zs: seq<uint32>)
    ensures |zs| == n && forall i :: 0 <= i < n ==> zs[i] == 0
  {
    seq(n, _ => 0)
  }

  /** 'data' copied over 'bs' from position 'off' on, as memcpy does. */
  function Splice<T>(bs: seq<T>, off: nat, data: seq<T>): (r: seq<T>)
    requires off + |data| <= |bs|
    ensures |r| == |bs|
    ensures forall k :: 0 <= k < |bs| ==> r[k] == if off <= k < off + |data| then data[k - off] else bs[k]
  {
    bs[..off] + data + bs[off + |data|..]
  }
}
