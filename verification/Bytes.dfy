/** Machine words as byte sequences, in either byte order (`to_ne_bytes` and `from_ne_bytes`). */
module Bytes {
  type Byte = b: int | 0 <= b < 256

  /** The byte order of the machine the crate is compiled for. */
  datatype Endian = Little | Big

  /** The number of values a word of `w` bytes can hold. */
  function Pow256(w: nat): (p: nat)
    ensures p > 0
  {
    if w == 0 then 1 else 256 * Pow256(w - 1)
  }

  function LittleBytes(n: nat, w: nat): (bs: seq<Byte>)
    ensures |bs| == w
  {
    if w == 0 then [] else [n % 256] + LittleBytes(n / 256, w - 1)
  }

  function LittleValue(bs: seq<Byte>): nat {
    if bs == [] then 0 else bs[0] + 256 * LittleValue(bs[1..])
  }

  function Reverse(bs: seq<Byte>): (r: seq<Byte>)
    ensures |r| == |bs|
  {
    if bs == [] then [] else Reverse(bs[1..]) + [bs[0]]
  }

  function ToBytes(e: Endian, n: nat, w: nat): (bs: seq<Byte>)
    requires n < Pow256(w)
    ensures |bs| == w
  {
    if e == Little then LittleBytes(n, w) else Reverse(LittleBytes(n, w))
  }

  function FromBytes(e: Endian, bs: seq<Byte>): nat {
    if e == Little then LittleValue(bs) else LittleValue(Reverse(bs))
  }

  /**
   The first byte of a little-endian word and the last of a big-endian one count ones, and the
   other bytes count 256 times as much as they would alone, at any word size.
   */
  lemma FromBytesPositional(b: Byte, rest: seq<Byte>)
    ensures FromBytes(Little, [b] + rest) == b + 256 * FromBytes(Little, rest)
    ensures FromBytes(Big, rest + [b]) == 256 * FromBytes(Big, rest) + b
    ensures FromBytes(Little, []) == FromBytes(Big, []) == 0
  {
    assert ([b] + rest)[1..] == rest;
    ReverseSnoc(rest, b);
    assert ([b] + Reverse(rest))[1..] == Reverse(rest);
  }

  lemma {:induction false} LittleValueBound(bs: seq<Byte>)
    ensures LittleValue(bs) < Pow256(|bs|)
  {
    if bs == [] {
    } else {
      LittleValueBound(bs[1..]);
    }
  }

  lemma {:induction false} LittleValueBytes(n: nat, w: nat)
    requires n < Pow256(w)
    ensures LittleValue(LittleBytes(n, w)) == n
  {
    if w == 0 {
    } else {
      LittleValueBytes(n / 256, w - 1);
      assert LittleBytes(n, w)[1..] == LittleBytes(n / 256, w - 1);
    }
  }

  lemma {:induction false} LittleBytesValue(bs: seq<Byte>)
    ensures LittleBytes(LittleValue(bs), |bs|) == bs
  {
    if bs == [] {
    } else {
      LittleBytesValue(bs[1..]);
      assert LittleValue(bs) / 256 == LittleValue(bs[1..]);
      assert bs == [bs[0]] + bs[1..];
    }
  }

  lemma {:induction false} ReverseSnoc(bs: seq<Byte>, b: Byte)
    ensures Reverse(bs + [b]) == [b] + Reverse(bs)
  {
    if bs == [] {
    } else {
      assert (bs + [b])[1..] == bs[1..] + [b];
      ReverseSnoc(bs[1..], b);
    }
  }

  lemma {:induction false} ReverseTwice(bs: seq<Byte>)
    ensures Reverse(Reverse(bs)) == bs
  {
    if bs == [] {
    } else {
      ReverseTwice(bs[1..]);
      ReverseSnoc(Reverse(bs[1..]), bs[0]);
    }
  }

  /** Every byte sequence denotes a word of its own width. */
  lemma FromBytesBound(e: Endian, bs: seq<Byte>)
    ensures FromBytes(e, bs) < Pow256(|bs|)
  {
    LittleValueBound(if e == Little then bs else Reverse(bs));
  }

  /** Reading back the bytes of a word gives the word, in either byte order. */
  lemma FromToBytes(e: Endian, n: nat, w: nat)
    requires n < Pow256(w)
    ensures FromBytes(e, ToBytes(e, n, w)) == n
  {
    LittleValueBytes(n, w);
    ReverseTwice(LittleBytes(n, w));
  }

  /** Conversely, writing the word that some bytes denote gives those bytes back. */
  lemma ToFromBytes(e: Endian, bs: seq<Byte>)
    ensures FromBytes(e, bs) < Pow256(|bs|)
    ensures ToBytes(e, FromBytes(e, bs), |bs|) == bs
  {
    FromBytesBound(e, bs);
    LittleBytesValue(if e == Little then bs else Reverse(bs));
    ReverseTwice(bs);
  }
}
