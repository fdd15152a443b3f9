/**
 * Fixed-width unsigned and signed integers as C stores them in memory:
 * a value of N bytes is laid out in host byte order, which is either
 * little- or big-endian. Both the capture writer and the epoll reference
 * unions depend on this layout, so the byte order is a parameter rather
 * than a fixed choice.
 */
module Bytes {

  type Byte = x: int | 0 <= x < 0x100

  const U16_LIMIT: nat := 0x1_0000
  const U32_LIMIT: nat := 0x1_0000_0000

  type U16 = x: int | 0 <= x < 0x1_0000
  type U32 = x: int | 0 <= x < 0x1_0000_0000
  type I32 = x: int | -0x8000_0000 <= x < 0x8000_0000

  /** Host byte order. */
  datatype Endian = Little | Big

  /** The value a C conversion of `x` to `uint32_t` yields: x modulo 2^32. */
  function ToU32(x: int): (r: U32)
    ensures (r - x) % U32_LIMIT == 0
    ensures 0 <= x < U32_LIMIT ==> r == x
  {
    x % U32_LIMIT
  }

  /** 256 to the power n: the number of values n bytes can hold. */
  function Pow256(n: nat): (p: nat)
    ensures p >= 1
  {
    if n == 0 then 1 else 0x100 * Pow256(n - 1)
  }

  /** The low n bytes of x, least significant first. */
  function LittleBytes(x: nat, n: nat): (bs: seq<Byte>)
    ensures |bs| == n
  {
    if n == 0 then [] else [x % 0x100] + LittleBytes(x / 0x100, n - 1)
  }

  /** The value of bytes taken least significant first. */
  function LittleValue(bs: seq<Byte>): nat
  {
    if bs == [] then 0 else bs[0] + 0x100 * LittleValue(bs[1..])
  }

  function Reverse(bs: seq<Byte>): (r: seq<Byte>)
    ensures |r| == |bs|
    ensures forall i :: 0 <= i < |bs| ==> r[i] == bs[|bs| - 1 - i]
  {
    if bs == [] then [] else Reverse(bs[1..]) + [bs[0]]
  }

  /** The n bytes of x in memory, in byte order e. */
  function IntBytes(x: nat, n: nat, e: Endian): (bs: seq<Byte>)
    ensures |bs| == n
  {
    if e == Little then LittleBytes(x, n) else Reverse(LittleBytes(x, n))
  }

  /** The unsigned value of bytes in memory, in byte order e. */
  function IntOf(bs: seq<Byte>, e: Endian): nat
  {
    LittleValue(if e == Little then bs else Reverse(bs))
  }

  /** The two bytes of a `uint16_t` in memory. */
  function U16Bytes(x: U16, e: Endian): (bs: seq<Byte>)
    ensures |bs| == 2
  {
    IntBytes(x, 2, e)
  }

  /** The `uint16_t` that two bytes in memory hold. */
  function U16Of(bs: seq<Byte>, e: Endian): U16
    requires |bs| == 2
  {
    LittleValueBound(if e == Little then bs else Reverse(bs));
    Pow256Values();
    IntOf(bs, e)
  }

  /** The four bytes of a `uint32_t` in memory. */
  function U32Bytes(x: U32, e: Endian): (bs: seq<Byte>)
    ensures |bs| == 4
  {
    IntBytes(x, 4, e)
  }

  /** The `uint32_t` that four bytes in memory hold. */
  function U32Of(bs: seq<Byte>, e: Endian): U32
    requires |bs| == 4
  {
    LittleValueBound(if e == Little then bs else Reverse(bs));
    Pow256Values();
    IntOf(bs, e)
  }

  /** The four bytes of an `int32_t` in memory (two's complement). */
  function I32Bytes(x: I32, e: Endian): (bs: seq<Byte>)
    ensures |bs| == 4
  {
    U32Bytes(ToU32(x), e)
  }

  /** The `int32_t` that four bytes in memory hold (two's complement). */
  function I32Of(bs: seq<Byte>, e: Endian): I32
    requires |bs| == 4
  {
    var u := U32Of(bs, e);
    if u < 0x8000_0000 then u else u - U32_LIMIT
  }

  lemma Pow256Values()
    ensures Pow256(2) == U16_LIMIT && Pow256(4) == U32_LIMIT
  {
    assert Pow256(1) == 0x100;
    assert Pow256(3) == 0x100_0000;
  }

  /** n bytes hold less than 256^n. */
  lemma {:induction false} LittleValueBound(bs: seq<Byte>)
    ensures LittleValue(bs) < Pow256(|bs|)
    decreases |bs|
  {
    if bs != [] {
      LittleValueBound(bs[1..]);
    }
    Pow256Values();
  }

  /** A value below 256^n is given back by its n bytes. */
  lemma {:induction false} LittleRoundTrip(x: nat, n: nat)
    requires x < Pow256(n)
    ensures LittleValue(LittleBytes(x, n)) == x
    decreases n
  {
    if n > 0 {
      LittleRoundTrip(x / 0x100, n - 1);
      var bs := LittleBytes(x, n);
      assert bs[1..] == LittleBytes(x / 0x100, n - 1);
    }
  }

  /** Bytes are given back by their value. */
  lemma {:induction false} LittleBytesRoundTrip(bs: seq<Byte>)
    ensures LittleBytes(LittleValue(bs), |bs|) == bs
    decreases |bs|
  {
    if bs != [] {
      var x, v := LittleValue(bs), LittleValue(bs[1..]);
      DivModByte(x, bs[0], v);
      LittleBytesRoundTrip(bs[1..]);
      assert LittleBytes(x, |bs|) == [bs[0]] + bs[1..];
    }
  }

  /** Splitting a value into its low byte and the rest is unique. */
  lemma DivModByte(x: int, lo: Byte, hi: int)
    requires x == lo + 0x100 * hi
    ensures x % 0x100 == lo && x / 0x100 == hi
  {
  }

  lemma ReverseReverse(bs: seq<Byte>)
    ensures Reverse(Reverse(bs)) == bs
  {
  }

  /** Reading back the n bytes of a value below 256^n gives the value, in either byte order. */
  lemma IntRoundTrip(x: nat, n: nat, e: Endian)
    requires x < Pow256(n)
    ensures IntOf(IntBytes(x, n, e), e) == x
  {
    LittleRoundTrip(x, n);
    if e == Big {
      ReverseReverse(LittleBytes(x, n));
    }
  }

  /** Writing back the value of bytes gives the same bytes, in either byte order. */
  lemma IntBytesRoundTrip(bs: seq<Byte>, e: Endian)
    ensures IntBytes(IntOf(bs, e), |bs|, e) == bs
  {
    if e == Little {
      LittleBytesRoundTrip(bs);
    } else {
      LittleBytesRoundTrip(Reverse(bs));
      ReverseReverse(bs);
    }
  }

  lemma U16RoundTrip(x: U16, e: Endian)
    ensures U16Of(U16Bytes(x, e), e) == x
  {
    Pow256Values();
    IntRoundTrip(x, 2, e);
  }

  lemma U16BytesRoundTrip(bs: seq<Byte>, e: Endian)
    requires |bs| == 2
    ensures U16Bytes(U16Of(bs, e), e) == bs
  {
    IntBytesRoundTrip(bs, e);
  }

  lemma U32RoundTrip(x: U32, e: Endian)
    ensures U32Of(U32Bytes(x, e), e) == x
  {
    Pow256Values();
    IntRoundTrip(x, 4, e);
  }

  lemma U32BytesRoundTrip(bs: seq<Byte>, e: Endian)
    requires |bs| == 4
    ensures U32Bytes(U32Of(bs, e), e) == bs
  {
    IntBytesRoundTrip(bs, e);
  }

  lemma I32RoundTrip(x: I32, e: Endian)
    ensures I32Of(I32Bytes(x, e), e) == x
  {
    U32RoundTrip(ToU32(x), e);
  }
}
