/**
 * Rust's fixed-width integers as bounded mathematical integers, the
 * two's-complement bit pattern of an `i128`, and `i128::to_be_bytes` /
 * `i128::from_be_bytes`.
 */
module Ints {
  import opened Digits

  const TWO_31: int := 0x8000_0000
  const TWO_32: int := 0x1_0000_0000
  const TWO_63: int := 0x8000_0000_0000_0000
  const TWO_64: int := 0x1_0000_0000_0000_0000
  const TWO_96: int := 0x1_0000_0000_0000_0000_0000_0000
  const TWO_127: int := 0x8000_0000_0000_0000_0000_0000_0000_0000
  const TWO_128: int := 0x1_0000_0000_0000_0000_0000_0000_0000_0000

  type I32 = n: int | -TWO_31 <= n < TWO_31
  type I64 = n: int | -TWO_63 <= n < TWO_63
  type I128 = n: int | -TWO_127 <= n < TWO_127
  type U128 = n: int | 0 <= n < TWO_128
  type byte = b: int | 0 <= b < 256

  /** The 16 bytes of a 128-bit value are 256 to the 16th power apart. */
  lemma Pow256To16()
    ensures Pow(256, 16) == TWO_128
  {
    assert Pow(256, 4) == TWO_32;
    PowAdd(256, 4, 4);
    PowAdd(256, 8, 8);
  }

  /** The bit pattern of `n` read as an unsigned 128-bit number (two's complement). */
  function Bits(n: I128): U128 {
    if n >= 0 then n else n + TWO_128
  }

  /** Two's complement: the pattern is the one unsigned value congruent to `n` modulo 2^128. */
  lemma BitsCongruent(n: I128)
    ensures Bits(n) % TWO_128 == n % TWO_128
  {
  }

  /** The signed reading of a 128-bit pattern: bit 127 weighs -2^127. */
  function FromBits(u: U128): (n: I128)
    ensures Bits(n) == u
  {
    if u < TWO_127 then u else u - TWO_128
  }

  lemma FromBitsBits(n: I128)
    ensures FromBits(Bits(n)) == n
  {
  }

  /** `i128::to_be_bytes`: the bit pattern as exactly 16 bytes, most significant first. */
  function ToBeBytes(n: I128): (b: seq<byte>)
    ensures |b| == 16 && IsDigits(b, 256)
    ensures ToNat(b, 256) == Bits(n)
  {
    Pow256To16();
    ToNatFromNat(Bits(n), 256, 16);
    FromNat(Bits(n), 256, 16)
  }

  /** `i128::from_be_bytes`: the signed value whose bit pattern the 16 bytes spell. */
  function FromBeBytes(b: seq<byte>): (n: I128)
    requires |b| == 16
    ensures IsDigits(b, 256) && Bits(n) == ToNat(b, 256)
  {
    assert IsDigits(b, 256);
    Pow256To16();
    FromBits(ToNat(b, 256))
  }

  /** Reading back the bytes of a value gives the value. */
  lemma BeBytesRoundTrip(n: I128)
    ensures FromBeBytes(ToBeBytes(n)) == n
  {
    FromBitsBits(n);
  }

  /** Every 16-byte string is the rendering of exactly one value. */
  lemma {:induction false} BeBytesRoundTripBack(b: seq<byte>)
    requires |b| == 16
    ensures ToBeBytes(FromBeBytes(b)) == b
  {
    assert IsDigits(b, 256);
    FromNatToNat(b, 256);
  }
}
