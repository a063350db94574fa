/**
 * The crate root: a point in geological or historical time as a signed
 * 128-bit count of milliseconds since 1970-01-01T00:00:00Z, its
 * conversions from Rust's narrower signed integers, the narrowing back to
 * the `i64` milliseconds of the `chrono` crate, and the crate's error type.
 */
module Geotime {
  import opened Wrappers
  import opened Ints
  import Base32Hex

  /**
   * `geotime::Error`: a narrowing that did not fit, or a base32hex
   * decoding failure (whose `Debug` text the crate keeps; here, its kind).
   */
  datatype Error = TryFromInt | DecodePartial(kind: Base32Hex.DecodeKind)

  /** `Geotime(i128)`; the derived equality is equality of the counts. */
  datatype Geotime = Geotime(ms: I128)

  /**
   * `From<i32>`: `i32::into::<i128>` sign-extends, so the low 32 bits of
   * the pattern are those of `n` and the 96 bits above are copies of its
   * sign bit.
   */
  function FromI32(n: I32): (g: Geotime)
    ensures Bits(g.ms) % TWO_32 == n % TWO_32
    ensures Bits(g.ms) / TWO_32 == if n < 0 then TWO_96 - 1 else 0
  {
    Geotime(n)
  }

  /** `From<i64>`: sign extension of the 64-bit pattern. */
  function FromI64(n: I64): (g: Geotime)
    ensures Bits(g.ms) % TWO_64 == n % TWO_64
    ensures Bits(g.ms) / TWO_64 == if n < 0 then TWO_64 - 1 else 0
  {
    Geotime(n)
  }

  /** `From<i128>`: the count itself. */
  function FromI128(n: I128): (g: Geotime)
    ensures Bits(g.ms) == Bits(n)
  {
    Geotime(n)
  }

  /**
   * `Geotime::timestamp_millis`: `i128::try_into::<i64>`, which succeeds
   * exactly when the count fits in 64 bits and otherwise fails with
   * `TryFromIntError`.
   */
  function TimestampMillis(g: Geotime): (r: Result<I64, Error>)
    ensures r.Ok? <==> -TWO_63 <= g.ms < TWO_63
    ensures r.Ok? ==> FromI64(r.value) == g
    ensures r.Err? ==> r.error == TryFromInt
  {
    if -TWO_63 <= g.ms < TWO_63 then Ok(g.ms) else Err(TryFromInt)
  }

  /** Widening from either narrower width gives the same time. */
  lemma WideningAgrees(n: I32)
    ensures FromI32(n) == FromI64(n) == FromI128(n)
  {
  }

  /**
   * Narrowing undoes widening: every `i64` count (the `chrono` timestamp
   * of the crate's own test) comes back unchanged.
   */
  lemma NarrowingInverse(n: I64)
    ensures TimestampMillis(FromI64(n)) == Ok(n)
  {
  }
}
