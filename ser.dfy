/**
 * Text forms of a `Geotime` that sort like the times they stand for.
 *
 * The millisecond count is "lexified" (its sign bit flipped) so that the
 * 16 big-endian bytes of the result, read unsigned, compare like the
 * signed count; the bytes are then written as 32 lowercase hex digits
 * (`LexicalHex`) or as 26 base32hex symbols and six `=` (`LexicalBase32Hex`).
 * Both alphabets are in ASCII order and both forms have a fixed width, so
 * string order is time order.
 *
 * Deserialization decodes the text, copies the first 16 bytes into a
 * fixed buffer and undoes the sign flip. The `visit_str` functions model
 * that code as it is written, including what it does with a payload that
 * is not 16 bytes long; the `Exact` variants are the intended behaviour.
 */
module Ser {
  import opened Wrappers
  import opened Digits
  import opened Ints
  import Hex
  import Base32Hex
  import opened Geotime

  /** `n ^ (1 << 127)` on an `i128`: bit 127 flips, the 127 bits below stay. */
  function FlipSignBit(n: I128): (r: I128)
    ensures Bits(r) % TWO_127 == Bits(n) % TWO_127
    ensures Bits(r) / TWO_127 == 1 - Bits(n) / TWO_127
  {
    if n < 0 then n + TWO_127 else n - TWO_127
  }

  /**
   * `lexify`: the bit pattern of the result, read unsigned, is the count
   * moved up by 2^127, so the most negative count becomes all zero bits.
   */
  function Lexify(n: I128): (m: I128)
    ensures Bits(m) == n + TWO_127
  {
    FlipSignBit(n)
  }

  /** `delexify`: reads a lexified pattern back, moving it down by 2^127. */
  function Delexify(m: I128): (n: I128)
    ensures n == Bits(m) - TWO_127
  {
    FlipSignBit(m)
  }

  /** Flipping the sign bit twice changes nothing: the two functions are inverse. */
  lemma LexifyInvolution(n: I128)
    ensures FlipSignBit(FlipSignBit(n)) == n
    ensures Delexify(Lexify(n)) == n && Lexify(Delexify(n)) == n
  {
  }

  /** Signed order of counts is the byte-wise order of their lexified big-endian bytes. */
  lemma LexifyOrder(a: I128, b: I128)
    ensures a < b <==> LexLess(ToBeBytes(Lexify(a)), ToBeBytes(Lexify(b)))
    ensures a == b <==> ToBeBytes(Lexify(a)) == ToBeBytes(Lexify(b))
  {
    LexOrder(ToBeBytes(Lexify(a)), ToBeBytes(Lexify(b)), 256);
    BeBytesRoundTrip(Lexify(a));
    BeBytesRoundTrip(Lexify(b));
  }

  /** `LexicalHex(i128)`. */
  datatype LexicalHex = LexicalHex(value: I128)

  /** `LexicalBase32Hex(i128)`. */
  datatype LexicalBase32Hex = LexicalBase32Hex(value: I128)

  /**
   * `From<Geotime> for LexicalHex`: the count is carried unchanged, so the
   * hex form of the result is the encoding of the time's lexified bytes.
   */
  function HexFromGeotime(ts: Geotime): (h: LexicalHex)
    ensures h.value == ts.ms
    ensures Hex.Decode(HexSerialize(h)) == Ok(ToBeBytes(Lexify(ts.ms)))
  {
    HexSerializeDecodes(LexicalHex(ts.ms));
    LexicalHex(ts.ms)
  }

  /**
   * `From<Geotime> for LexicalBase32Hex`: the count is carried unchanged,
   * so the base32hex form of the result encodes the time's lexified bytes.
   */
  function Base32FromGeotime(ts: Geotime): (x: LexicalBase32Hex)
    ensures x.value == ts.ms
    ensures Base32Hex.Decode(Base32Serialize(x)) == Ok(ToBeBytes(Lexify(ts.ms)))
  {
    Base32SerializeDecodes(LexicalBase32Hex(ts.ms));
    LexicalBase32Hex(ts.ms)
  }

  /**
   * How `visit_str` ends when it does not produce a value: a decoding
   * error handed to `de::Error::custom`, or the panic of `[0..16]` on a
   * buffer of `len` bytes. `WrongLength` is only used by the `Exact`
   * decoders.
   */
  datatype VisitError =
    | HexError(hex: Hex.FromHexError)
    | LengthError(kind: Base32Hex.DecodeKind)
    | DecodeFailed(err: Error)
    | SlicePanic(len: nat)
    | WrongLength(len: nat)

  /** The string `Serialize for LexicalHex` hands to `serialize_str`. */
  function HexSerialize(h: LexicalHex): (s: string)
    ensures |s| == 32 && forall i :: 0 <= i < |s| ==> Hex.IsLowerDigit(s[i])
  {
    Hex.Encode(ToBeBytes(Lexify(h.value)))
  }

  /** The serialized form decodes, as hex, to the 16 lexified bytes. */
  lemma HexSerializeDecodes(h: LexicalHex)
    ensures Hex.Decode(HexSerialize(h)) == Ok(ToBeBytes(Lexify(h.value)))
  {
    Hex.DecodeEncode(ToBeBytes(Lexify(h.value)));
  }

  /** The string `Serialize for LexicalBase32Hex` hands to `serialize_str`. */
  function Base32Serialize(x: LexicalBase32Hex): (s: string)
    ensures |s| == 32 && s[26..] == "======" && forall i :: 0 <= i < 26 ==> Base32Hex.IsSymbol(s[i])
  {
    Base32Hex.Encode16Shape(ToBeBytes(Lexify(x.value)));
    Base32Hex.Encode(ToBeBytes(Lexify(x.value)))
  }

  /** The serialized form decodes, as base32hex, to the 16 lexified bytes. */
  lemma Base32SerializeDecodes(x: LexicalBase32Hex)
    ensures Base32Hex.Decode(Base32Serialize(x)) == Ok(ToBeBytes(Lexify(x.value)))
  {
    Base32Hex.DecodeEncode(ToBeBytes(Lexify(x.value)));
  }

  /** The first 16 bytes of a payload of at least 16, read as a lexified count. */
  function FromLexifiedPrefix(bytes: seq<byte>): I128
    requires |bytes| >= 16
  {
    Delexify(FromBeBytes(bytes[..16]))
  }

  /** The count read from a payload has those 16 bytes as its lexified form. */
  lemma FromLexifiedPrefixBytes(bytes: seq<byte>)
    requires |bytes| >= 16
    ensures ToBeBytes(Lexify(FromLexifiedPrefix(bytes))) == bytes[..16]
  {
    var m := FromBeBytes(bytes[..16]);
    BeBytesRoundTripBack(bytes[..16]);
    LexifyInvolution(m);
  }

  /**
   * `LexicalHexVisitor::visit_str` as written: a `hex::decode` error is
   * returned, a payload under 16 bytes panics, and a longer one is cut to
   * its first 16 bytes.
   */
  function HexVisit(v: string): (r: Result<LexicalHex, VisitError>)
    ensures r.Ok? <==> Hex.Decode(v).Ok? && |v| >= 32
    ensures r.Err? && r.error.SlicePanic? <==> Hex.Decode(v).Ok? && |v| < 32
    ensures Hex.Decode(v).Err? ==> r == Err(HexError(Hex.Decode(v).error))
    ensures r.Ok? ==> ToBeBytes(Lexify(r.value.value)) == Hex.Decode(v).value[..16]
  {
    match Hex.Decode(v)
    case Err(e) => Err(HexError(e))
    case Ok(bytes) =>
      if |bytes| < 16 then Err(SlicePanic(|bytes|))
      else
        FromLexifiedPrefixBytes(bytes);
        Ok(LexicalHex(FromLexifiedPrefix(bytes)))
  }

  /** `vec![0; n]`. */
  function Zeros(n: nat): (z: seq<byte>)
    ensures |z| == n && forall i :: 0 <= i < n ==> z[i] == 0
  {
    seq(n, _ => 0)
  }

  /**
   * `Base32HexVisitor::visit_str` as written: the buffer has the
   * `decode_len` size and starts zero-filled, `decode_mut` writes the
   * decoded bytes at its front, and the first 16 bytes of the buffer are
   * read whatever number of bytes was written; a buffer under 16 bytes
   * panics.
   */
  function Base32Visit(v: string): (r: Result<LexicalBase32Hex, VisitError>)
    ensures |v| % 8 != 0 ==> r == Err(LengthError(Base32Hex.Length))
    ensures r.Ok? <==> |v| % 8 == 0 && |v| >= 32 && Base32Hex.DecodeBlocks(v).Ok?
  {
    match Base32Hex.DecodeLen(|v|)
    case Err(e) => Err(LengthError(e))
    case Ok(size) => ReadBuffer(Base32Hex.DecodeBlocks(v), size)
  }

  /**
   * The rest of the base32hex `visit_str` once the buffer of `size` bytes
   * exists: the outcome of `decode_mut`, then the `[0..16]` slice of the
   * buffer.
   */
  function ReadBuffer(decoded: Result<seq<byte>, Base32Hex.DecodeKind>, size: nat): (r: Result<LexicalBase32Hex, VisitError>)
    requires decoded.Ok? ==> |decoded.value| <= size
    ensures decoded.Err? ==> r == Err(DecodeFailed(DecodePartial(decoded.error)))
    ensures decoded.Ok? && size < 16 ==> r == Err(SlicePanic(size))
    ensures r.Ok? <==> decoded.Ok? && size >= 16
    ensures r.Ok? ==>
      ToBeBytes(Lexify(r.value.value)) == (decoded.value + Zeros(size - |decoded.value|))[..16]
  {
    match decoded
    case Err(kind) => Err(DecodeFailed(DecodePartial(kind)))
    case Ok(written) =>
      if size < 16 then Err(SlicePanic(size))
      else
        FromLexifiedPrefixBytes(written + Zeros(size - |written|));
        Ok(LexicalBase32Hex(FromLexifiedPrefix(written + Zeros(size - |written|))))
  }

  /**
   * When the base32hex `visit_str` fails: a length that is not a multiple
   * of 8 and a bad block are errors, and fewer than 32 characters (a
   * buffer under 16 bytes) panic; every other input gives a value.
   */
  lemma Base32VisitCases(v: string)
    ensures |v| % 8 != 0 ==> Base32Visit(v) == Err(LengthError(Base32Hex.Length))
    ensures |v| % 8 == 0 && Base32Hex.DecodeBlocks(v).Err? ==>
      Base32Visit(v) == Err(DecodeFailed(DecodePartial(Base32Hex.DecodeBlocks(v).error)))
    ensures |v| % 8 == 0 && Base32Hex.DecodeBlocks(v).Ok? && |v| < 32 ==>
      Base32Visit(v) == Err(SlicePanic(|v| / 8 * 5))
    ensures Base32Visit(v).Ok? <==> |v| % 8 == 0 && Base32Hex.DecodeBlocks(v).Ok? && |v| >= 32
  {
    if |v| % 8 != 0 {
      assert Base32Hex.DecodeLen(|v|) == Err(Base32Hex.Length);
      assert Base32Visit(v) == Err(LengthError(Base32Hex.Length));
    } else {
      var size := |v| / 8 * 5;
      assert Base32Hex.DecodeLen(|v|) == Ok(size);
      assert size < 16 <==> |v| < 32;
      match Base32Hex.DecodeBlocks(v)
      case Err(kind) =>
        assert Base32Visit(v) == Err(DecodeFailed(DecodePartial(kind)));
      case Ok(written) =>
        if size < 16 {
          assert Base32Visit(v) == Err(SlicePanic(size));
        } else {
          assert Base32Visit(v).Ok?;
        }
    }
  }

  /** A length that is not a multiple of 8 fails before any buffer exists. */
  lemma Base32VisitSplit(v: string)
    ensures |v| % 8 != 0 ==> Base32Visit(v) == Err(LengthError(Base32Hex.Length))
    ensures |v| % 8 == 0 ==> Base32Visit(v) == ReadBuffer(Base32Hex.DecodeBlocks(v), Base32Hex.DecodeLen(|v|).value)
  {
  }

  /** `b.copy_from_slice(src)` into a buffer of the same length. */
  method CopyFromSlice(b: array<byte>, src: seq<byte>)
    requires b.Length == |src|
    modifies b
    ensures b[..] == src
  {
    for i := 0 to |src|
      invariant b[..i] == src[..i]
    {
      b[i] := src[i];
    }
  }

  /** The body of `LexicalHexVisitor::visit_str`, with its 16-byte buffer. */
  method VisitHexStr(v: string) returns (r: Result<LexicalHex, VisitError>)
    ensures r == HexVisit(v)
  {
    var decoded := Hex.Decode(v);
    if decoded.Err? {
      return Err(HexError(decoded.error));
    }
    var bytes := decoded.value;
    if |bytes| < 16 {
      return Err(SlicePanic(|bytes|));
    }
    var b := new byte[16](_ => 0);
    CopyFromSlice(b, bytes[..16]);
    var n := FromBeBytes(b[..]);
    return Ok(LexicalHex(Delexify(n)));
  }

  /** The body of `Base32HexVisitor::visit_str`, with its zero-filled buffer. */
  method VisitBase32Str(v: string) returns (r: Result<LexicalBase32Hex, VisitError>)
    ensures r == Base32Visit(v)
  {
    var size := Base32Hex.DecodeLen(|v|);
    if size.Err? {
      return Err(LengthError(size.error));
    }
    var output := new byte[size.value](_ => 0);
    ghost var zeros := output[..];
    assert zeros == Zeros(size.value);
    var written := Base32Hex.DecodeMut(v, output);
    if written.Err? {
      return Err(DecodeFailed(DecodePartial(written.error)));
    }
    ghost var decoded := Base32Hex.DecodeBlocks(v).value;
    ZerosSuffix(size.value, written.value);
    assert output[..] == decoded + Zeros(size.value - |decoded|);
    if output.Length < 16 {
      return Err(SlicePanic(output.Length));
    }
    Base32VisitOk(v, output[..]);
    var b := new byte[16](_ => 0);
    CopyFromSlice(b, output[..16]);
    var n := FromBeBytes(b[..]);
    return Ok(LexicalBase32Hex(Delexify(n)));
  }

  lemma ZerosSuffix(n: nat, k: nat)
    requires k <= n
    ensures Zeros(n)[k..] == Zeros(n - k)
  {
  }

  /** The value `visit_str` reads from a buffer holding the decoded bytes and the zero fill. */
  lemma Base32VisitOk(v: string, output: seq<byte>)
    requires Base32Hex.DecodeLen(|v|).Ok? && Base32Hex.DecodeBlocks(v).Ok?
    requires |output| == Base32Hex.DecodeLen(|v|).value >= 16
    requires output == Base32Hex.DecodeBlocks(v).value + Zeros(|output| - |Base32Hex.DecodeBlocks(v).value|)
    ensures Base32Visit(v) == Ok(LexicalBase32Hex(Delexify(FromBeBytes(output[..16]))))
  {
    assert Base32Hex.DecodeLen(|v|) == Ok(|output|);
    Base32VisitSplit(v);
    ReadBufferOk(Base32Hex.DecodeBlocks(v), output);
  }

  lemma ReadBufferOk(decoded: Result<seq<byte>, Base32Hex.DecodeKind>, output: seq<byte>)
    requires decoded.Ok? && |decoded.value| <= |output| && |output| >= 16
    requires output == decoded.value + Zeros(|output| - |decoded.value|)
    ensures ReadBuffer(decoded, |output|) == Ok(LexicalBase32Hex(Delexify(FromBeBytes(output[..16]))))
  {
  }

  /** Deserializing the serialized form gives the value back. */
  lemma HexRoundTrip(h: LexicalHex)
    ensures HexVisit(HexSerialize(h)) == Ok(h)
  {
    var bytes := ToBeBytes(Lexify(h.value));
    HexSerializeDecodes(h);
    assert bytes[..16] == bytes;
    LexifyOrder(HexVisit(HexSerialize(h)).value.value, h.value);
  }

  /**
   * The lowercase 32-digit strings `visit_str` accepts are exactly the
   * serialized forms: each one is the serialization of what it decodes to.
   */
  lemma HexCanonical(v: string)
    requires |v| == 32 && forall i :: 0 <= i < |v| ==> Hex.IsLowerDigit(v[i])
    requires HexVisit(v).Ok?
    ensures HexSerialize(HexVisit(v).value) == v
  {
    var bytes := Hex.Decode(v).value;
    assert bytes[..16] == bytes;
    Hex.EncodeDecode(v, bytes);
  }

  lemma Base32RoundTrip(x: LexicalBase32Hex)
    ensures Base32Visit(Base32Serialize(x)) == Ok(x)
  {
    var s := Base32Serialize(x);
    var bytes := ToBeBytes(Lexify(x.value));
    Base32SerializeDecodes(x);
    assert Base32Hex.DecodeBlocks(s) == Ok(bytes);
    assert Base32Hex.DecodeLen(32) == Ok(20);
    Base32VisitSplit(s);
    assert (bytes + Zeros(20 - 16))[..16] == bytes;
    LexifyOrder(Base32Visit(s).value.value, x.value);
  }

  /**
   * The base32hex strings of 26 symbols and `======` that `visit_str`
   * accepts are exactly the serialized forms: each one is the
   * serialization of the value it gives.
   */
  lemma Base32Canonical(v: string)
    requires |v| == 32 && v[26..] == "======" && forall i :: 0 <= i < 26 ==> Base32Hex.IsSymbol(v[i])
    requires Base32Visit(v).Ok?
    ensures Base32Serialize(Base32Visit(v).value) == v
  {
    var b := Base32Hex.DecodeBlocks(v).value;
    assert Base32Hex.Decode(v) == Ok(b);
    Base32Hex.Decode16Canonical(v);
    assert (b + Zeros(|v| / 8 * 5 - |b|))[..16] == b;
  }

  /** Serialized forms compare as strings like the counts they carry. */
  lemma HexOrder(a: LexicalHex, b: LexicalHex)
    ensures a.value < b.value <==> StrLess(HexSerialize(a), HexSerialize(b))
  {
    LexifyOrder(a.value, b.value);
    Hex.EncodeOrder(ToBeBytes(Lexify(a.value)), ToBeBytes(Lexify(b.value)));
  }

  lemma Base32Order(a: LexicalBase32Hex, b: LexicalBase32Hex)
    ensures a.value < b.value <==> StrLess(Base32Serialize(a), Base32Serialize(b))
  {
    LexifyOrder(a.value, b.value);
    Base32Hex.EncodeOrder(ToBeBytes(Lexify(a.value)), ToBeBytes(Lexify(b.value)));
  }

  /** Through `From<Geotime>`, string order of either form is time order. */
  lemma GeotimeOrder(a: Geotime, b: Geotime)
    ensures a.ms < b.ms <==> StrLess(HexSerialize(HexFromGeotime(a)), HexSerialize(HexFromGeotime(b)))
    ensures a.ms < b.ms <==> StrLess(Base32Serialize(Base32FromGeotime(a)), Base32Serialize(Base32FromGeotime(b)))
  {
    HexOrder(HexFromGeotime(a), HexFromGeotime(b));
    Base32Order(Base32FromGeotime(a), Base32FromGeotime(b));
  }

  /**
   * The intended hex decoding: the payload must be exactly 16 bytes;
   * it never panics and never ignores input.
   */
  function HexVisitExact(v: string): (r: Result<LexicalHex, VisitError>)
    ensures r.Err? ==> !r.error.SlicePanic?
    ensures r.Ok? ==> Hex.Decode(v) == Ok(ToBeBytes(Lexify(r.value.value)))
  {
    match Hex.Decode(v)
    case Err(e) => Err(HexError(e))
    case Ok(bytes) =>
      if |bytes| != 16 then Err(WrongLength(|bytes|))
      else
        assert bytes[..16] == bytes;
        FromLexifiedPrefixBytes(bytes);
        Ok(LexicalHex(FromLexifiedPrefix(bytes)))
  }

  /** The intended decoding accepts a string exactly when it decodes to the bytes of the value. */
  lemma HexVisitExactDecodes(v: string, h: LexicalHex)
    ensures HexVisitExact(v) == Ok(h) <==> Hex.Decode(v) == Ok(ToBeBytes(Lexify(h.value)))
  {
    if Hex.Decode(v) == Ok(ToBeBytes(Lexify(h.value))) {
      LexifyOrder(HexVisitExact(v).value.value, h.value);
    }
  }

  /**
   * The intended base32hex decoding: the input must decode to exactly 16
   * bytes; the written length is checked instead of reading the zero fill.
   */
  function Base32VisitExact(v: string): (r: Result<LexicalBase32Hex, VisitError>)
    ensures r.Err? ==> !r.error.SlicePanic?
    ensures r.Ok? ==> Base32Hex.Decode(v) == Ok(ToBeBytes(Lexify(r.value.value)))
  {
    match Base32Hex.DecodeLen(|v|)
    case Err(e) => Err(LengthError(e))
    case Ok(size) =>
      match Base32Hex.DecodeBlocks(v)
      case Err(kind) => Err(DecodeFailed(DecodePartial(kind)))
      case Ok(written) =>
        if |written| != 16 then Err(WrongLength(|written|))
        else
          assert written[..16] == written;
          FromLexifiedPrefixBytes(written);
          Ok(LexicalBase32Hex(FromLexifiedPrefix(written)))
  }

  lemma Base32VisitExactDecodes(v: string, x: LexicalBase32Hex)
    ensures Base32VisitExact(v) == Ok(x) <==> Base32Hex.Decode(v) == Ok(ToBeBytes(Lexify(x.value)))
  {
    if Base32Hex.Decode(v) == Ok(ToBeBytes(Lexify(x.value))) {
      LexifyOrder(Base32VisitExact(v).value.value, x.value);
    }
  }

  /** The exact decoders give back every serialized value. */
  lemma ExactRoundTrips(h: LexicalHex, x: LexicalBase32Hex)
    ensures HexVisitExact(HexSerialize(h)) == Ok(h)
    ensures Base32VisitExact(Base32Serialize(x)) == Ok(x)
  {
    HexSerializeDecodes(h);
    HexVisitExactDecodes(HexSerialize(h), h);
    Base32SerializeDecodes(x);
    Base32VisitExactDecodes(Base32Serialize(x), x);
  }
}
