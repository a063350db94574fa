# geotime, modelled in Dafny

`geotime` represents a point in geological or historical time as
`Geotime(i128)`. The `i128` is a signed count of milliseconds since
1970-01-01T00:00:00Z. The count has two text forms whose string order is
time order:

- `LexicalHex`: 32 lowercase hex digits.
- `LexicalBase32Hex`: 26 base32hex symbols followed by `======`.

Both forms start the same way. The count is *lexified*: its sign bit is
flipped, so that the 16 big-endian bytes of the result, read unsigned,
compare like the signed count. Those bytes are then encoded with the `hex`
crate or with the `BASE32HEX` encoding of `data_encoding`. Deserializing
decodes the text, copies the first 16 bytes of the payload into a fixed
buffer, and flips the sign bit back.

The project has these modules:

- `Digits`: big-endian digit strings in any base (`ToNat`, `FromNat`) and
  the lexicographic order that string comparison uses.
- `Ints`: Rust's signed integer widths as bounded integers, the
  two's-complement bit pattern, and `i128::to_be_bytes`/`from_be_bytes`.
- `Hex`: the `hex` crate's `encode` and `decode` (section 8 of RFC 4648;
  lowercase output, input accepted in either case).
- `Base32Hex`: `data_encoding::BASE32HEX` (section 7 of RFC 4648, padded,
  canonical trailing bits). It covers `encode`, `decode_len`, `decode`, and
  `decode_mut` into a caller's buffer.
- `Geotime`: the crate root. It holds the error kinds, the `From`
  conversions and `timestamp_millis`. The datatype `Geotime.Geotime`
  is the struct `Geotime(i128)` of src/lib.rs:25-26, and
  `Geotime.Error` is the `quick_error!` enum of src/lib.rs:10-21.
- `Ser`: `lexify`/`delexify`, both `Serialize` bodies and both `visit_str`
  bodies. It also has the exact decoders that the code evidently intends.
- `SerExamples`: the serialized forms that the crate's tests expect.
- `Findings`: inputs on which the `visit_str` bodies, as written, accept
  text that is no serialization, or panic.

The `visit_str` bodies are imperative in the source. They fill a zeroed
`[u8; 16]` with `copy_from_slice`, and the base32hex one also fills a
`vec![0; size]` through `decode_mut`. They are modelled as methods over
arrays (`VisitHexStr`, `VisitBase32Str`). Each method is proved equal to a
function that states what the code does (`HexVisit`, `Base32Visit`). All
other properties are proved about those functions.

Both `visit_str` bodies read the first 16 bytes of the decoded payload
without checking its length. The hex one slices `bytes[0..16]`
(src/ser.rs:52). The base32hex one ignores the count that `decode_mut`
returns (src/ser.rs:107-110) and slices its zero-filled buffer
(src/ser.rs:113). The base32hex output is padded: the crate's tests expect
26 symbols and `======` (src/ser.rs:163-167). The model follows the code.
The code itself points to exactly 16 bytes as the intended payload: the
value is read through a `[u8; 16]` buffer, and `from_be_bytes` takes
exactly 16 bytes. Decoders that check for exactly 16 bytes are modelled
separately in `HexVisitExact` and `Base32VisitExact`; see "Findings".

## Model

| member | source | states |
|---|---|---|
| Ser.FlipSignBit | src/ser.rs:9-15 | XOR with `1 << 127` flips bit 127 of the two's-complement pattern and keeps the 127 bits below it |
| Ser.Lexify | src/ser.rs:9-11 | the lexified pattern, read unsigned, is the count plus 2^127, so the most negative count maps to all zero bits |
| Ser.Delexify | src/ser.rs:13-15 | reading a lexified pattern back gives its unsigned value minus 2^127 |
| Ser.LexifyInvolution | src/ser.rs:9-15 | flipping twice is the identity: `delexify(lexify(n)) == n` and `lexify(delexify(n)) == n` for every `i128` |
| Ser.LexifyOrder | src/ser.rs:9-11 | `a < b` exactly when the big-endian bytes of `lexify(a)` are lexicographically less than those of `lexify(b)`; equal counts are exactly those with equal bytes |
| Ints.FromBits | src/ser.rs:53 | the signed reading of a 128-bit pattern has that pattern |
| Ints.FromBitsBits | src/ser.rs:53 | reading the pattern of `n` back gives `n` |
| Ints.BitsCongruent | src/ser.rs:32 | the unsigned pattern of `n` is congruent to `n` modulo 2^128 (two's complement) |
| Ints.ToBeBytes | src/ser.rs:32 | `to_be_bytes` gives exactly 16 bytes, most significant first, spelling the unsigned pattern |
| Ints.FromBeBytes | src/ser.rs:53 | `from_be_bytes` gives the count whose pattern is the unsigned value of the 16 bytes |
| Ints.BeBytesRoundTrip | src/ser.rs:32 | reading back the bytes of a count gives the count |
| Ints.BeBytesRoundTripBack | src/ser.rs:53 | every 16-byte string is the rendering of the count it reads as |
| Digits.LexOrder | src/ser.rs:31-32 | for digit strings of one width, lexicographic order is numeric order |
| Hex.Encode | src/ser.rs:32 | `hex::encode` writes two lowercase digits per byte |
| Hex.EncodeAppend | src/ser.rs:32 | encoding distributes over concatenation of byte strings |
| Hex.Decode | src/ser.rs:50 | `hex::decode` fails with `OddLength` exactly for odd lengths, succeeds exactly when every character is a hex digit of either case, names the first offending character otherwise, and gives half as many bytes as characters |
| Hex.DecodeValues | src/ser.rs:50 | for input of either case, decoded byte `i` is the value of digit `2i` times 16 plus the value of digit `2i + 1` |
| Hex.DecodePairs | src/ser.rs:50 | decoding the pairs fails exactly when a character is not a hex digit, and reports the first such character and its index |
| Hex.DecodeEncode | src/ser.rs:32-50 | decoding an encoding gives back the bytes |
| Hex.EncodeDecode | src/ser.rs:50 | a lowercase input that decodes is the encoding of what it decodes to |
| Hex.EncodeByteOrder | src/ser.rs:32 | the two digits of a byte compare as strings like the byte |
| Hex.EncodeOrder | src/ser.rs:31-32 | encodings of byte strings of one length compare as strings like the byte strings |
| Base32Hex.SymbolValue | src/ser.rs:108 | a character has a 5-bit value exactly when it is in `0-9A-V`, and the symbol of that value is the character |
| Base32Hex.SymbolValues | src/ser.rs:108 | a string has symbol values exactly when all its characters are symbols, and spelling the values gives the string back |
| Base32Hex.SpellOrder | src/ser.rs:83 | spelling 5-bit values keeps lexicographic order, since `0-9A-V` is in ASCII order |
| Base32Hex.PadCount | src/ser.rs:108 | the count of the final run of `=` |
| Base32Hex.BlockGeometry | src/ser.rs:83 | a block of 1 to 5 bytes takes 2, 4, 5, 7 or 8 symbols, and its bytes shifted by the fill bits exactly fill those symbols |
| Base32Hex.BlockDigits | src/ser.rs:83 | the symbol values of a block, one per 5 bits of the bytes followed by zero fill bits |
| Base32Hex.BlockDigitsValue | src/ser.rs:83 | the symbols of a block spell the value of its bytes followed by the fill bits |
| Base32Hex.EncodeBlock | src/ser.rs:83 | a block encodes as exactly 8 characters |
| Base32Hex.Encode | src/ser.rs:83 | `BASE32HEX.encode` writes 8 characters per started 5-byte block |
| Base32Hex.BlockBytes | src/ser.rs:108 | the symbols of a block, when accepted, carry 1 to 5 bytes, as many as fit whole in their bits |
| Base32Hex.BlockBytesValue | src/ser.rs:108 | the bytes found, shifted back by the fill bits, are the symbols' value |
| Base32Hex.BlockBytesCanonical | src/ser.rs:108 | what `BlockBytes` accepts is exactly what `BlockDigits` produces |
| Base32Hex.BlockBytesDigits | src/ser.rs:83-108 | the symbols of a block decode to the block |
| Base32Hex.DecodeBlock | src/ser.rs:108 | an accepted 8-character block yields 1 to 5 bytes |
| Base32Hex.DecodeBlocks | src/ser.rs:108 | a decoded input of `n` characters yields between `n/8` and `5n/8` bytes; which inputs it accepts, and what they decode to, is `DecodeBlocksByBlock` |
| Base32Hex.DecodeBlocksByBlock | src/ser.rs:107-108 | an input whose length is a multiple of 8 decodes exactly when every 8-character block decodes, and then to the blocks' bytes joined in order, so a bad symbol, bad padding or set fill bits in any block reject it |
| Base32Hex.Decode | src/ser.rs:102-108 | a length that is not a multiple of 8 fails with `Length`; otherwise the input decodes exactly when every block does, to the blocks' bytes joined in order |
| Base32Hex.DecodeLen | src/ser.rs:102-104 | `decode_len` succeeds exactly for lengths that are a multiple of 8, with 5 bytes per 8 characters, and fails with `Length` otherwise |
| Base32Hex.WriteAt | src/ser.rs:107-108 | writing decoded bytes to the front of the buffer leaves the rest of the buffer unchanged |
| Base32Hex.DecodeMut | src/ser.rs:107-110 | `decode_mut` returns the error of the first bad block, or else writes the decoded bytes at the front of the buffer, keeps the rest, and returns the number written |
| Base32Hex.DecodeEncodeBlock | src/ser.rs:83-108 | decoding an encoded block gives the block back |
| Base32Hex.EncodeDecodeBlock | src/ser.rs:108 | an accepted block is the canonical encoding of the bytes it decodes to |
| Base32Hex.EncodeBlockOrder | src/ser.rs:83 | blocks of one size encode in the order of their bytes, and distinct blocks encode distinctly |
| Base32Hex.DecodeEncode | src/ser.rs:83-108 | decoding the encoding of any byte string gives it back |
| Base32Hex.EncodeOrder | src/ser.rs:82-83 | encodings of byte strings of one length compare as strings like the byte strings |
| Base32Hex.Encode16Shape | src/ser.rs:83 | 16 bytes encode as 26 symbols followed by `======` |
| Base32Hex.DecodeBlocksCons | src/ser.rs:108 | blocks decode independently and their bytes are joined |
| Base32Hex.Decode16Canonical | src/ser.rs:83-108 | an accepted input of 26 symbols and `======` decodes to 16 bytes and is their encoding |
| Geotime.FromI32 | src/lib.rs:28-32 | `From<i32>` sign-extends: the low 32 bits are those of `n`, and the 96 bits above are copies of its sign |
| Geotime.FromI64 | src/lib.rs:34-38 | `From<i64>` sign-extends: the low 64 bits are those of `n`, and the 64 bits above are copies of its sign |
| Geotime.FromI128 | src/lib.rs:40-44 | `From<i128>` keeps the bit pattern |
| Geotime.TimestampMillis | src/lib.rs:52-56 | succeeds exactly for counts in the `i64` range, with a value that widens back to the time, and fails with `TryFromInt` otherwise |
| Geotime.WideningAgrees | src/lib.rs:28-44 | widening an `i32` through any of the three conversions gives the same time |
| Geotime.NarrowingInverse | src/lib.rs:34-56 | `Geotime::from(n).timestamp_millis() == Ok(n)` for every `i64` |
| Ser.HexFromGeotime | src/ser.rs:20-24 | the count is carried unchanged, so the hex form of the result decodes to the time's lexified bytes |
| Ser.Base32FromGeotime | src/ser.rs:71-75 | the count is carried unchanged, so the base32hex form of the result decodes to the time's lexified bytes |
| Ser.HexSerialize | src/ser.rs:26-35 | the hex form is 32 lowercase hex digits |
| Ser.HexSerializeDecodes | src/ser.rs:31-32 | the hex form decodes to the 16 lexified bytes |
| Ser.Base32Serialize | src/ser.rs:77-86 | the base32hex form is 26 symbols from `0-9A-V` and then `======`, 32 characters |
| Ser.Base32SerializeDecodes | src/ser.rs:82-83 | the base32hex form decodes to the 16 lexified bytes |
| Ser.FromLexifiedPrefixBytes | src/ser.rs:52-54 | the count read from a payload has the payload's first 16 bytes as its lexified bytes |
| Ser.HexVisit | src/ser.rs:46-56 | hex `visit_str` as written: a decode error is returned, a payload under 16 bytes panics, and otherwise the value has the first 16 payload bytes as its lexified bytes |
| Ser.Zeros | src/ser.rs:105 | `vec![0; size]` is `size` zero bytes |
| Ser.Base32Visit | src/ser.rs:97-117 | base32hex `visit_str` as written: a length that is not a multiple of 8 fails with `Length`, and a value comes back exactly when the length is a multiple of 8, at least 32, and every block decodes |
| Ser.ReadBuffer | src/ser.rs:105-116 | after `decode_mut`: its error is returned, a buffer under 16 bytes panics, and otherwise the value's lexified bytes are the first 16 of the written bytes followed by the zero fill |
| Ser.Base32VisitCases | src/ser.rs:97-117 | base32hex `visit_str` as written: a length that is not a multiple of 8 and a bad block are errors, a buffer under 16 bytes panics, and every other input gives a value |
| Ser.Base32VisitSplit | src/ser.rs:101-110 | the length is checked before any buffer exists, and then the buffer is read |
| Ser.CopyFromSlice | src/ser.rs:52 | `copy_from_slice` fills the 16-byte buffer with the slice |
| Ser.VisitHexStr | src/ser.rs:46-56 | the imperative hex `visit_str` computes `HexVisit` |
| Ser.VisitBase32Str | src/ser.rs:97-117 | the imperative base32hex `visit_str`, with its zero-filled buffer and `decode_mut`, computes `Base32Visit` |
| Ser.Base32VisitOk | src/ser.rs:112-116 | the value read from a buffer holding the decoded bytes and zero fill is the one `Base32Visit` gives |
| Ser.HexRoundTrip | src/ser.rs:31-55 | deserializing the hex form of any value gives the value back |
| Ser.HexCanonical | src/ser.rs:50-55 | every 32-digit lowercase string the hex `visit_str` accepts is the hex form of what it decodes to |
| Ser.Base32Canonical | src/ser.rs:101-116 | every string of 26 symbols and `======` that the base32hex `visit_str` accepts is the base32hex form of the value it gives |
| Ser.Base32RoundTrip | src/ser.rs:82-116 | deserializing the base32hex form of any value gives the value back |
| Ser.HexOrder | src/ser.rs:31-32 | hex forms compare as strings like the counts they carry |
| Ser.Base32Order | src/ser.rs:82-83 | base32hex forms compare as strings like the counts they carry |
| Ser.GeotimeOrder | src/ser.rs:20-86 | through `From<Geotime>`, string order of either form is time order |
| Ser.HexVisitExact | src/ser.rs:50-55 | the intended hex decoding never panics, and a value it gives is what the input decodes to |
| Ser.HexVisitExactDecodes | src/ser.rs:50-55 | the intended hex decoding gives `h` exactly when the input decodes to the 16 lexified bytes of `h` |
| Ser.Base32VisitExact | src/ser.rs:101-116 | the intended base32hex decoding never panics, and a value it gives is what the input decodes to |
| Ser.Base32VisitExactDecodes | src/ser.rs:101-116 | the intended base32hex decoding gives `x` exactly when the input decodes to the 16 lexified bytes of `x` |
| Ser.ExactRoundTrips | src/ser.rs:26-117 | the intended decoders give back every serialized value |
| SerExamples.SmallLexifiedBytes | src/ser.rs:31-32 | a count near zero lexifies to `0x80` or `0x7f`, fourteen filler bytes and its low byte |
| SerExamples.HexOfSmall | src/ser.rs:31-32 | the hex form of a count near zero is its top byte, 28 filler digits and its low byte |
| SerExamples.HexExamples | src/ser.rs:145-149 | -100, -1, 0, 1 and 100 serialize to the five hex strings the crate's test expects |
| SerExamples.FillerBlock | src/ser.rs:83 | a full block of zero bytes spells `00000000`, and one of `0xff` bytes spells `VVVVVVVV` |
| SerExamples.LeadBlock | src/ser.rs:83 | the first block of a count near zero spells `G0000000` or `FVVVVVVV` |
| SerExamples.LastBlock | src/ser.rs:83 | the final one-byte block is two symbols and six `=` |
| SerExamples.Base32OfSmall | src/ser.rs:82-83 | the base32hex form of a count near zero, block by block |
| SerExamples.Base32Examples | src/ser.rs:163-167 | -100, -1, 0, 1 and 100 serialize to the five base32hex strings the crate's test expects |
| Findings.HexTrailingIgnored | src/ser.rs:50-52 | any hex form followed by `ff` is accepted as that value, while the exact decoder reports 17 bytes |
| Findings.HexShortPanics | src/ser.rs:52 | `"00"` makes the hex `visit_str` panic on `[0..16]`, while the exact decoder returns an error |
| Findings.FourZeroBlocks | src/ser.rs:107-108 | four blocks `00======` are accepted and decode to four zero bytes |
| Findings.Base32ZeroFillRead | src/ser.rs:105-115 | four blocks `00======` deserialize to the smallest count, read from the zero fill, while the exact decoder reports 4 bytes |
| Findings.SerializedThen | src/ser.rs:83-108 | a base32hex form followed by further accepted blocks decodes to the 16 lexified bytes followed by those blocks' bytes |
| Findings.Base32TrailingIgnored | src/ser.rs:107-113 | any base32hex form followed by `00======` is accepted as that value, while the exact decoder reports 17 bytes |
| Findings.Base32ShortPanics | src/ser.rs:105-113 | `"00000000"` makes the base32hex `visit_str` panic on `[0..16]` of a 5-byte buffer |

## Left out

- `From<&DateTime<Utc>>` (src/lib.rs:46-50) and the `chrono` test are not modelled. They need the `chrono` calendar library. `NarrowingInverse` covers the property that test checks for a given `i64` millisecond value.
- The serde plumbing is not modelled. This covers the `Serializer`, `Deserializer` and `Visitor` traits, `deserialize_string`, the `expecting` messages and `serialize_str`. Each `Serialize` body is modelled as the string it passes on, and each `visit_str` as its result.
- `de::Error::custom` is not modelled. An error that `visit_str` returns is kept as its kind (`VisitError`), not as the message text.
- `quick_error!` and its `From` conversions are not modelled. `Error::DecodePartial` holds the `data_encoding` error kind instead of its `Debug` text, and `Error::TryFromInt` holds no payload.
- Panics are not modelled as panics. A panic of `[0..16]` is modelled as the value `SlicePanic(len)`, so its cause can be stated and proved.
- The position inside a `data_encoding::DecodeError` is not modelled; only its kind is kept. When `decode_mut` fails, the bytes it had already written into the buffer are not modelled either. The caller discards that buffer in either case.
- Base32Hex.DecodeMut: the block loop inside `data_encoding` is not modelled as a loop. The method writes what `DecodeBlocks` yields, in one copy.
- `v.as_bytes()` is not modelled. Strings are sequences of characters, so a non-ASCII character counts as one position instead of its UTF-8 byte count. Such a character is refused as a symbol either way, but the length check is counted in characters.
- The `Debug`, `Clone` and `Copy` derives are not modelled. Derived `PartialEq`/`Eq` on `Geotime`, `LexicalHex` and `LexicalBase32Hex` is datatype equality of the wrapped count.

## Findings

| source | as written | input that shows it | evidently intended | confidence | as-written member | corrected member |
|---|---|---|---|---|---|---|
| src/ser.rs:50-52 | the hex `visit_str` copies `bytes[0..16]`, so a longer payload is cut to its first 16 bytes and accepted | the hex form of any value followed by `ff` (17 bytes) | accept only payloads of exactly 16 bytes, and report others as an error | high (proved; not executed) | Findings.HexTrailingIgnored | Ser.HexVisitExactDecodes |
| src/ser.rs:52 | a hex payload under 16 bytes makes `[0..16]` panic instead of returning an error | `"00"` | return a decode error | high (proved; not executed) | Findings.HexShortPanics | Ser.HexVisitExact |
| src/ser.rs:105-113 | the base32hex `visit_str` ignores how many bytes `decode_mut` wrote and reads the first 16 bytes of the zero-filled `decode_len` buffer | `00======` four times (4 decoded bytes in a 20-byte buffer) deserializes to the smallest count | use the written length, and accept only exactly 16 bytes | high (proved; not executed) | Findings.Base32ZeroFillRead | Ser.Base32VisitExactDecodes |
| src/ser.rs:107-113 | the base32hex `visit_str` copies `output[0..16]`, so blocks after the first 16 decoded bytes are decoded and then ignored | the base32hex form of any value followed by `00======` (17 bytes in a 25-byte buffer) | accept only payloads of exactly 16 bytes, and report others as an error | high (proved; not executed) | Findings.Base32TrailingIgnored | Ser.Base32VisitExactDecodes |
| src/ser.rs:105-113 | an input of fewer than 32 characters gives a buffer under 16 bytes, and `[0..16]` panics | `"00000000"` | return a decode error | high (proved; not executed) | Findings.Base32ShortPanics | Ser.Base32VisitExact |
