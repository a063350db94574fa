/**
 * Base 16 (section 8 of RFC 4648) as the `hex` crate implements it:
 * `encode` writes two lowercase digits per byte, high nibble first;
 * `decode` accepts digits of either case, refuses an odd length first
 * and otherwise names the first character that is not a hex digit.
 */
module Hex {
  import opened Wrappers
  import opened Digits
  import opened Ints

  const LOWER_ALPHABET: string := "0123456789abcdef"

  /** The lowercase symbol of a 4-bit value. */
  function Symbol(d: int): (c: char)
    requires 0 <= d < 16
  {
    if d < 10 then ('0' as int + d) as char else ('a' as int + d - 10) as char
  }

  lemma AlphabetIsSymbols()
    ensures forall d :: 0 <= d < 16 ==> LOWER_ALPHABET[d] == Symbol(d)
  {
  }

  predicate IsLowerDigit(c: char) {
    '0' <= c <= '9' || 'a' <= c <= 'f'
  }

  /** The value of a hex digit of either case; `None` for any other character. */
  function Value(c: char): (r: Option<int>)
    ensures r.Some? ==> 0 <= r.value < 16
  {
    if '0' <= c <= '9' then Some(c as int - '0' as int)
    else if 'a' <= c <= 'f' then Some(c as int - 'a' as int + 10)
    else if 'A' <= c <= 'F' then Some(c as int - 'A' as int + 10)
    else None
  }

  /** Symbols are ordered like the values they stand for. */
  lemma SymbolOrder(d: int, e: int)
    requires 0 <= d < 16 && 0 <= e < 16
    ensures d < e <==> Symbol(d) < Symbol(e)
    ensures Value(Symbol(d)) == Some(d)
  {
  }

  /** A lowercase digit is the symbol of its value. */
  lemma SymbolOfValue(c: char)
    requires IsLowerDigit(c)
    ensures Value(c).Some? && Symbol(Value(c).value) == c
  {
  }

  function EncodeByte(b: byte): (s: string)
    ensures |s| == 2
  {
    [Symbol(b / 16), Symbol(b % 16)]
  }

  /** `hex::encode`. */
  function Encode(bytes: seq<byte>): (s: string)
    ensures |s| == 2 * |bytes|
    ensures forall i :: 0 <= i < |s| ==> IsLowerDigit(s[i])
  {
    if |bytes| == 0 then "" else EncodeByte(bytes[0]) + Encode(bytes[1..])
  }

  /** Encoding works byte by byte, so it distributes over concatenation. */
  lemma {:induction false} EncodeAppend(a: seq<byte>, b: seq<byte>)
    ensures Encode(a + b) == Encode(a) + Encode(b)
  {
    if |a| == 0 {
      assert a + b == b;
    } else {
      assert (a + b)[1..] == a[1..] + b;
      EncodeAppend(a[1..], b);
    }
  }

  /** A run of a byte whose two nibbles agree encodes as a run of one symbol. */
  lemma {:induction false} EncodeRep(k: nat, x: byte)
    requires x / 16 == x % 16
    ensures forall i :: 0 <= i < 2 * k ==> Encode(Rep(k, x))[i] == Symbol(x % 16)
  {
    if k > 0 {
      assert Rep(k, x)[1..] == Rep(k - 1, x);
      EncodeRep(k - 1, x);
    }
  }

  /** The errors of `hex::decode` (`hex::FromHexError`). */
  datatype FromHexError = OddLength | InvalidHexCharacter(c: char, index: nat)

  /**
   * Decodes the pairs of `s`, which stands at position `offset` of the
   * whole input; fails on the first character that is not a hex digit.
   */
  function DecodePairs(s: string, offset: nat): (r: Result<seq<byte>, FromHexError>)
    requires |s| % 2 == 0
    ensures r.Ok? <==> forall j :: 0 <= j < |s| ==> Value(s[j]).Some?
    ensures r.Ok? ==> 2 * |r.value| == |s|
    ensures r.Err? ==>
      && r.error.InvalidHexCharacter?
      && offset <= r.error.index < offset + |s|
      && s[r.error.index - offset] == r.error.c
      && Value(r.error.c).None?
      && forall j :: 0 <= j < r.error.index - offset ==> Value(s[j]).Some?
    decreases |s|
  {
    if |s| == 0 then Ok([])
    else
      match (Value(s[0]), Value(s[1]))
      case (None, _) => Err(InvalidHexCharacter(s[0], offset))
      case (Some(_), None) => Err(InvalidHexCharacter(s[1], offset + 1))
      case (Some(hi), Some(lo)) =>
        match DecodePairs(s[2..], offset + 2)
        case Err(e) => Err(e)
        case Ok(rest) => Ok([hi * 16 + lo] + rest)
  }

  /** `hex::decode`. */
  function Decode(s: string): (r: Result<seq<byte>, FromHexError>)
    ensures r == Err(OddLength) <==> |s| % 2 == 1
    ensures r.Ok? <==> |s| % 2 == 0 && forall j :: 0 <= j < |s| ==> Value(s[j]).Some?
    ensures r.Ok? ==> 2 * |r.value| == |s|
    ensures r.Err? && r.error.InvalidHexCharacter? ==>
      && r.error.index < |s| && s[r.error.index] == r.error.c && Value(r.error.c).None?
      && forall j :: 0 <= j < r.error.index ==> Value(s[j]).Some?
  {
    if |s| % 2 == 1 then Err(OddLength) else DecodePairs(s, 0)
  }

  /**
   * What `hex::decode` gives, for input of either case: byte `i` is the
   * value of digit `2i` times 16 plus the value of digit `2i + 1`.
   */
  lemma DecodeValues(s: string, bytes: seq<byte>)
    requires Decode(s) == Ok(bytes)
    ensures forall i :: 0 <= i < |bytes| ==>
      bytes[i] == Value(s[2 * i]).value * 16 + Value(s[2 * i + 1]).value
  {
    DecodePairsValues(s, 0, bytes);
  }

  lemma {:induction false} DecodePairsValues(s: string, offset: nat, bytes: seq<byte>)
    requires |s| % 2 == 0 && DecodePairs(s, offset) == Ok(bytes)
    ensures forall i :: 0 <= i < |bytes| ==>
      bytes[i] == Value(s[2 * i]).value * 16 + Value(s[2 * i + 1]).value
  {
    if |s| > 0 {
      var rest := DecodePairs(s[2..], offset + 2).value;
      assert bytes == [Value(s[0]).value * 16 + Value(s[1]).value] + rest;
      DecodePairsValues(s[2..], offset + 2, rest);
      forall i | 1 <= i < |bytes|
        ensures bytes[i] == Value(s[2 * i]).value * 16 + Value(s[2 * i + 1]).value
      {
        assert bytes[i] == rest[i - 1];
        assert s[2..][2 * (i - 1)] == s[2 * i] && s[2..][2 * (i - 1) + 1] == s[2 * i + 1];
      }
    }
  }

  /** Decoding an encoding gives back the bytes. */
  lemma {:induction false} DecodeEncode(bytes: seq<byte>)
    ensures Decode(Encode(bytes)) == Ok(bytes)
  {
    DecodeEncodePairs(bytes, 0);
  }

  lemma {:induction false} DecodeEncodePairs(bytes: seq<byte>, offset: nat)
    ensures DecodePairs(Encode(bytes), offset) == Ok(bytes)
  {
    if |bytes| > 0 {
      var b := bytes[0];
      var s := Encode(bytes);
      assert s[..2] == EncodeByte(b) && s[2..] == Encode(bytes[1..]);
      SymbolOrder(b / 16, 0);
      SymbolOrder(b % 16, 0);
      DecodeEncodePairs(bytes[1..], offset + 2);
      assert bytes == [b / 16 * 16 + b % 16] + bytes[1..];
    }
  }

  /** A lowercase input that decodes is the encoding of what it decodes to. */
  lemma {:induction false} EncodeDecode(s: string, bytes: seq<byte>)
    requires Decode(s) == Ok(bytes)
    requires forall i :: 0 <= i < |s| ==> IsLowerDigit(s[i])
    ensures Encode(bytes) == s
  {
    EncodeDecodePairs(s, 0, bytes);
  }

  lemma {:induction false} EncodeDecodePairs(s: string, offset: nat, bytes: seq<byte>)
    requires |s| % 2 == 0 && DecodePairs(s, offset) == Ok(bytes)
    requires forall i :: 0 <= i < |s| ==> IsLowerDigit(s[i])
    ensures Encode(bytes) == s
  {
    if |s| > 0 {
      var hi, lo := Value(s[0]).value, Value(s[1]).value;
      SymbolOfValue(s[0]);
      SymbolOfValue(s[1]);
      var rest := DecodePairs(s[2..], offset + 2).value;
      assert bytes == [hi * 16 + lo] + rest;
      EncodeDecodePairs(s[2..], offset + 2, rest);
      assert (hi * 16 + lo) / 16 == hi && (hi * 16 + lo) % 16 == lo;
      assert s == s[..2] + s[2..];
    }
  }

  lemma NibbleOrder(x: byte, y: byte)
    ensures x < y <==> x / 16 < y / 16 || (x / 16 == y / 16 && x % 16 < y % 16)
  {
    if x / 16 < y / 16 {
      LeadingDigitDecides(x / 16, x % 16, y / 16, y % 16, 16);
    } else if x / 16 > y / 16 {
      LeadingDigitDecides(y / 16, y % 16, x / 16, x % 16, 16);
    }
  }

  /** Within one byte: the two symbols compare like the byte. */
  lemma EncodeByteOrder(x: byte, y: byte)
    ensures StrLess(EncodeByte(x), EncodeByte(y)) <==> x < y
    ensures Codes(EncodeByte(x)) == Codes(EncodeByte(y)) <==> x == y
  {
    var cx, cy := Codes(EncodeByte(x)), Codes(EncodeByte(y));
    SymbolOrder(x / 16, y / 16);
    SymbolOrder(y / 16, x / 16);
    SymbolOrder(x % 16, y % 16);
    SymbolOrder(y % 16, x % 16);
    NibbleOrder(x, y);
    assert cx == [Symbol(x / 16) as int, Symbol(x % 16) as int];
    assert cy == [Symbol(y / 16) as int, Symbol(y % 16) as int];
    assert cx[1..] == [cx[1]] && cy[1..] == [cy[1]];
    assert LexLess(cx[1..], cy[1..]) <==> cx[1] < cy[1] by {
      assert [cx[1]][1..] == [] && [cy[1]][1..] == [];
    }
    assert LexLess(cx, cy) <==> cx[0] < cy[0] || (cx[0] == cy[0] && cx[1] < cy[1]);
  }

  /**
   * Encodings of byte strings of one length compare like the byte strings:
   * fixed width and an alphabet in ASCII order make string order byte order.
   */
  lemma {:induction false} EncodeOrder(a: seq<byte>, b: seq<byte>)
    requires |a| == |b|
    ensures LexLess(a, b) <==> StrLess(Encode(a), Encode(b))
  {
    if |a| > 0 {
      var ea, eb := EncodeByte(a[0]), EncodeByte(b[0]);
      EncodeOrder(a[1..], b[1..]);
      CodesAppend(ea, Encode(a[1..]));
      CodesAppend(eb, Encode(b[1..]));
      LexAppend(Codes(ea), Codes(Encode(a[1..])), Codes(eb), Codes(Encode(b[1..])));
      EncodeByteOrder(a[0], b[0]);
    }
  }
}
