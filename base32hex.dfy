/**
 * Base 32 with the extended hex alphabet (section 7 of RFC 4648), with
 * padding, as the `BASE32HEX` encoding of the `data_encoding` crate
 * implements it.
 *
 * Encoding works on 5-byte blocks (40 bits, 8 symbols); a final block of
 * fewer bytes is filled with zero bits up to a whole number of symbols
 * and padded with `=` to 8 characters (section 6 of RFC 4648).
 *
 * Decoding needs a length that is a multiple of 8 and then decodes each
 * 8-character block on its own: a block is some symbols followed by `=`
 * padding, the symbol count must be one a final block can have (2, 4, 5,
 * 7 or 8), every non-padding character must be in the alphabet, and the
 * fill bits of the last symbol must be zero (canonical encoding, section
 * 3.5 of RFC 4648). Blocks are decoded independently, so the library
 * also accepts padded blocks before the last one and concatenates what
 * they decode to.
 */
module Base32Hex {
  import opened Wrappers
  import opened Digits
  import opened Ints

  const ALPHABET: string := "0123456789ABCDEFGHIJKLMNOPQRSTUV"
  const PAD: char := '='

  /** The reasons `data_encoding` gives for refusing an input (`DecodeKind`). */
  datatype DecodeKind = Length | Symbol | Trailing | Padding

  /** The symbol of a 5-bit value. */
  function SymbolChar(d: int): (c: char)
    requires 0 <= d < 32
  {
    if d < 10 then ('0' as int + d) as char else ('A' as int + d - 10) as char
  }

  lemma AlphabetIsSymbols()
    ensures |ALPHABET| == 32
    ensures forall d :: 0 <= d < 32 ==> ALPHABET[d] == SymbolChar(d)
  {
  }

  predicate IsSymbol(c: char) {
    '0' <= c <= '9' || 'A' <= c <= 'V'
  }

  /** The value of an alphabet symbol; `None` for any other character. */
  function SymbolValue(c: char): (r: Option<int>)
    ensures r.Some? <==> IsSymbol(c)
    ensures r.Some? ==> 0 <= r.value < 32 && SymbolChar(r.value) == c
  {
    if '0' <= c <= '9' then Some(c as int - '0' as int)
    else if 'A' <= c <= 'V' then Some(c as int - 'A' as int + 10)
    else None
  }

  /** Symbols are ordered like the values they stand for. */
  lemma SymbolOrder(d: int, e: int)
    requires 0 <= d < 32 && 0 <= e < 32
    ensures d < e <==> SymbolChar(d) < SymbolChar(e)
    ensures SymbolValue(SymbolChar(d)) == Some(d)
  {
  }

  /** The symbols of a sequence of 5-bit values. */
  function Spell(d: seq<int>): (s: string)
    requires IsDigits(d, 32)
    ensures |s| == |d|
    ensures forall i :: 0 <= i < |s| ==> IsSymbol(s[i]) && s[i] == SymbolChar(d[i])
  {
    seq(|d|, i requires 0 <= i < |d| => SymbolChar(d[i]))
  }

  /** The values of a string of symbols; `None` if one is not a symbol. */
  function SymbolValues(s: string): (r: Option<seq<int>>)
    ensures r.Some? <==> forall i :: 0 <= i < |s| ==> IsSymbol(s[i])
    ensures r.Some? ==> IsDigits(r.value, 32) && Spell(r.value) == s
  {
    if forall i :: 0 <= i < |s| ==> IsSymbol(s[i]) then
      Some(seq(|s|, i requires 0 <= i < |s| => SymbolValue(s[i]).value))
    else None
  }

  lemma SymbolValuesSpell(d: seq<int>)
    requires IsDigits(d, 32)
    ensures SymbolValues(Spell(d)) == Some(d)
  {
    var s := Spell(d);
    assert SymbolValues(s).Some?;
    forall i | 0 <= i < |d| ensures SymbolValues(s).value[i] == d[i] {
      SymbolOrder(d[i], 0);
    }
    assert SymbolValues(s).value == d;
  }

  /** Spelling keeps lexicographic order and distinctness. */
  lemma {:induction false} SpellOrder(a: seq<int>, b: seq<int>)
    requires IsDigits(a, 32) && IsDigits(b, 32) && |a| == |b|
    ensures LexLess(a, b) <==> StrLess(Spell(a), Spell(b))
  {
    if |a| > 0 {
      var ca, cb := Codes(Spell(a)), Codes(Spell(b));
      SymbolOrder(a[0], b[0]);
      SymbolOrder(b[0], a[0]);
      assert Spell(a)[1..] == Spell(a[1..]) && Spell(b)[1..] == Spell(b[1..]);
      assert Codes(Spell(a))[1..] == Codes(Spell(a[1..]));
      assert Codes(Spell(b))[1..] == Codes(Spell(b[1..]));
      SpellOrder(a[1..], b[1..]);
    }
  }

  function Pad(n: nat): (s: string)
    ensures |s| == n && forall i :: 0 <= i < n ==> s[i] == PAD
  {
    seq(n, _ => PAD)
  }

  /** Symbols needed for a block of `r` bytes: 8r bits rounded up to whole 5-bit symbols. */
  function SymbolCount(r: nat): (k: nat)
    requires 1 <= r <= 5
    ensures 5 * (k - 1) < 8 * r <= 5 * k
  {
    match r
    case 1 => 2
    case 2 => 4
    case 3 => 5
    case 4 => 7
    case 5 => 8
  }

  /** Zero bits appended to `r` bytes to fill the last symbol. */
  function FillBits(r: nat): (f: nat)
    requires 1 <= r <= 5
    ensures 8 * r + f == 5 * SymbolCount(r) && f < 5
  {
    5 * SymbolCount(r) - 8 * r
  }

  /** `2` to the `FillBits(r)`, the weight of the lowest byte bit in the symbols' value. */
  function FillFactor(r: nat): (f: nat)
    requires 1 <= r <= 5
    ensures f == Pow(2, FillBits(r))
  {
    match r
    case 1 => 4
    case 2 => 16
    case 3 => 2
    case 4 => 8
    case 5 => 1
  }

  /** The symbol counts a block can end with: what `r` = 1..5 bytes produce. */
  predicate ValidSymbolCount(k: int) {
    k == 2 || k == 4 || k == 5 || k == 7 || k == 8
  }

  /** Whole bytes carried by `k` symbols. */
  function ByteCount(k: nat): (r: nat)
    ensures 8 * r <= 5 * k < 8 * (r + 1)
  {
    5 * k / 8
  }

  /** The arithmetic of one block, for each of the five block sizes. */
  lemma BlockGeometry(r: nat)
    requires 1 <= r <= 5
    ensures ValidSymbolCount(SymbolCount(r)) && ByteCount(SymbolCount(r)) == r
    ensures Pow(256, r) * Pow(2, FillBits(r)) == Pow(32, SymbolCount(r))
  {
    if r == 1 {
      assert Pow(256, 1) * Pow(2, 2) == Pow(32, 2);
    } else if r == 2 {
      assert Pow(256, 2) * Pow(2, 4) == Pow(32, 4);
    } else if r == 3 {
      assert Pow(256, 3) * Pow(2, 1) == Pow(32, 5);
    } else if r == 4 {
      assert Pow(256, 4) * Pow(2, 3) == Pow(32, 7);
    } else {
      assert Pow(256, 5) * Pow(2, 0) == Pow(32, 8);
    }
  }

  lemma ValidSymbolCountGeometry(k: nat)
    requires ValidSymbolCount(k)
    ensures 1 <= ByteCount(k) <= 5 && SymbolCount(ByteCount(k)) == k
  {
  }

  /** The value of a block, shifted left by its fill bits, fits its symbols. */
  lemma BlockValueFits(blk: seq<byte>)
    requires 1 <= |blk| <= 5
    ensures 0 <= ToNat(blk, 256) * Pow(2, FillBits(|blk|)) < Pow(32, SymbolCount(|blk|))
  {
    var v, p, f := ToNat(blk, 256), Pow(256, |blk|), Pow(2, FillBits(|blk|));
    BlockGeometry(|blk|);
    MulLe(0, v, f);
    MulLt(v, p, f);
  }

  /**
   * The symbol values of a block of 1 to 5 bytes: its bits followed by
   * zero fill bits, cut into 5-bit groups.
   */
  function BlockDigits(blk: seq<byte>): (d: seq<int>)
    requires 1 <= |blk| <= 5
    ensures IsDigits(d, 32) && |d| == SymbolCount(|blk|)
  {
    BlockValueFits(blk);
    FromNat(ToNat(blk, 256) * Pow(2, FillBits(|blk|)), 32, SymbolCount(|blk|))
  }

  /** The symbols of a block spell its value followed by the fill bits. */
  lemma BlockDigitsValue(blk: seq<byte>)
    requires 1 <= |blk| <= 5
    ensures ToNat(BlockDigits(blk), 32) == ToNat(blk, 256) * Pow(2, FillBits(|blk|))
  {
    BlockValueFits(blk);
    ToNatFromNat(ToNat(blk, 256) * Pow(2, FillBits(|blk|)), 32, SymbolCount(|blk|));
  }

  /** Encodes one block of 1 to 5 bytes as 8 characters. */
  function EncodeBlock(blk: seq<byte>): (s: string)
    requires 1 <= |blk| <= 5
    ensures |s| == 8
  {
    Spell(BlockDigits(blk)) + Pad(8 - SymbolCount(|blk|))
  }

  /** `BASE32HEX.encode`. */
  function Encode(bytes: seq<byte>): (s: string)
    ensures |s| % 8 == 0 && |s| / 8 == (|bytes| + 4) / 5
    decreases |bytes|
  {
    if |bytes| == 0 then ""
    else if |bytes| <= 5 then EncodeBlock(bytes)
    else
      var rest := Encode(bytes[5..]);
      BlockLengthStep(|bytes|, |rest|);
      EncodeBlock(bytes[..5]) + rest
  }

  /** One more full block: 8 more characters for 5 more bytes. */
  lemma BlockLengthStep(n: nat, r: nat)
    requires n > 5 && r % 8 == 0 && r / 8 == (n - 5 + 4) / 5
    ensures (8 + r) % 8 == 0 && (8 + r) / 8 == (n + 4) / 5
  {
  }

  /** The number of `=` at the end of `s`. */
  function PadCount(s: string): (n: nat)
    ensures n <= |s|
    ensures forall i :: |s| - n <= i < |s| ==> s[i] == PAD
    ensures n < |s| ==> s[|s| - n - 1] != PAD
  {
    if |s| == 0 || s[|s| - 1] != PAD then 0 else 1 + PadCount(s[..|s| - 1])
  }

  lemma {:induction false} PadCountSpellPad(d: seq<int>, m: nat)
    requires IsDigits(d, 32) && |d| > 0
    ensures PadCount(Spell(d) + Pad(m)) == m
  {
    var s := Spell(d) + Pad(m);
    if m > 0 {
      assert s[..|s| - 1] == Spell(d) + Pad(m - 1);
      PadCountSpellPad(d, m - 1);
    } else {
      assert s[|s| - 1] == SymbolChar(d[|d| - 1]);
    }
  }

  /** The value of `k` symbols without its fill bits fits the block's bytes. */
  lemma DropFillFits(x: nat, k: nat)
    requires ValidSymbolCount(k) && x < Pow(32, k)
    ensures 1 <= ByteCount(k) <= 5 && SymbolCount(ByteCount(k)) == k
    ensures x / Pow(2, FillBits(ByteCount(k))) < Pow(256, ByteCount(k))
  {
    var n := ByteCount(k);
    ValidSymbolCountGeometry(k);
    BlockGeometry(n);
    var p, f := Pow(256, n), Pow(2, FillBits(n));
    assert x < p * f;
    DivBound(x, f, p);
  }

  /**
   * The bytes carried by the values of a block's symbols; `None` when a
   * fill bit is set. What it accepts is exactly what `BlockDigits` makes.
   */
  function BlockBytes(d: seq<int>): (r: Option<seq<byte>>)
    requires IsDigits(d, 32) && ValidSymbolCount(|d|)
    ensures r.Some? ==> |r.value| == ByteCount(|d|) && 1 <= |r.value| <= 5
  {
    var n := ByteCount(|d|);
    var x, f := ToNat(d, 32), FillFactor(n);
    if x % f != 0 then None else Some(FromNat(x / f, 256, n))
  }

  /** The bytes `BlockBytes` finds, shifted back by the fill bits, are the symbols' value. */
  lemma BlockBytesValue(d: seq<int>)
    requires IsDigits(d, 32) && ValidSymbolCount(|d|) && BlockBytes(d).Some?
    ensures ToNat(BlockBytes(d).value, 256) * Pow(2, FillBits(ByteCount(|d|))) == ToNat(d, 32)
  {
    var n := ByteCount(|d|);
    var x, f := ToNat(d, 32), Pow(2, FillBits(n));
    assert BlockBytes(d).value == FromNat(x / f, 256, n);
    DropFillFits(x, |d|);
    ToNatFromNat(x / f, 256, n);
    DivExact(x, f);
  }

  /** What `BlockBytes` accepts is exactly what `BlockDigits` produces. */
  lemma BlockBytesCanonical(d: seq<int>)
    requires IsDigits(d, 32) && ValidSymbolCount(|d|) && BlockBytes(d).Some?
    ensures BlockDigits(BlockBytes(d).value) == d
  {
    var b := BlockBytes(d).value;
    ValidSymbolCountGeometry(|d|);
    BlockBytesValue(d);
    BlockDigitsValue(b);
    ToNatInjective(BlockDigits(b), d, 32);
  }

  lemma BlockBytesDigits(blk: seq<byte>)
    requires 1 <= |blk| <= 5
    ensures ValidSymbolCount(|BlockDigits(blk)|)
    ensures BlockBytes(BlockDigits(blk)) == Some(blk)
  {
    var r, d := |blk|, BlockDigits(blk);
    var v, f := ToNat(blk, 256), FillFactor(r);
    BlockGeometry(r);
    assert ByteCount(|d|) == r;
    BlockDigitsValue(blk);
    assert ToNat(d, 32) == v * f;
    DivModUnique(v, 0, f);
    assert v * f % f == 0 && v * f / f == v;
    FromNatToNat(blk, 256);
  }

  /** Decodes one 8-character block. */
  function DecodeBlock(blk: string): (r: Result<seq<byte>, DecodeKind>)
    requires |blk| == 8
    ensures r.Ok? ==> 1 <= |r.value| <= 5
  {
    var k := 8 - PadCount(blk);
    if !ValidSymbolCount(k) then Err(Padding)
    else
      match SymbolValues(blk[..k])
      case None => Err(Symbol)
      case Some(d) =>
        match BlockBytes(d)
        case None => Err(Trailing)
        case Some(b) => Ok(b)
  }

  /**
   * Decodes the 8-character blocks of `s` one after another and joins
   * what they decode to; the first failing block decides the error. A
   * remainder shorter than a block is a `Length` error, which `Decode`
   * reports before looking at any block.
   */
  function DecodeBlocks(s: string): (r: Result<seq<byte>, DecodeKind>)
    ensures r.Ok? ==> |s| <= 8 * |r.value| <= 5 * |s|
    decreases |s|
  {
    if |s| == 0 then Ok([])
    else if |s| < 8 then Err(Length)
    else
      match DecodeBlock(s[..8])
      case Err(e) => Err(e)
      case Ok(b) =>
        match DecodeBlocks(s[8..])
        case Err(e) => Err(e)
        case Ok(rest) => Ok(b + rest)
  }

  /** Block `i` of an input: characters `8i` to `8i + 7`. */
  function Block(s: string, i: nat): (blk: string)
    requires 8 * i + 8 <= |s|
    ensures |blk| == 8
  {
    s[8 * i..8 * i + 8]
  }

  /** Every block of an input whose length is a multiple of 8 is accepted. */
  predicate AllBlocksOk(s: string)
    requires |s| % 8 == 0
  {
    forall i :: 0 <= i < |s| / 8 ==> DecodeBlock(Block(s, i)).Ok?
  }

  /** The bytes of each block, in order, when every block is accepted. */
  function BlockValues(s: string): (parts: seq<seq<byte>>)
    requires |s| % 8 == 0 && AllBlocksOk(s)
    ensures |parts| == |s| / 8
    ensures forall i :: 0 <= i < |parts| ==> DecodeBlock(Block(s, i)) == Ok(parts[i])
  {
    seq(|s| / 8, i requires 0 <= i < |s| / 8 => DecodeBlock(Block(s, i)).value)
  }

  /** The concatenation of a sequence of byte strings. */
  function Flatten(parts: seq<seq<byte>>): (b: seq<byte>)
    ensures |parts| > 0 ==> b == parts[0] + Flatten(parts[1..])
  {
    if |parts| == 0 then [] else parts[0] + Flatten(parts[1..])
  }

  /** Block `i + 1` of an input is block `i` of the input without its first block. */
  lemma BlockTail(s: string, i: nat)
    requires 8 * i + 16 <= |s|
    ensures Block(s[8..], i) == Block(s, i + 1)
  {
  }

  /** The blocks of an input are its first block and the blocks of the rest. */
  lemma AllBlocksOkCons(s: string)
    requires |s| % 8 == 0 && |s| > 0
    ensures AllBlocksOk(s) <==> DecodeBlock(s[..8]).Ok? && AllBlocksOk(s[8..])
  {
    var t := s[8..];
    assert Block(s, 0) == s[..8];
    forall i | 0 <= i < |t| / 8 ensures Block(t, i) == Block(s, i + 1) {
      BlockTail(s, i);
    }
    if DecodeBlock(s[..8]).Ok? && AllBlocksOk(t) {
      forall i | 0 <= i < |s| / 8 ensures DecodeBlock(Block(s, i)).Ok? {
        if i > 0 {
          assert Block(s, i) == Block(t, i - 1);
        }
      }
    }
  }

  lemma BlockValuesCons(s: string)
    requires |s| % 8 == 0 && |s| > 0 && AllBlocksOk(s)
    ensures DecodeBlock(s[..8]).Ok? && AllBlocksOk(s[8..])
    ensures BlockValues(s) == [DecodeBlock(s[..8]).value] + BlockValues(s[8..])
  {
    var t := s[8..];
    AllBlocksOkCons(s);
    var vs, vt := BlockValues(s), BlockValues(t);
    forall i | 0 <= i < |vt| ensures vs[i + 1] == vt[i] {
      BlockValuesShift(s, i);
    }
    ConsOf(vs, vt);
    BlockValuesHead(s);
  }

  lemma BlockValuesHead(s: string)
    requires |s| % 8 == 0 && |s| > 0 && AllBlocksOk(s)
    ensures DecodeBlock(s[..8]) == Ok(BlockValues(s)[0])
  {
    assert Block(s, 0) == s[..8];
  }

  /** A sequence is its head followed by any sequence matching its tail. */
  lemma ConsOf<T>(a: seq<T>, b: seq<T>)
    requires |a| == |b| + 1 && forall i :: 0 <= i < |b| ==> a[i + 1] == b[i]
    ensures a == [a[0]] + b
  {
  }

  lemma BlockValuesShift(s: string, i: nat)
    requires |s| % 8 == 0 && |s| > 0 && AllBlocksOk(s) && AllBlocksOk(s[8..]) && i < |s| / 8 - 1
    ensures BlockValues(s)[i + 1] == BlockValues(s[8..])[i]
  {
    BlockTail(s, i);
  }

  /**
   * An input whose length is a multiple of 8 decodes exactly when each of
   * its blocks does, and then to their bytes joined in order: an illegal
   * symbol, bad padding or set fill bits in any block rejects the input.
   */
  lemma {:induction false} DecodeBlocksByBlock(s: string)
    requires |s| % 8 == 0
    ensures DecodeBlocks(s).Ok? <==> AllBlocksOk(s)
    ensures DecodeBlocks(s).Ok? ==> DecodeBlocks(s).value == Flatten(BlockValues(s))
    decreases |s|
  {
    if |s| > 0 {
      AllBlocksOkCons(s);
      DecodeBlocksByBlock(s[8..]);
      if AllBlocksOk(s) {
        BlockValuesCons(s);
      }
    }
  }

  /** `Encoding::decode_len`: the buffer size for an input of `n` characters. */
  function DecodeLen(n: nat): (r: Result<nat, DecodeKind>)
    ensures r.Ok? <==> n % 8 == 0
    ensures r.Ok? ==> 5 * n == 8 * r.value
    ensures r.Err? ==> r.error == Length
    ensures r.Ok? ==> (r.value >= 16 <==> n >= 32)
  {
    if n % 8 != 0 then Err(Length) else Ok(n / 8 * 5)
  }

  /**
   * `BASE32HEX.decode`: a length that is not a multiple of 8 is refused
   * before any block is read; otherwise the input decodes exactly when
   * every block does, to the blocks' bytes joined in order.
   */
  function Decode(s: string): (r: Result<seq<byte>, DecodeKind>)
    ensures |s| % 8 != 0 ==> r == Err(Length)
    ensures r.Ok? <==> |s| % 8 == 0 && AllBlocksOk(s)
    ensures r.Ok? ==> r.value == Flatten(BlockValues(s))
  {
    if |s| % 8 != 0 then Err(Length)
    else
      DecodeBlocksByBlock(s);
      DecodeBlocks(s)
  }

  /**
   * `Encoding::decode_mut`: decodes `input` into `output`, which has the
   * `decode_len` size, and returns how many bytes it wrote; the rest of
   * `output` keeps what it held.
   */
  method DecodeMut(input: string, output: array<byte>) returns (r: Result<nat, DecodeKind>)
    requires |input| % 8 == 0 && output.Length == |input| / 8 * 5
    modifies output
    ensures DecodeBlocks(input).Err? ==> r == Err(DecodeBlocks(input).error)
    ensures DecodeBlocks(input).Ok? ==>
      && r == Ok(|DecodeBlocks(input).value|)
      && output[..] == DecodeBlocks(input).value + old(output[|DecodeBlocks(input).value|..])
  {
    var decoded := DecodeBlocks(input);
    if decoded.Err? {
      return Err(decoded.error);
    }
    WriteAt(output, decoded.value);
    return Ok(|decoded.value|);
  }

  /** Copies `b` to the front of `output` (`copy_from_slice` on a sub-slice). */
  method WriteAt(output: array<byte>, b: seq<byte>)
    requires |b| <= output.Length
    modifies output
    ensures output[..] == b + old(output[|b|..])
  {
    for j := 0 to |b|
      invariant forall k :: 0 <= k < j ==> output[k] == b[k]
      invariant forall k :: j <= k < output.Length ==> output[k] == old(output[k])
    {
      output[j] := b[j];
    }
  }

  lemma {:induction false} DecodeEncodeBlock(blk: seq<byte>)
    requires 1 <= |blk| <= 5
    ensures DecodeBlock(EncodeBlock(blk)) == Ok(blk)
  {
    var d := BlockDigits(blk);
    var k := |d|;
    var s := EncodeBlock(blk);
    PadCountSpellPad(d, 8 - k);
    assert s[..k] == Spell(d);
    SymbolValuesSpell(d);
    BlockBytesDigits(blk);
  }

  /** An accepted block is the canonical encoding of the bytes it decodes to. */
  lemma {:induction false} EncodeDecodeBlock(blk: string)
    requires |blk| == 8 && DecodeBlock(blk).Ok?
    ensures EncodeBlock(DecodeBlock(blk).value) == blk
  {
    var k := 8 - PadCount(blk);
    var d := SymbolValues(blk[..k]).value;
    var b := BlockBytes(d).value;
    assert DecodeBlock(blk) == Ok(b);
    BlockBytesCanonical(d);
    EncodeBlockSpell(b, d);
    PadSplit(blk, PadCount(blk));
  }

  /** A block's encoding is the symbols of its digits and the padding after them. */
  lemma EncodeBlockSpell(blk: seq<byte>, d: seq<int>)
    requires 1 <= |blk| <= 5 && BlockDigits(blk) == d
    ensures EncodeBlock(blk) == Spell(d) + Pad(8 - |d|)
  {
  }

  /** A string ending in `n` padding characters is its part before them followed by `Pad(n)`. */
  lemma PadSplit(s: string, n: nat)
    requires n <= |s| && forall i :: |s| - n <= i < |s| ==> s[i] == PAD
    ensures s == s[..|s| - n] + Pad(n)
  {
    var k := |s| - n;
    forall i | 0 <= i < n
      ensures s[k..][i] == Pad(n)[i]
    {
      assert s[k + i] == PAD;
    }
    assert s[k..] == Pad(n);
    assert s == s[..k] + s[k..];
  }

  /** Within one block size, the symbol values are ordered like the bytes. */
  lemma BlockDigitsOrder(x: seq<byte>, y: seq<byte>)
    requires 1 <= |x| <= 5 && |x| == |y|
    ensures LexLess(x, y) <==> LexLess(BlockDigits(x), BlockDigits(y))
  {
    var vx, vy, f := ToNat(x, 256), ToNat(y, 256), Pow(2, FillBits(|x|));
    LexOrder(x, y, 256);
    LexOrder(BlockDigits(x), BlockDigits(y), 32);
    BlockDigitsValue(x);
    BlockDigitsValue(y);
    if vx < vy {
      MulLt(vx, vy, f);
    } else if vy < vx {
      MulLt(vy, vx, f);
    }
  }

  /** Blocks of one size encode in the order of their bytes. */
  lemma EncodeBlockOrder(x: seq<byte>, y: seq<byte>)
    requires 1 <= |x| <= 5 && |x| == |y|
    ensures LexLess(x, y) <==> StrLess(EncodeBlock(x), EncodeBlock(y))
    ensures Codes(EncodeBlock(x)) == Codes(EncodeBlock(y)) <==> x == y
  {
    var dx, dy := BlockDigits(x), BlockDigits(y);
    var pad := Pad(8 - SymbolCount(|x|));
    BlockDigitsOrder(x, y);
    SpellOrder(dx, dy);
    CodesAppend(Spell(dx), pad);
    CodesAppend(Spell(dy), pad);
    LexAppend(Codes(Spell(dx)), Codes(pad), Codes(Spell(dy)), Codes(pad));
    LexIrreflexive(Codes(pad));
    if Codes(EncodeBlock(x)) == Codes(EncodeBlock(y)) {
      CodesInjective(EncodeBlock(x), EncodeBlock(y));
      DecodeEncodeBlock(x);
      DecodeEncodeBlock(y);
    }
    if Codes(Spell(dx)) == Codes(Spell(dy)) {
      CodesInjective(Spell(dx), Spell(dy));
      SymbolValuesSpell(dx);
      SymbolValuesSpell(dy);
    }
  }

  /** Decoding an encoding gives back the bytes, for every byte string. */
  lemma {:induction false} DecodeEncode(bytes: seq<byte>)
    ensures Decode(Encode(bytes)) == Ok(bytes)
    decreases |bytes|
  {
    var s := Encode(bytes);
    if 0 < |bytes| <= 5 {
      DecodeEncodeBlock(bytes);
      assert s[..8] == s && s[8..] == "";
      assert DecodeBlocks(s[8..]) == Ok([]);
      assert DecodeBlocks(s) == Ok(bytes + []);
      assert bytes + [] == bytes;
    } else if |bytes| > 5 {
      DecodeEncodeBlock(bytes[..5]);
      DecodeEncode(bytes[5..]);
      assert s[..8] == EncodeBlock(bytes[..5]) && s[8..] == Encode(bytes[5..]);
      assert bytes == bytes[..5] + bytes[5..];
    }
  }

  /** Encodings of byte strings of one length compare like the byte strings. */
  lemma {:induction false} EncodeOrder(a: seq<byte>, b: seq<byte>)
    requires |a| == |b|
    ensures LexLess(a, b) <==> StrLess(Encode(a), Encode(b))
    decreases |a|
  {
    if 0 < |a| <= 5 {
      EncodeBlockOrder(a, b);
    } else if |a| > 5 {
      var a1, a2, b1, b2 := a[..5], a[5..], b[..5], b[5..];
      assert a == a1 + a2 && b == b1 + b2;
      LexAppend(a1, a2, b1, b2);
      EncodeBlockOrder(a1, b1);
      EncodeOrder(a2, b2);
      CodesAppend(EncodeBlock(a1), Encode(a2));
      CodesAppend(EncodeBlock(b1), Encode(b2));
      LexAppend(Codes(EncodeBlock(a1)), Codes(Encode(a2)), Codes(EncodeBlock(b1)), Codes(Encode(b2)));
    } else {
      assert Codes(Encode(a)) == [] && Codes(Encode(b)) == [];
    }
  }

  /** 16 bytes are three full blocks and a final block of one byte. */
  lemma Encode16Blocks(bytes: seq<byte>)
    requires |bytes| == 16
    ensures Encode(bytes) ==
      EncodeBlock(bytes[..5]) + EncodeBlock(bytes[5..10]) + EncodeBlock(bytes[10..15]) + EncodeBlock(bytes[15..])
  {
    assert bytes[5..][..5] == bytes[5..10] && bytes[5..][5..] == bytes[10..];
    assert bytes[10..][..5] == bytes[10..15] && bytes[10..][5..] == bytes[15..];
    assert Encode(bytes[10..]) == EncodeBlock(bytes[10..15]) + EncodeBlock(bytes[15..]);
    assert Encode(bytes[5..]) == EncodeBlock(bytes[5..10]) + Encode(bytes[10..]);
  }

  /** 16 bytes encode as 26 symbols followed by six `=`. */
  lemma Encode16Shape(bytes: seq<byte>)
    requires |bytes| == 16
    ensures |Encode(bytes)| == 32
    ensures forall i :: 0 <= i < 26 ==> IsSymbol(Encode(bytes)[i])
    ensures Encode(bytes)[26..] == "======"
  {
    var b1, b2, b3, b4 := bytes[..5], bytes[5..10], bytes[10..15], bytes[15..];
    Encode16Blocks(bytes);
    forall blk | blk in [b1, b2, b3] ensures forall i :: 0 <= i < 8 ==> IsSymbol(EncodeBlock(blk)[i]) {
      assert SymbolCount(5) == 8;
    }
    assert SymbolCount(1) == 2;
  }

  /** The encoding of a block is fixed by any symbol values that spell its shifted value. */
  lemma EncodeBlockOf(blk: seq<byte>, d: seq<int>)
    requires 1 <= |blk| <= 5 && IsDigits(d, 32) && |d| == SymbolCount(|blk|)
    requires ToNat(d, 32) == ToNat(blk, 256) * Pow(2, FillBits(|blk|))
    ensures EncodeBlock(blk) == Spell(d) + Pad(8 - |d|)
  {
    BlockDigitsValue(blk);
    ToNatInjective(BlockDigits(blk), d, 32);
  }

  /** In a block's encoding, character `j` is padding exactly from the symbol count on. */
  lemma EncodeBlockPadAt(blk: seq<byte>, j: nat)
    requires 1 <= |blk| <= 5 && j < 8
    ensures EncodeBlock(blk)[j] == PAD <==> j >= SymbolCount(|blk|)
  {
  }

  /**
   * An accepted input of 26 symbols and six `=` is the canonical encoding
   * of the 16 bytes it decodes to: three full blocks and a one-byte block.
   */
  lemma Decode16Canonical(s: string)
    requires |s| == 32 && s[26..] == "======"
    requires forall i :: 0 <= i < 26 ==> IsSymbol(s[i])
    requires Decode(s).Ok?
    ensures |Decode(s).value| == 16 && Encode(Decode(s).value) == s
  {
    var parts: seq<seq<byte>> := BlockValues(s);
    assert s[26] == s[26..][0];
    BlockPart(s, 0, 7);
    BlockPart(s, 1, 7);
    BlockPart(s, 2, 7);
    BlockPart(s, 3, 1);
    BlockPart(s, 3, 2);
    SymbolCountInverse(|parts[0]|);
    SymbolCountInverse(|parts[1]|);
    SymbolCountInverse(|parts[2]|);
    SymbolCountInverse(|parts[3]|);
    Join4(parts, Decode(s).value);
    Blocks4(s);
  }

  /**
   * Block `i` of an accepted input is the encoding of its bytes, and where
   * its padding starts fixes how many bytes it carries.
   */
  lemma BlockPart(s: string, i: nat, j: nat)
    requires |s| % 8 == 0 && AllBlocksOk(s) && i < |s| / 8 && j < 8
    ensures 1 <= |BlockValues(s)[i]| <= 5
    ensures EncodeBlock(BlockValues(s)[i]) == Block(s, i)
    ensures s[8 * i + j] == PAD <==> j >= SymbolCount(|BlockValues(s)[i]|)
  {
    var blk := Block(s, i);
    assert blk[j] == s[8 * i + j];
    EncodeDecodeBlock(blk);
    EncodeBlockPadAt(DecodeBlock(blk).value, j);
  }

  /** The block size is fixed by its symbol count. */
  lemma SymbolCountInverse(r: nat)
    requires 1 <= r <= 5
    ensures SymbolCount(r) > 7 ==> r == 5
    ensures 1 < SymbolCount(r) <= 2 ==> r == 1
  {
  }

  lemma Blocks4(s: string)
    requires |s| == 32
    ensures s == Block(s, 0) + Block(s, 1) + Block(s, 2) + Block(s, 3)
  {
    assert s == s[..8] + s[8..16] + s[16..24] + s[24..];
  }

  /** Four blocks of 5, 5, 5 and 1 bytes, joined, encode block by block. */
  lemma Join4(parts: seq<seq<byte>>, b: seq<byte>)
    requires |parts| == 4 && b == Flatten(parts)
    requires |parts[0]| == |parts[1]| == |parts[2]| == 5 && |parts[3]| == 1
    ensures |b| == 16
    ensures Encode(b) == EncodeBlock(parts[0]) + EncodeBlock(parts[1]) + EncodeBlock(parts[2]) + EncodeBlock(parts[3])
  {
    assert parts[1..][1..][1..] == parts[3..] == [parts[3]];
    assert Flatten(parts[3..]) == parts[3] + Flatten(parts[4..]);
    assert b == parts[0] + (parts[1] + (parts[2] + parts[3]));
    assert b[..5] == parts[0] && b[5..10] == parts[1] && b[10..15] == parts[2] && b[15..] == parts[3];
    Encode16Blocks(b);
  }

  /** Decoding a block in front of further blocks. */
  lemma DecodeBlocksCons(blk: string, rest: string, a: seq<byte>, b: seq<byte>)
    requires |blk| == 8 && DecodeBlock(blk) == Ok(a) && DecodeBlocks(rest) == Ok(b)
    ensures DecodeBlocks(blk + rest) == Ok(a + b)
  {
    assert (blk + rest)[..8] == blk && (blk + rest)[8..] == rest;
  }
}
