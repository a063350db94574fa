/**
 * The serialized forms the crate's own tests check for the counts -100,
 * -1, 0, 1 and 100, built block by block from the bytes of counts near
 * zero.
 */
module SerExamples {
  import opened Wrappers
  import opened Digits
  import opened Ints
  import Hex
  import opened Base32Hex
  import opened Geotime
  import opened Ser

  /** The lexified bytes of a count `v` with |v| < 256. */
  function SmallLexified(v: int): (b: seq<byte>)
    requires -256 < v < 256
    ensures |b| == 16
  {
    if v >= 0 then [128] + Rep(14, 0) + [v] else [127] + Rep(14, 255) + [256 + v]
  }

  lemma Pow256()
    ensures Pow(256, 4) == 0x1_0000_0000
    ensures Pow(256, 14) == 0x1_0000_0000_0000_0000_0000_0000_0000
    ensures Pow(256, 15) == 0x1_0000_0000_0000_0000_0000_0000_0000_00
  {
    PowAdd(256, 7, 7);
    PowAdd(256, 7, 8);
  }

  /** Counts near zero lexify to 0x80 or 0x7f, fourteen filler bytes and the low byte. */
  lemma SmallLexifiedBytes(v: int)
    requires -256 < v < 256
    ensures ToBeBytes(Lexify(v)) == SmallLexified(v)
  {
    var c := SmallLexified(v);
    var hi, f, lo := if v >= 0 then 128 else 127, if v >= 0 then 0 else 255, if v >= 0 then v else 256 + v;
    var mid := Rep(14, f);
    assert c == [hi] + (mid + [lo]);
    if v >= 0 {
      ToNatZeros(14, 256);
    } else {
      ToNatMaxes(14, 256);
    }
    ToNatSnoc(mid, lo, 256);
    ToNatCons(hi, mid + [lo], 256);
    Pow256();
    assert ToNat(c, 256) == Bits(Lexify(v));
    ToNatInjective(ToBeBytes(Lexify(v)), c, 256);
  }

  /** The hex form of a count near zero. */
  lemma HexOfSmall(v: int, hi: byte, f: byte, lo: byte)
    requires -256 < v < 256 && f / 16 == f % 16
    requires SmallLexified(v) == [hi] + Rep(14, f) + [lo]
    ensures HexSerialize(LexicalHex(v)) == Hex.EncodeByte(hi) + Rep(28, Hex.Symbol(f % 16)) + Hex.EncodeByte(lo)
  {
    SmallLexifiedBytes(v);
    Hex.EncodeAppend([hi] + Rep(14, f), [lo]);
    Hex.EncodeAppend([hi], Rep(14, f));
    Hex.EncodeRep(14, f);
    assert Hex.Encode(Rep(14, f)) == Rep(28, Hex.Symbol(f % 16));
    assert Hex.Encode([hi]) == Hex.EncodeByte(hi) + Hex.Encode([]);
    assert Hex.Encode([lo]) == Hex.EncodeByte(lo) + Hex.Encode([]);
  }

  /** The hex pairs of the bytes the examples use. */
  lemma EncodedBytes()
    ensures Hex.EncodeByte(0) == "00" && Hex.EncodeByte(1) == "01" && Hex.EncodeByte(100) == "64"
    ensures Hex.EncodeByte(127) == "7f" && Hex.EncodeByte(128) == "80"
    ensures Hex.EncodeByte(156) == "9c" && Hex.EncodeByte(255) == "ff"
    ensures Hex.Symbol(0) == '0' && Hex.Symbol(15) == 'f'
  {
  }

  /** `lexical_hex::serde` (src/ser.rs): the five serialized forms the crate's test expects. */
  lemma HexExamples()
    ensures HexSerialize(LexicalHex(-100)) == "7fffffffffffffffffffffffffffff9c"
    ensures HexSerialize(LexicalHex(-1)) == "7fffffffffffffffffffffffffffffff"
    ensures HexSerialize(LexicalHex(0)) == "80000000000000000000000000000000"
    ensures HexSerialize(LexicalHex(1)) == "80000000000000000000000000000001"
    ensures HexSerialize(LexicalHex(100)) == "80000000000000000000000000000064"
  {
    HexMinus100();
    HexMinus1();
    HexZero();
    HexOne();
    HexHundred();
  }

  lemma HexMinus100()
    ensures HexSerialize(LexicalHex(-100)) == "7fffffffffffffffffffffffffffff9c"
  {
    HexOfSmall(-100, 127, 255, 156);
    EncodedBytes();
    Spelled7F9C();
  }

  lemma HexMinus1()
    ensures HexSerialize(LexicalHex(-1)) == "7fffffffffffffffffffffffffffffff"
  {
    HexOfSmall(-1, 127, 255, 255);
    EncodedBytes();
    Spelled7FFF();
  }

  lemma HexZero()
    ensures HexSerialize(LexicalHex(0)) == "80000000000000000000000000000000"
  {
    HexOfSmall(0, 128, 0, 0);
    EncodedBytes();
    Spelled8000();
  }

  lemma HexOne()
    ensures HexSerialize(LexicalHex(1)) == "80000000000000000000000000000001"
  {
    HexOfSmall(1, 128, 0, 1);
    EncodedBytes();
    Spelled8001();
  }

  lemma HexHundred()
    ensures HexSerialize(LexicalHex(100)) == "80000000000000000000000000000064"
  {
    HexOfSmall(100, 128, 0, 100);
    EncodedBytes();
    Spelled8064();
  }

  /** The examples' expected strings, as a prefix, 28 filler digits and a suffix. */
  lemma Spelled7F9C()
    ensures "7f" + Rep(28, 'f') + "9c" == "7fffffffffffffffffffffffffffff9c"
  {
  }

  lemma Spelled7FFF()
    ensures "7f" + Rep(28, 'f') + "ff" == "7fffffffffffffffffffffffffffffff"
  {
  }

  lemma Spelled8000()
    ensures "80" + Rep(28, '0') + "00" == "80000000000000000000000000000000"
  {
  }

  lemma Spelled8001()
    ensures "80" + Rep(28, '0') + "01" == "80000000000000000000000000000001"
  {
  }

  lemma Spelled8064()
    ensures "80" + Rep(28, '0') + "64" == "80000000000000000000000000000064"
  {
  }

  /** 32 to the 7th and 8th, next to 256 to the 4th and 5th: both make 35 and 40 bits. */
  lemma Pow32()
    ensures Pow(32, 7) == 0x8_0000_0000 && Pow(32, 8) == 0x100_0000_0000
    ensures Pow(256, 4) == 0x1_0000_0000 && Pow(256, 5) == 0x100_0000_0000
  {
  }

  /** A full block of filler bytes, all zero bits or all one bits, spells eight equal symbols. */
  lemma FillerBlock(fb: byte, f: int)
    requires (fb == 0 && f == 0) || (fb == 255 && f == 31)
    ensures EncodeBlock(Rep(5, fb)) == Spell(Rep(8, f))
  {
    assert SymbolCount(5) == 8 && FillBits(5) == 0 && Pow(2, 0) == 1;
    Pow32();
    if fb == 0 {
      ToNatZeros(5, 256);
      ToNatZeros(8, 32);
      assert Rep(5, fb) == Rep<int>(5, 0);
      assert ToNat(Rep(8, f), 32) == ToNat(Rep(5, fb), 256) * 1;
    } else {
      ToNatMaxes(5, 256);
      ToNatMaxes(8, 32);
      assert Rep(5, fb) == Rep<int>(5, 255);
      assert ToNat(Rep(8, f), 32) == ToNat(Rep(5, fb), 256) * 1;
    }
    EncodeBlockOf(Rep(5, fb), Rep(8, f));
    assert Spell(Rep(8, f)) + Pad(0) == Spell(Rep(8, f));
  }

  /** The first block: the sign-flipped top byte and four filler bytes. */
  lemma LeadBlock(hb: byte, fb: byte, h: int, f: int)
    requires (hb == 128 && fb == 0 && h == 16 && f == 0) || (hb == 127 && fb == 255 && h == 15 && f == 31)
    ensures EncodeBlock([hb] + Rep(4, fb)) == Spell([h] + Rep(7, f))
  {
    var blk, d := [hb] + Rep(4, fb), [h] + Rep(7, f);
    assert SymbolCount(5) == 8 && FillBits(5) == 0 && Pow(2, 0) == 1;
    Pow32();
    ToNatCons(hb, Rep(4, fb), 256);
    ToNatCons(h, Rep(7, f), 32);
    if fb == 0 {
      ToNatZeros(4, 256);
      ToNatZeros(7, 32);
      assert Rep(4, fb) == Rep<int>(4, 0);
      assert ToNat(blk, 256) == 128 * 0x1_0000_0000;
      assert ToNat(d, 32) == 16 * 0x8_0000_0000;
    } else {
      ToNatMaxes(4, 256);
      ToNatMaxes(7, 32);
      assert Rep(4, fb) == Rep<int>(4, 255);
      assert ToNat(blk, 256) == 127 * 0x1_0000_0000 + 0xFFFF_FFFF;
      assert ToNat(d, 32) == 15 * 0x8_0000_0000 + 0x7_FFFF_FFFF;
    }
    assert ToNat(d, 32) == ToNat(blk, 256) * 1;
    EncodeBlockOf(blk, d);
    assert Spell(d) + Pad(0) == Spell(d);
  }

  /** The last block: one byte, two fill bits, two symbols and six `=`. */
  lemma LastBlock(lo: byte)
    ensures EncodeBlock([lo]) == Spell([lo * 4 / 32, lo * 4 % 32]) + Pad(6)
  {
    var d := [lo * 4 / 32, lo * 4 % 32];
    assert SymbolCount(1) == 2 && FillBits(1) == 2 && Pow(2, 2) == 4;
    assert [lo][..0] == [] && d[..1] == [lo * 4 / 32];
    assert ToNat([lo], 256) == lo;
    assert ToNat(d, 32) == lo * 4 / 32 * 32 + lo * 4 % 32;
    EncodeBlockOf([lo], d);
  }

  /** The base32hex form of a count near zero, block by block. */
  lemma Base32OfSmall(v: int, hb: byte, fb: byte, h: int, f: int, lo: byte, lead: string, filler: string, last: string, whole: string)
    requires -256 < v < 256
    requires (hb == 128 && fb == 0 && h == 16 && f == 0) || (hb == 127 && fb == 255 && h == 15 && f == 31)
    requires SmallLexified(v) == [hb] + Rep(14, fb) + [lo]
    requires lead == Spell([h] + Rep(7, f)) && filler == Spell(Rep(8, f))
    requires last == Spell([lo * 4 / 32, lo * 4 % 32])
    requires whole == lead + filler + filler + last + "======"
    ensures Base32Serialize(LexicalBase32Hex(v)) == whole
  {
    SpelledLast();
    var c := SmallLexified(v);
    SmallLexifiedBytes(v);
    Encode16Blocks(c);
    assert c[..5] == [hb] + Rep(4, fb);
    assert c[5..10] == Rep(5, fb) && c[10..15] == Rep(5, fb) && c[15..] == [lo];
    LeadBlock(hb, fb, h, f);
    FillerBlock(fb, f);
    LastBlock(lo);
  }

  /** The symbols of the first three blocks of a non-negative count. */
  lemma SpelledPositive()
    ensures Spell([16] + Rep(7, 0)) == "G0000000" && Spell(Rep(8, 0)) == "00000000"
  {
  }

  /** The symbols of the first three blocks of a negative count. */
  lemma SpelledNegative()
    ensures Spell([15] + Rep(7, 31)) == "FVVVVVVV" && Spell(Rep(8, 31)) == "VVVVVVVV"
  {
  }

  /** The padding of a final block of one byte. */
  lemma SpelledLast()
    ensures Pad(6) == "======"
  {
  }

  /** The symbols of the examples' last blocks. */
  lemma SpelledPairs()
    ensures Spell([0, 0]) == "00" && Spell([0, 4]) == "04" && Spell([12, 16]) == "CG"
    ensures Spell([31, 28]) == "VS" && Spell([19, 16]) == "JG"
  {
  }

  /** `lexical_base32hex::serde` (src/ser.rs): the five serialized forms the crate's test expects. */
  lemma Base32Examples()
    ensures Base32Serialize(LexicalBase32Hex(-100)) == "FVVVVVVVVVVVVVVVVVVVVVVVJG======"
    ensures Base32Serialize(LexicalBase32Hex(-1)) == "FVVVVVVVVVVVVVVVVVVVVVVVVS======"
    ensures Base32Serialize(LexicalBase32Hex(0)) == "G0000000000000000000000000======"
    ensures Base32Serialize(LexicalBase32Hex(1)) == "G0000000000000000000000004======"
    ensures Base32Serialize(LexicalBase32Hex(100)) == "G00000000000000000000000CG======"
  {
    Base32Minus100();
    Base32Minus1();
    Base32Zero();
    Base32One();
    Base32Hundred();
  }

  lemma Base32Minus100()
    ensures Base32Serialize(LexicalBase32Hex(-100)) == "FVVVVVVVVVVVVVVVVVVVVVVVJG======"
  {
    SpelledNegative();
    SpelledPairs();
    JoinedFJG();
    Base32OfSmall(-100, 127, 255, 15, 31, 156, "FVVVVVVV", "VVVVVVVV", "JG", "FVVVVVVVVVVVVVVVVVVVVVVVJG======");
  }

  lemma Base32Minus1()
    ensures Base32Serialize(LexicalBase32Hex(-1)) == "FVVVVVVVVVVVVVVVVVVVVVVVVS======"
  {
    SpelledNegative();
    SpelledPairs();
    JoinedFVS();
    Base32OfSmall(-1, 127, 255, 15, 31, 255, "FVVVVVVV", "VVVVVVVV", "VS", "FVVVVVVVVVVVVVVVVVVVVVVVVS======");
  }

  lemma Base32Zero()
    ensures Base32Serialize(LexicalBase32Hex(0)) == "G0000000000000000000000000======"
  {
    SpelledPositive();
    SpelledPairs();
    JoinedG00();
    Base32OfSmall(0, 128, 0, 16, 0, 0, "G0000000", "00000000", "00", "G0000000000000000000000000======");
  }

  lemma Base32One()
    ensures Base32Serialize(LexicalBase32Hex(1)) == "G0000000000000000000000004======"
  {
    SpelledPositive();
    SpelledPairs();
    JoinedG04();
    Base32OfSmall(1, 128, 0, 16, 0, 1, "G0000000", "00000000", "04", "G0000000000000000000000004======");
  }

  lemma Base32Hundred()
    ensures Base32Serialize(LexicalBase32Hex(100)) == "G00000000000000000000000CG======"
  {
    SpelledPositive();
    SpelledPairs();
    JoinedGCG();
    Base32OfSmall(100, 128, 0, 16, 0, 100, "G0000000", "00000000", "CG", "G00000000000000000000000CG======");
  }

  /** The expected strings, as a lead block, two filler blocks, the last symbols and padding. */
  lemma JoinedFJG()
    ensures "FVVVVVVV" + "VVVVVVVV" + "VVVVVVVV" + "JG" + "======" == "FVVVVVVVVVVVVVVVVVVVVVVVJG======"
  {
  }

  lemma JoinedFVS()
    ensures "FVVVVVVV" + "VVVVVVVV" + "VVVVVVVV" + "VS" + "======" == "FVVVVVVVVVVVVVVVVVVVVVVVVS======"
  {
  }

  lemma JoinedG00()
    ensures "G0000000" + "00000000" + "00000000" + "00" + "======" == "G0000000000000000000000000======"
  {
  }

  lemma JoinedG04()
    ensures "G0000000" + "00000000" + "00000000" + "04" + "======" == "G0000000000000000000000004======"
  {
  }

  lemma JoinedGCG()
    ensures "G0000000" + "00000000" + "00000000" + "CG" + "======" == "G00000000000000000000000CG======"
  {
  }
}
