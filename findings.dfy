/**
 * Inputs on which the `visit_str` functions of src/ser.rs, as written,
 * accept text that is not the serialization of any value, or panic
 * instead of returning an error; next to each, what the `Exact`
 * decoders, which check the decoded length, do with the same input.
 */
module Findings {
  import opened Wrappers
  import opened Digits
  import opened Ints
  import Hex
  import opened Base32Hex
  import opened Geotime
  import opened Ser
  import opened SerExamples

  /**
   * The hex `visit_str` reads only the first 16 decoded bytes: a
   * serialized value followed by more hex digits is accepted as that
   * value, where the exact decoder reports 17 bytes.
   */
  lemma HexTrailingIgnored(h: LexicalHex)
    ensures HexVisit(HexSerialize(h) + "ff") == Ok(h)
    ensures HexVisitExact(HexSerialize(h) + "ff") == Err(WrongLength(17))
  {
    var bytes := ToBeBytes(Lexify(h.value));
    var longer := bytes + [255];
    Hex.EncodeAppend(bytes, [255]);
    assert [255][1..] == [];
    assert Hex.Encode([255]) == Hex.EncodeByte(255) + Hex.Encode([]);
    EncodedBytes();
    assert Hex.Encode(longer) == HexSerialize(h) + "ff";
    Hex.DecodeEncode(longer);
    assert Hex.Decode(HexSerialize(h) + "ff") == Ok(longer);
    assert longer[..16] == bytes;
    LexifyOrder(HexVisit(HexSerialize(h) + "ff").value.value, h.value);
  }

  /** A hex payload under 16 bytes makes `[0..16]` panic; the exact decoder returns an error. */
  lemma HexShortPanics()
    ensures HexVisit("00") == Err(SlicePanic(1))
    ensures HexVisitExact("00") == Err(WrongLength(1))
  {
    Hex.DecodeEncode([0]);
    assert Hex.Encode([0]) == Hex.EncodeByte(0) + Hex.Encode([]);
    EncodedBytes();
  }

  /** Four copies of one valid block decode to four copies of its bytes. */
  lemma FourBlocks(blk: string, b: seq<byte>)
    requires |blk| == 8 && DecodeBlock(blk) == Ok(b)
    ensures DecodeBlocks(blk + (blk + (blk + blk))) == Ok(b + (b + (b + b)))
  {
    DecodeBlocksCons(blk, "", b, []);
    assert blk + "" == blk && b + [] == b;
    DecodeBlocksCons(blk, blk, b, b);
    DecodeBlocksCons(blk, blk + blk, b, b + b);
    DecodeBlocksCons(blk, blk + (blk + blk), b, b + (b + b));
  }

  /** The final block of the byte `lo` = 0. */
  lemma ZeroBlock(lo: byte, blk: string)
    requires lo == 0 && blk == "00======"
    ensures |blk| == 8 && EncodeBlock([lo]) == blk && DecodeBlock(blk) == Ok([lo])
  {
    LastBlock(lo);
    assert [lo * 4 / 32, lo * 4 % 32] == [0, 0];
    SpelledPairs();
    SpelledLast();
    assert "00" + "======" == blk;
    DecodeEncodeBlock([lo]);
  }

  /**
   * The base32hex `visit_str` reads the zero fill of its buffer as if it
   * had been decoded: four blocks `00======` decode to 4 bytes, the
   * buffer has 20, and the 16 zero bytes read give the smallest count,
   * where the exact decoder reports 4 bytes.
   *
   * Here, in `FourZeroBlocks` and in `ZeroBlock` the block and its byte
   * are parameters fixed by the precondition rather than literals: with
   * the literals in the statement, the verifier unfolds block decoding on
   * them character by character and the proofs run out of resources.
   */
  lemma Base32ZeroFillRead(blk: string)
    requires blk == "00======"
    ensures Base32Visit(blk + (blk + (blk + blk))) == Ok(LexicalBase32Hex(-TWO_127))
    ensures Base32VisitExact(blk + (blk + (blk + blk))) == Err(WrongLength(4))
  {
    var v := blk + (blk + (blk + blk));
    var written: seq<byte> := [0, 0, 0, 0];
    FourZeroBlocks(blk);
    assert DecodeLen(32) == Ok(20);
    Base32VisitSplit(v);
    var x := Base32Visit(v).value.value;
    ZeroPrefix(written, 16);
    ToNatZeros(16, 256);
    assert Bits(Lexify(x)) == 0;
  }

  /** The four one-byte blocks decode to four zero bytes. */
  lemma FourZeroBlocks(blk: string)
    requires blk == "00======"
    ensures |blk + (blk + (blk + blk))| == 32 && DecodeBlocks(blk + (blk + (blk + blk))) == Ok([0, 0, 0, 0])
  {
    var lo := 0;
    ZeroBlock(lo, blk);
    FourBlocks(blk, [lo]);
    assert [lo] + ([lo] + ([lo] + [lo])) == [0, 0, 0, 0];
  }

  /**
   * A serialized base32hex form followed by further blocks decodes to the
   * 16 lexified bytes followed by what those blocks decode to.
   */
  lemma SerializedThen(x: LexicalBase32Hex, tail: string, t: seq<byte>)
    requires DecodeBlocks(tail) == Ok(t)
    ensures DecodeBlocks(Base32Serialize(x) + tail) == Ok(ToBeBytes(Lexify(x.value)) + t)
  {
    Encode16Then(ToBeBytes(Lexify(x.value)), tail, t);
  }

  lemma Encode16Then(b: seq<byte>, tail: string, t: seq<byte>)
    requires |b| == 16 && DecodeBlocks(tail) == Ok(t)
    ensures DecodeBlocks(Encode(b) + tail) == Ok(b + t)
  {
    var p0, p1, p2, p3 := b[..5], b[5..10], b[10..15], b[15..];
    var e0, e1, e2, e3 := EncodeBlock(p0), EncodeBlock(p1), EncodeBlock(p2), EncodeBlock(p3);
    Encode16Blocks(b);
    Split16(b);
    DecodeEncodeBlock(p0);
    DecodeEncodeBlock(p1);
    DecodeEncodeBlock(p2);
    DecodeEncodeBlock(p3);
    FourBlocksThen(e0, e1, e2, e3, p0, p1, p2, p3, tail, t);
    Assoc5(e0, e1, e2, e3, tail);
    Assoc5(p0, p1, p2, p3, t);
  }

  lemma Split16(b: seq<byte>)
    requires |b| == 16
    ensures b == b[..5] + b[5..10] + b[10..15] + b[15..]
  {
  }

  lemma Assoc5<T>(a: seq<T>, b: seq<T>, c: seq<T>, d: seq<T>, e: seq<T>)
    ensures a + b + c + d + e == a + (b + (c + (d + e)))
  {
  }

  /** Four accepted blocks in front of further blocks. */
  lemma FourBlocksThen(e0: string, e1: string, e2: string, e3: string,
                       p0: seq<byte>, p1: seq<byte>, p2: seq<byte>, p3: seq<byte>, tail: string, t: seq<byte>)
    requires |e0| == |e1| == |e2| == |e3| == 8
    requires DecodeBlock(e0) == Ok(p0) && DecodeBlock(e1) == Ok(p1)
    requires DecodeBlock(e2) == Ok(p2) && DecodeBlock(e3) == Ok(p3)
    requires DecodeBlocks(tail) == Ok(t)
    ensures DecodeBlocks(e0 + (e1 + (e2 + (e3 + tail)))) == Ok(p0 + (p1 + (p2 + (p3 + t))))
  {
    DecodeBlocksCons(e3, tail, p3, t);
    DecodeBlocksCons(e2, e3 + tail, p2, p3 + t);
    DecodeBlocksCons(e1, e2 + (e3 + tail), p1, p2 + (p3 + t));
    DecodeBlocksCons(e0, e1 + (e2 + (e3 + tail)), p0, p1 + (p2 + (p3 + t)));
  }

  /**
   * The base32hex `visit_str` reads only the first 16 decoded bytes: a
   * serialized value followed by the block `00======` is accepted as that
   * value, where the exact decoder reports 17 bytes.
   */
  lemma Base32TrailingIgnored(x: LexicalBase32Hex, blk: string)
    requires blk == "00======"
    ensures Base32Visit(Base32Serialize(x) + blk) == Ok(x)
    ensures Base32VisitExact(Base32Serialize(x) + blk) == Err(WrongLength(17))
  {
    var v := Base32Serialize(x) + blk;
    var b := ToBeBytes(Lexify(x.value));
    var lo := 0;
    ZeroBlock(lo, blk);
    DecodeBlocksCons(blk, "", [lo], []);
    assert blk + "" == blk && [lo] + [] == [0];
    SerializedThen(x, blk, [0]);
    assert DecodeLen(|v|) == Ok(25);
    Base32VisitSplit(v);
    assert (b + [0] + Zeros(8))[..16] == b;
    LexifyOrder(Base32Visit(v).value.value, x.value);
  }

  /** Zero bytes followed by zero fill start with 16 zero bytes. */
  lemma ZeroPrefix(w: seq<byte>, k: nat)
    requires |w| + k >= 16 && forall i :: 0 <= i < |w| ==> w[i] == 0
    ensures (w + Zeros(k))[..16] == Rep(16, 0)
  {
  }

  /** An 8-character base32hex input makes a 5-byte buffer, and `[0..16]` panics. */
  lemma Base32ShortPanics()
    ensures Base32Visit("00000000") == Err(SlicePanic(5))
  {
    var v := "00000000";
    assert DecodeLen(|v|) == Ok(5);
    Base32VisitSplit(v);
    FillerBlock(0, 0);
    SpelledPositive();
    DecodeEncodeBlock(Rep(5, 0));
    DecodeBlocksCons(v, "", Rep(5, 0), []);
    assert v + "" == v;
  }
}
