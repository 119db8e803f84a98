/**
 Worked inputs: the byte strings of the repository's reader and parser
 tests (reader_test.go, parser_test.go), with the values and errors the
 model gives for each read in turn.
 */
module Examples {
  import opened Ints
  import opened Errors
  import opened BitStream
  import opened BitReader
  import opened Types
  import opened Reader
  import opened Parser
  import opened Encode
  import opened EncodeHeader

  /** Two bytes and one more: a 16-bit read, then a read that finds only
      one byte (reader_test.go:58-73, 109-124). */
  lemma Int16Example(d: seq<uint8>)
    requires d == [0x03, 0x72, 0x12]
    ensures ReadInt16(Start(d)) == Ok(0x7203, CursorState(d, 2, 0))
         && ReadUInt16(Start(d)) == Ok(0x7203, CursorState(d, 2, 0))
         && ReadInt16(CursorState(d, 2, 0)).Err? && ReadInt16(CursorState(d, 2, 0)).error == UnexpectedEOF
         && ReadUInt16(CursorState(d, 2, 0)).Err? && ReadUInt16(CursorState(d, 2, 0)).error == UnexpectedEOF
  {
  }

  /** Four bytes and one more (reader_test.go:75-90, 126-141). */
  lemma Int32Example(d: seq<uint8>)
    requires d == [0x03, 0x72, 0x12, 0x04, 0x12]
    ensures ReadInt32(Start(d)) == Ok(0x0412_7203, CursorState(d, 4, 0))
         && ReadUInt32(Start(d)) == Ok(0x0412_7203, CursorState(d, 4, 0))
         && ReadInt32(CursorState(d, 4, 0)).Err? && ReadInt32(CursorState(d, 4, 0)).error == UnexpectedEOF
         && ReadUInt32(CursorState(d, 4, 0)).Err? && ReadUInt32(CursorState(d, 4, 0)).error == UnexpectedEOF
  {
  }

  /** One byte, then nothing: the second read is a plain EOF
      (reader_test.go:41-56, 92-107). */
  lemma Int8Example(d: seq<uint8>)
    requires d == [0x03]
    ensures ReadInt8(Start(d)) == Ok(3, CursorState(d, 1, 0))
         && ReadUInt8(Start(d)) == Ok(3, CursorState(d, 1, 0))
         && ReadInt8(CursorState(d, 1, 0)).Err? && ReadInt8(CursorState(d, 1, 0)).error == EOF
         && ReadUInt8(CursorState(d, 1, 0)).Err? && ReadUInt8(CursorState(d, 1, 0)).error == EOF
  {
  }

  /** Encoded 32-bit values (reader_test.go:143-170): one byte for 0x5f,
      three for 0x448a, then a group with its continuation bit set and no
      byte after it, then nothing at all. */
  lemma EUInt32Example(d: seq<uint8>)
    requires d == [0x5f, 0x8a, 0x89, 0x01, 0x8f]
    ensures ReadEUInt32(Start(d)) == Ok(0x5f, CursorState(d, 1, 0))
         && ReadEUInt32(CursorState(d, 1, 0)) == Ok(0x448a, CursorState(d, 4, 0))
         && ReadEUInt32(CursorState(d, 4, 0)) == Err(UnexpectedEOF, CursorState(d, 5, 0))
         && ReadEUInt32(CursorState(d, 5, 0)) == Err(EOF, CursorState(d, 5, 0))
  {
    assert d[0..1] == [0x5f];
    EncodedSingle(0x5f);
    ReadEUInt32Decodes(d, 0, 1, 0x5f);
    assert d[1..4] == [0x8a, 0x89, 0x01] && d[2..4] == [0x89, 0x01] && d[3..4] == [0x01];
    assert EncodedValue([0x01]) == 1 by { EncodedSingle(0x01); }
    assert EncodedValue(d[1..4]) == 0x448a;
    ReadEUInt32Decodes(d, 1, 4, 0x448a);
  }

  /** Bit reads across one byte (reader_test.go:16-39): 3 bits of 0x5f are
      2, the other 5 are 0x1f, and a ninth bit is EOF. */
  lemma ReadBitsExample(d: seq<uint8>)
    requires d == [0x5f]
    ensures ReadBits(Start(d), 3) == Ok(2, CursorState(d, 0, 3))
         && ReadBits(CursorState(d, 0, 3), 5) == Ok(0x1f, CursorState(d, 1, 0))
         && ReadBits(CursorState(d, 1, 0), 1) == Err(EOF, CursorState(d, 1, 0))
  {
    Pow2Table();
    BitsValueInByte(d, 0, 0, 3);
    BitsValueInByte(d, 0, 3, 5);
  }

  /** Bit values of 0x9a = 1001 1010 (reader_test.go:172-238): widths 34
      and 0 are refused; 5 bits are 19 unsigned and -13 signed; the last 3
      are 2 either way; a further bit is EOF. */
  lemma BitValueExample(d: seq<uint8>)
    requires d == [0x9a]
    ensures ReadUBitValue(Start(d), 34) == Err(BadBitWidth, Start(d))
         && ReadUBitValue(Start(d), 0) == Err(BadBitWidth, Start(d))
         && ReadBitValue(Start(d), 34) == Err(BadBitWidth, Start(d))
         && ReadBitValue(Start(d), 0) == Err(BadBitWidth, Start(d))
         && ReadUBitValue(Start(d), 5) == Ok(19, CursorState(d, 0, 5))
         && ReadBitValue(Start(d), 5) == Ok(-13, CursorState(d, 0, 5))
         && ReadUBitValue(CursorState(d, 0, 5), 3) == Ok(2, CursorState(d, 1, 0))
         && ReadBitValue(CursorState(d, 0, 5), 3) == Ok(2, CursorState(d, 1, 0))
         && ReadUBitValue(CursorState(d, 1, 0), 1) == Err(EOF, CursorState(d, 1, 0))
  {
    Pow2Table();
    BitsValueInByte(d, 0, 0, 5);
    BitsValueInByte(d, 0, 5, 3);
  }

  /** 16.16 numbers (reader_test.go:240-259): 7.5, then a fraction word
      without its integer word, then nothing. */
  lemma FixedExample(d: seq<uint8>)
    requires d == [0x00, 0x80, 0x07, 0x00, 0x07, 0x00]
    ensures ReadFixed(Start(d)) == Ok(7.5, CursorState(d, 4, 0))
         && ReadFixed(CursorState(d, 4, 0)) == Err(UnexpectedEOF, CursorState(d, 6, 0))
         && ReadFixed(CursorState(d, 6, 0)) == Err(EOF, CursorState(d, 6, 0))
  {
  }

  /** 8.8 numbers (reader_test.go:261-288): 9.5, then -9.5 from the integer
      byte 0xf7 = -9 with the fraction taken away from zero, then a fraction
      byte alone, then nothing. */
  lemma Fixed8Example(d: seq<uint8>)
    requires d == [0x80, 0x09, 0x80, 0xf7, 0x09]
    ensures ReadFixed8(Start(d)) == Ok(9.5, CursorState(d, 2, 0))
         && ReadFixed8(CursorState(d, 2, 0)) == Ok(-9.5, CursorState(d, 4, 0))
         && ReadFixed8(CursorState(d, 4, 0)) == Err(UnexpectedEOF, CursorState(d, 5, 0))
         && ReadFixed8(CursorState(d, 5, 0)) == Err(EOF, CursorState(d, 5, 0))
  {
  }

  /** Strings (reader_test.go:290-307): "ABC" up to its zero byte, then a
      byte with no zero after it, then nothing. */
  lemma StringExample(d: seq<uint8>)
    requires d == [0x41, 0x42, 0x43, 0x00, 0x45]
    ensures ReadString(Start(d)) == Ok([0x41, 0x42, 0x43], CursorState(d, 4, 0))
         && ReadString(CursorState(d, 4, 0)) == Err(UnexpectedEOF, CursorState(d, 5, 0))
         && ReadString(CursorState(d, 5, 0)) == Err(EOF, CursorState(d, 5, 0))
  {
    assert d[0..4] == EncodeString([0x41, 0x42, 0x43]);
    ReadStringEncoded(d, 0, [0x41, 0x42, 0x43]);
    ReadStringReads(CursorState(d, 4, 0));
  }

  /** handleEOF (parser_test.go:125-142): EOF becomes UnexpectedEOF, other
      errors pass through. */
  lemma HandleEOFExample()
    ensures HandleEOF(EOF) == UnexpectedEOF && HandleEOF(UnexpectedEOF) == UnexpectedEOF
    ensures HandleEOF(MalformedHeader) == MalformedHeader
  {
  }

  /** The powers of two the RECT examples use. */
  lemma Pow2Small()
    ensures Pow2(3) == 8 && Pow2(5) == 32 && Pow2(13) == 0x2000 && Pow2(15) == 0x8000
  {
    Pow2Of5();
    Pow2Of8();
    Pow2Of16();
    Pow2Add(8, 5);
  }

  /** The low three bits of byte `p`. */
  lemma Low3(d: seq<uint8>, p: nat)
    requires p < |d|
    ensures BitsValue(d, 8 * p + 5, 3) == d[p] as int % 8
  {
    BitsValueInByte(d, p, 5, 3);
    Pow2Small();
    LowBits(d[p], BitsValue(d, 8 * p + 5, 3), Pow2(0), Pow2(3));
  }

  /** `v` is x / 2^0 % 2^3, the form BitsValueInByte gives for the low three
      bits; `a` and `b` stand for the two powers so that the solver works
      with the literals 1 and 8 rather than unfolding Pow2. */
  lemma LowBits(x: uint8, v: nat, a: nat, b: nat)
    requires a == 1 && b == 8 && v == (x / a) % b
    ensures v == x as int % 8
  {
  }

  /** The top five bits of byte `p`. */
  lemma Top5(d: seq<uint8>, p: nat)
    requires p < |d|
    ensures BitsValue(d, 8 * p, 5) == d[p] as int / 8
  {
    BitsValueInByte(d, p, 0, 5);
    Pow2Small();
    SmallDiv(d[p]);
  }

  /** A byte divided by 8 has at most five bits, so taking it modulo 32
      changes nothing. */
  lemma SmallDiv(x: uint8)
    ensures (x as int / 8) % 32 == x as int / 8
  {
  }

  /** A 13-bit field at the start of byte `q`: that byte, then the top 5
      bits of the next. */
  lemma Field13(d: seq<uint8>, q: nat)
    requires q + 2 <= |d|
    ensures BitsValue(d, 8 * q, 13) == d[q] as int * 0x20 + d[q + 1] as int / 8
  {
    BitsValueSplit(d, 8 * q, 8, 5);
    assert 8 * q + 8 == 8 * (q + 1);
    ByteBits(d, q);
    Top5(d, q + 1);
    Pow2Small();
  }

  /** A 16-bit field that starts 5 bits into byte `p` takes the low 3 bits
      of that byte, all of the next, and the top 5 of the one after. */
  lemma Field16At5(d: seq<uint8>, p: nat)
    requires p + 3 <= |d|
    ensures BitsValue(d, 8 * p + 5, 16) == (d[p] as int % 8) * 0x2000 + d[p + 1] as int * 0x20 + d[p + 2] as int / 8
  {
    var s := 8 * p + 5;
    BitsValueSplit(d, s, 3, 13);
    assert s + 3 == 8 * (p + 1);
    Low3(d, p);
    Field13(d, p + 1);
    Pow2Small();
  }

  /** The signed 16-bit field 5 bits into byte `p`, when its top bit is clear. */
  lemma SignedField16(d: seq<uint8>, p: nat, v: int)
    requires p + 3 <= |d|
    requires v == (d[p] as int % 8) * 0x2000 + d[p + 1] as int * 0x20 + d[p + 2] as int / 8 && v < 0x8000
    ensures 8 * p + 5 + 16 <= 8 * |d| && SignedField(d, 8 * p + 5, 16) == v
  {
    Field16At5(d, p);
    Pow2Small();
  }

  /** The 5-bit width field of a RECT at byte `p` whose first byte is 0x80. */
  lemma Width16(d: seq<uint8>, p: nat)
    requires p < |d| && d[p] == 0x80
    ensures RectWidth(d, 8 * p) == 16
  {
    Top5(d, p);
  }

  /** The RECT of the header test (parser_test.go:83-105): width 16, then
      Xmin 0, Xmax 25600, Ymin 0, Ymax 20480; the record ends 5 bits into
      its ninth byte. */
  lemma RectExample(d: seq<uint8>)
    requires |d| >= 9 && d[0] == 0x80 && d[1] == 0x00 && d[2] == 0x03 && d[3] == 0x20 && d[4] == 0x00
    requires d[5] == 0x00 && d[6] == 0x02 && d[7] == 0x80 && d[8] == 0x00
    ensures ParseRect(Start(d)) == Ok(Rect(16, 0, 25600, 0, 20480), CursorState(d, 8, 5))
  {
    RectFields(d, 0, Rect(16, 0, 25600, 0, 20480));
    ParseRectReads(Start(d));
    ParseRectEnds(Start(d));
  }

  /** The fields of the test RECT, wherever its nine bytes lie. */
  lemma RectFields(d: seq<uint8>, p: nat, r: Rect)
    requires p + 9 <= |d| && r == Rect(16, 0, 25600, 0, 20480)
    requires d[p] == 0x80 && d[p + 1] == 0x00 && d[p + 2] == 0x03 && d[p + 3] == 0x20 && d[p + 4] == 0x00
    requires d[p + 5] == 0x00 && d[p + 6] == 0x02 && d[p + 7] == 0x80 && d[p + 8] == 0x00
    ensures RectFits(d, 8 * p) && RectAt(d, 8 * p) == r && RectWidth(d, 8 * p) == 16
  {
    var s := 8 * p;
    Width16(d, p);
    SignedField16(d, p, 0);
    SignedField16(d, p + 2, 25600);
    SignedField16(d, p + 4, 0);
    SignedField16(d, p + 6, 20480);
    CoordinatesOf(d, s + 5, 16, r, s + 21, s + 37, s + 53);
    RectOf(d, s, r);
  }

  /** Every cut of the test RECT to 1, 3, 5 or 7 bytes, indeed any input of
      one to seven bytes whose width field says 16, ends unexpectedly
      (parser_test.go:107-122). */
  lemma RectTruncatedExample(d: seq<uint8>)
    requires 1 <= |d| <= 7 && d[0] == 0x80
    ensures ParseRect(Start(d)).Err? && ParseRect(Start(d)).error == UnexpectedEOF
  {
    Width16(d, 0);
    ParseRectSucceeds(Start(d));
    ParseRectFails(Start(d));
  }

  /** The header test (parser_test.go:56-81): an uncompressed file of
      version 11, declared length 11605652, the test RECT, frame rate 50.0
      and one frame; the header takes all 21 bytes. */
  lemma HeaderExample(d: seq<uint8>, inflate: seq<uint8> -> Inflated)
    requires |d| >= 21 && d[0] == 0x46 && d[1] == 0x57 && d[2] == 0x53 && d[3] == 0x0b
    requires d[4] == 0x94 && d[5] == 0x16 && d[6] == 0xb1 && d[7] == 0x00
    requires d[8] == 0x80 && d[9] == 0x00 && d[10] == 0x03 && d[11] == 0x20 && d[12] == 0x00
    requires d[13] == 0x00 && d[14] == 0x02 && d[15] == 0x80 && d[16] == 0x00
    requires d[17] == 0x00 && d[18] == 0x32 && d[19] == 0x01 && d[20] == 0x00
    ensures ParseHeader(d, inflate)
         == Ok(Header(CompressionNone, 11, 11605652, Rect(16, 0, 25600, 0, 20480), 50.0, 1), CursorState(d, 21, 0))
  {
    var r := Rect(16, 0, 25600, 0, 20480);
    RectFields(d, 8, r);
    FrameFields(d, 64, r, 0x00, 0x32, 1);
    HeaderRead(d, inflate, CompressionNone, 11, 11605652, d, 64, (r, 50.0, 1));
  }
}
