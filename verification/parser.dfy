/**
 The SWF parser of parser.go: the file header (signature, version, file
 length, optional zlib body, frame rectangle, frame rate and count), then
 the tag stream up to and including the End tag. Only End and DoABC tags
 are decoded; every other tag is skipped by its declared length.

 zlib decompression is a parameter: `inflate` maps the compressed bytes
 (everything after the first eight header bytes) to the decompressed body
 or to the error the decompressor reports.
 */
module Parser {
  import opened Ints
  import opened BitStream
  import opened Errors
  import opened BitReader
  import opened Reader
  import opened Types

  /** The outcome of the zlib collaborator. */
  datatype Inflated = Inflated(body: seq<uint8>) | InflateFailed(error: Error)

  /** Signature bytes. */
  const SigF: uint8 := 0x46  // 'F'
  const SigC: uint8 := 0x43  // 'C'
  const SigZ: uint8 := 0x5a  // 'Z'
  const SigW: uint8 := 0x57  // 'W'
  const SigS: uint8 := 0x53  // 'S'

  /** handleEOF (parser.go:43-48): running out of input inside a structure
      is an unexpected end; every other error passes through. */
  function HandleEOF(e: Error): (r: Error)
    ensures r != EOF
    ensures e != EOF ==> r == e
  {
    if e == EOF then UnexpectedEOF else e
  }

  // ---------------------------------------------------------------------
  // RECT

  /** The signed `n`-bit field at bit index `start`. */
  function SignedField(d: seq<uint8>, start: nat, n: nat): (x: int)
    requires 1 <= n <= 32 && start + n <= 8 * |d|
    ensures -(Pow2(n - 1) as int) <= x < Pow2(n - 1)
    ensures -0x8000_0000 <= x < 0x8000_0000
  {
    Pow2Of32();
    Pow2Monotone(n - 1, 31);
    BitsValueBound(d, start, n);
    ToSigned(BitsValue(d, start, n), n)
  }

  /** The readField closure of ParseRect (parser.go:251-258): a signed field
      of `n` bits, where running out of bits is an unexpected end. */
  function ReadField(c: Cursor, n: uint8): (r: Result<int32>)
    ensures r.next.data == c.data
    ensures n == 0 || n > 32 ==> r == Err(BadBitWidth, c)
    ensures 1 <= n <= 32 ==> (r.Ok? <==> BitIndex(c) + n <= 8 * |c.data|)
    ensures 1 <= n <= 32 && r.Err? ==> r.error == UnexpectedEOF
    ensures r.Ok? ==> 1 <= n <= 32 && BitIndex(r.next) == BitIndex(c) + n
    ensures r.Ok? ==> r.value == SignedField(c.data, BitIndex(c), n)
  {
    match ReadBitValue(c, n)
    case Err(e, next) => Err(if e == EOF then UnexpectedEOF else e, next)
    case Ok(v, next) => Ok(v, next)
  }

  /** Whether a RECT record starting at bit index `s` lies inside `d` and
      has a usable field width. */
  predicate RectFits(d: seq<uint8>, s: nat)
  {
    s + 5 <= 8 * |d| && 1 <= RectWidth(d, s) && s + 5 + 4 * RectWidth(d, s) <= 8 * |d|
  }

  /** The 5-bit field width at the start of a RECT record. */
  function RectWidth(d: seq<uint8>, s: nat): (n: nat)
    requires s + 5 <= 8 * |d|
    ensures n < 32
  {
    Pow2Of5();
    BitsValueBound(d, s, 5);
    BitsValue(d, s, 5)
  }

  /** The four coordinates of width `n` at bit index `s`, in the order Xmin,
      Xmax, Ymin, Ymax. */
  function CoordinatesAt(d: seq<uint8>, s: nat, n: nat): (r: Rect)
    requires 1 <= n < 32 && s + 4 * n <= 8 * |d|
    ensures r.nBits == n
  {
    Rect(n, SignedField(d, s, n), SignedField(d, s + n, n),
         SignedField(d, s + 2 * n, n), SignedField(d, s + 3 * n, n))
  }

  /** The RECT record at bit index `s` (section "RECT" of the SWF File Format
      Specification): a 5-bit unsigned width n, then Xmin, Xmax, Ymin and Ymax
      as signed n-bit fields, all packed without padding. */
  function RectAt(d: seq<uint8>, s: nat): (r: Rect)
    requires RectFits(d, s)
  {
    CoordinatesAt(d, s + 5, RectWidth(d, s))
  }

  /** The four readField calls of ParseRect (parser.go:260-271), each
      stopping at the first failure. */
  function ReadCoordinates(c: Cursor, n: uint8): (r: Result<Rect>)
    ensures r.next.data == c.data
    ensures r.Ok? ==> r.value.nBits == n && n >= 1
  {
    match ReadField(c, n)
    case Err(e, next) => Err(e, next)
    case Ok(xMin, c1) =>
      match ReadField(c1, n)
      case Err(e, next) => Err(e, next)
      case Ok(xMax, c2) =>
        match ReadField(c2, n)
        case Err(e, next) => Err(e, next)
        case Ok(yMin, c3) =>
          match ReadField(c3, n)
          case Err(e, next) => Err(e, next)
          case Ok(yMax, c4) => Ok(Rect(n, xMin, xMax, yMin, yMax), c4)
  }

  /** When all four fields fit, ReadCoordinates reads them from consecutive
      bit positions and stops after the last. */
  lemma ReadCoordinatesOk(c: Cursor, n: uint8)
    requires 1 <= n < 32 && BitIndex(c) + 4 * n <= 8 * |c.data|
    ensures ReadCoordinates(c, n).Ok?
    ensures ReadCoordinates(c, n).value == CoordinatesAt(c.data, BitIndex(c), n)
    ensures BitIndex(ReadCoordinates(c, n).next) == BitIndex(c) + 4 * n
  {
    var d, s := c.data, BitIndex(c);
    var r0 := ReadField(c, n);
    var r1 := ReadField(r0.next, n);
    var r2 := ReadField(r1.next, n);
    var r3 := ReadField(r2.next, n);
    assert ReadCoordinates(c, n) == Ok(Rect(n, r0.value, r1.value, r2.value, r3.value), r3.next);
  }

  /** Otherwise it fails: a zero width is the bit-width error; a truncated
      field is an unexpected end. */
  lemma ReadCoordinatesFails(c: Cursor, n: uint8)
    requires n < 32
    ensures ReadCoordinates(c, n).Err? <==> n == 0 || BitIndex(c) + 4 * n > 8 * |c.data|
    ensures ReadCoordinates(c, n).Err? ==> ReadCoordinates(c, n).error == if n == 0 then BadBitWidth else UnexpectedEOF
  {
    if 1 <= n && BitIndex(c) + 4 * n <= 8 * |c.data| {
      ReadCoordinatesOk(c, n);
    } else if n >= 1 {
      var r0 := ReadField(c, n);
      if r0.Ok? {
        var r1 := ReadField(r0.next, n);
        if r1.Ok? {
          var r2 := ReadField(r1.next, n);
          if r2.Ok? {
            assert ReadField(r2.next, n).Err?;
          }
        }
      }
    }
  }

  /** ParseRect (parser.go:244-273). A failure of the width read is returned
      as it is; a failure of a coordinate read is an unexpected end. */
  function ParseRect(c: Cursor): (r: Result<Rect>)
    ensures r.next.data == c.data
    ensures r.Ok? ==> r.value.nBits >= 1
  {
    match ReadUBitValue(c, 5)
    case Err(e, next) => Err(e, next)
    case Ok(nBits, c0) =>
      assert nBits == RectWidth(c.data, BitIndex(c));
      ReadCoordinates(c0, nBits)
  }

  /** ParseRect is the width read followed by ReadCoordinates at the bit
      after the width. */
  lemma ParseRectSteps(c: Cursor)
    requires BitIndex(c) + 5 <= 8 * |c.data|
    ensures ReadUBitValue(c, 5).Ok? && ReadUBitValue(c, 5).value == RectWidth(c.data, BitIndex(c))
    ensures BitIndex(ReadUBitValue(c, 5).next) == BitIndex(c) + 5
    ensures ParseRect(c) == ReadCoordinates(ReadUBitValue(c, 5).next, RectWidth(c.data, BitIndex(c)))
  {
  }

  /** ParseRect succeeds exactly on a RECT record that fits. */
  lemma ParseRectSucceeds(c: Cursor)
    ensures ParseRect(c).Ok? <==> RectFits(c.data, BitIndex(c))
  {
    if BitIndex(c) + 5 <= 8 * |c.data| {
      ParseRectSteps(c);
      ReadCoordinatesFails(ReadUBitValue(c, 5).next, RectWidth(c.data, BitIndex(c)));
    }
  }

  /** A successful ParseRect returns the record at the cursor. */
  lemma ParseRectReads(c: Cursor)
    requires RectFits(c.data, BitIndex(c))
    ensures ParseRect(c).Ok? && ParseRect(c).value == RectAt(c.data, BitIndex(c))
  {
    var d, s := c.data, BitIndex(c);
    ParseRectSteps(c);
    ReadCoordinatesOk(ReadUBitValue(c, 5).next, RectWidth(d, s));
  }

  /** A successful ParseRect stops right after the last field of the record. */
  lemma ParseRectEnds(c: Cursor)
    requires RectFits(c.data, BitIndex(c))
    ensures ParseRect(c).Ok? && BitIndex(ParseRect(c).next) == BitIndex(c) + 5 + 4 * RectWidth(c.data, BitIndex(c))
  {
    ParseRectSteps(c);
    ReadCoordinatesOk(ReadUBitValue(c, 5).next, RectWidth(c.data, BitIndex(c)));
  }

  /** How ParseRect fails: no room for the width is EOF, a zero width is the
      bit-width error, and a truncated coordinate is an unexpected end. */
  lemma ParseRectFails(c: Cursor)
    ensures ParseRect(c).Err? ==> (ParseRect(c).error == EOF <==> BitIndex(c) + 5 > 8 * |c.data|)
    ensures ParseRect(c).Err? && BitIndex(c) + 5 <= 8 * |c.data| ==>
      ParseRect(c).error == if RectWidth(c.data, BitIndex(c)) == 0 then BadBitWidth else UnexpectedEOF
  {
    if BitIndex(c) + 5 <= 8 * |c.data| {
      ParseRectSteps(c);
      ReadCoordinatesFails(ReadUBitValue(c, 5).next, RectWidth(c.data, BitIndex(c)));
    }
  }

  // ---------------------------------------------------------------------
  // Header

  /** replaceReader (parser.go:74-97): for a zlib file, the reader is
      replaced by one over the decompressed body, which starts after the
      eight uncompressed header bytes. */
  function ReplaceReader(c: Cursor, compression: Compression, inflate: seq<uint8> -> Inflated): (r: Result<()>)
    ensures compression != CompressionZlib ==> r == Ok((), c)
    ensures compression == CompressionZlib && |c.data| >= 8 ==>
      match inflate(c.data[8..])
      case Inflated(body) => r == Ok((), Start(body))
      case InflateFailed(e) => r.Err? && r.error == e
  {
    if compression != CompressionZlib then Ok((), c)
    else
      match Seek(c, 8, SeekStart)
      case Err(e, next) => Err(e, next)
      case Ok(_, next) =>
        var compressed := if |c.data| >= 8 then c.data[8..] else [];
        match inflate(compressed)
        case InflateFailed(e) => Err(e, next)
        case Inflated(body) => Ok((), Start(body))
  }

  /** The three signature bytes, or the failure the signature check reports
      (parser.go:100-126). */
  function ReadSignature(c: Cursor): (r: Result<Compression>)
    ensures r.next.data == c.data
    ensures r.Ok? ==> r.value != CompressionLZMA
  {
    match ReadUInt8(c)
    case Err(e, next) => Err(HandleEOF(e), next)
    case Ok(s0, c1) =>
      if s0 == SigZ then Err(UnsupportedFile, c1)
      else if s0 != SigF && s0 != SigC then Err(MalformedHeader, c1)
      else
        var compression := if s0 == SigF then CompressionNone else CompressionZlib;
        match ReadUInt8(c1)
        case Err(e, next) => Err(HandleEOF(e), next)
        case Ok(s1, c2) =>
          if s1 != SigW then Err(MalformedHeader, c2)
          else
            match ReadUInt8(c2)
            case Err(e, next) => Err(HandleEOF(e), next)
            case Ok(s2, c3) =>
              if s2 != SigS then Err(MalformedHeader, c3)
              else Ok(compression, c3)
  }

  /** A file that starts with "FWS" (uncompressed) or "CWS" (zlib). */
  predicate ValidSignature(data: seq<uint8>)
  {
    |data| >= 3 && (data[0] == SigF || data[0] == SigC) && data[1] == SigW && data[2] == SigS
  }

  /** A file too short to hold a signature whose bytes all agree with "FWS"
      or "CWS" so far. */
  predicate TruncatedSignature(data: seq<uint8>)
  {
    |data| < 3 && (|data| > 0 ==> data[0] == SigF || data[0] == SigC) && (|data| > 1 ==> data[1] == SigW)
  }

  /** The compression a valid signature names. */
  function SignatureCompression(data: seq<uint8>): Compression
    requires ValidSignature(data)
  {
    if data[0] == SigF then CompressionNone else CompressionZlib
  }

  /** The signature check accepts exactly "FWS" and "CWS" and stops after
      them. */
  lemma ReadSignatureReads(data: seq<uint8>)
    ensures ReadSignature(Start(data)).Ok? <==> ValidSignature(data)
    ensures ValidSignature(data) ==>
      ReadSignature(Start(data)) == Ok(SignatureCompression(data), CursorState(data, 3, 0))
  {
  }

  /** How the signature check fails: 'Z' (LZMA) is unsupported, a file that
      ends early inside a plausible signature is an unexpected end, and any
      other mismatch is a malformed header. */
  lemma ReadSignatureFails(data: seq<uint8>)
    ensures ReadSignature(Start(data)).Err? ==>
      (ReadSignature(Start(data)).error == UnsupportedFile <==> |data| > 0 && data[0] == SigZ)
    ensures ReadSignature(Start(data)).Err? ==>
      (ReadSignature(Start(data)).error == UnexpectedEOF <==> TruncatedSignature(data))
    ensures ReadSignature(Start(data)).Err? ==>
      ReadSignature(Start(data)).error == UnsupportedFile || ReadSignature(Start(data)).error == UnexpectedEOF
      || ReadSignature(Start(data)).error == MalformedHeader
  {
  }

  /** What follows replaceReader in ParseHeader (parser.go:140-153): the
      frame rectangle, the frame rate and the frame count, each failure
      passed through handleEOF. */
  function ParseFrame(c: Cursor): (r: Result<(Rect, real, uint16)>)
    ensures r.next.data == c.data
    ensures r.Ok? ==> r.value.0.nBits >= 1
  {
    match ParseRect(c)
    case Err(e, next) => Err(HandleEOF(e), next)
    case Ok(frameSize, c1) => ParseFrameRest(c1, frameSize)
  }

  /** The frame rate and the frame count after the frame rectangle. */
  function ParseFrameRest(c: Cursor, frameSize: Rect): (r: Result<(Rect, real, uint16)>)
    ensures r.next.data == c.data
    ensures r.Ok? ==> r.value.0 == frameSize
  {
    match ReadFixed8(c)
    case Err(e, next) => Err(HandleEOF(e), next)
    case Ok(frameRate, c2) =>
      match ReadUInt16(c2)
      case Err(e, next) => Err(HandleEOF(e), next)
      case Ok(frameCount, c3) => Ok((frameSize, frameRate, frameCount), c3)
  }

  /** The byte after a RECT record at bit index `s`: records end on a byte
      boundary, the unused low bits of their last byte being padding. */
  function RectEnd(d: seq<uint8>, s: nat): nat
    requires s + 5 <= 8 * |d|
  {
    (s + 5 + 4 * RectWidth(d, s) + 7) / 8
  }

  /** Whether the frame fields starting at bit index `s` lie inside `d`. */
  predicate FrameFits(d: seq<uint8>, s: nat)
  {
    RectFits(d, s) && RectEnd(d, s) + 4 <= |d|
  }

  /** The frame fields at bit index `s`: the RECT record, then from the next
      byte boundary the 8.8 frame rate (fraction byte first) and the 16-bit
      little-endian frame count. */
  function FrameAt(d: seq<uint8>, s: nat): (Rect, real, uint16)
    requires FrameFits(d, s)
  {
    var p := RectEnd(d, s);
    (RectAt(d, s), Fixed8Value(d[p], SignedByte(d[p + 1])), Word16(d, p + 2))
  }

  /** After a RECT record that fits, the next byte read starts at RectEnd. */
  lemma ParseRectAligned(c: Cursor)
    requires RectFits(c.data, BitIndex(c))
    ensures ParseRect(c).Ok? && Align(ParseRect(c).next).pos == RectEnd(c.data, BitIndex(c))
  {
    ParseRectSucceeds(c);
    ParseRectEnds(c);
  }

  /** ParseFrame succeeds exactly when the frame fields fit. */
  lemma ParseFrameSucceeds(c: Cursor)
    ensures ParseFrame(c).Ok? <==> FrameFits(c.data, BitIndex(c))
  {
    ParseRectSucceeds(c);
    if RectFits(c.data, BitIndex(c)) {
      ParseRectAligned(c);
    }
  }

  /** A successful ParseFrame returns the frame fields and stops right after
      the frame count. */
  lemma ParseFrameReads(c: Cursor)
    requires FrameFits(c.data, BitIndex(c))
    ensures ParseFrame(c) == Ok(FrameAt(c.data, BitIndex(c)), CursorState(c.data, RectEnd(c.data, BitIndex(c)) + 4, 0))
  {
    var d, s := c.data, BitIndex(c);
    assert RectFits(d, s);
    ParseRectReads(c);
    ParseRectAligned(c);
    var r := ParseRect(c);
    ParseFrameAfterRect(c, r.value, r.next);
    ParseFrameRestAt(r.next, r.value, RectEnd(d, s));
  }

  /** ParseFrame after a RECT record that ends with room for the frame rate
      and the frame count. */
  lemma ParseFrameAfterRect(c: Cursor, rect: Rect, c1: Cursor)
    requires ParseRect(c) == Ok(rect, c1)
    ensures ParseFrame(c) == ParseFrameRest(c1, rect)
  {
  }

  lemma ParseFrameRestAt(c: Cursor, rect: Rect, p: nat)
    requires p == Align(c).pos && p + 4 <= |c.data|
    ensures ParseFrameRest(c, rect)
         == Ok((rect, Fixed8Value(c.data[p], SignedByte(c.data[p + 1])), Word16(c.data, p + 2)),
               CursorState(c.data, p + 4, 0))
  {
    var c2: Cursor := CursorState(c.data, p + 2, 0);
    assert ReadFixed8(c) == Ok(Fixed8Value(c.data[p], SignedByte(c.data[p + 1])), c2);
    assert ReadUInt16(c2) == Ok(Word16(c.data, p + 2), CursorState(c.data, p + 4, 0));
  }

  /** How ParseFrame fails: a zero field width is the bit-width error, and
      every other failure is an unexpected end. */
  lemma ParseFrameFails(c: Cursor)
    ensures ParseFrame(c).Err? ==> ParseFrame(c).error == BadBitWidth || ParseFrame(c).error == UnexpectedEOF
    ensures ParseFrame(c).Err? ==>
      (ParseFrame(c).error == BadBitWidth <==> BitIndex(c) + 5 <= 8 * |c.data| && RectWidth(c.data, BitIndex(c)) == 0)
  {
    var r := ParseRect(c);
    ParseRectFails(c);
    ParseRectSucceeds(c);
    if r.Ok? {
      ParseFrameAfterRect(c, r.value, r.next);
      ParseFrameRestFails(r.next, r.value);
    }
  }

  /** After the rectangle, every failure is an unexpected end. */
  lemma ParseFrameRestFails(c: Cursor, rect: Rect)
    ensures ParseFrameRest(c, rect).Err? ==> ParseFrameRest(c, rect).error == UnexpectedEOF
  {
  }

  /** ParseHeader (parser.go:99-154) on the whole file `data`. A failure to
      read the version byte is returned as it is, without handleEOF. */
  function ParseHeader(data: seq<uint8>, inflate: seq<uint8> -> Inflated): (r: Result<Header>)
  {
    match ReadSignature(Start(data))
    case Err(e, next) => Err(e, next)
    case Ok(compression, c3) =>
      match ReadUInt8(c3)
      case Err(e, next) => Err(e, next)
      case Ok(version, c4) =>
        match ReadUInt32(c4)
        case Err(e, next) => Err(HandleEOF(e), next)
        case Ok(fileLength, c5) =>
          match ReplaceReader(c5, compression, inflate)
          case Err(e, next) => Err(HandleEOF(e), next)
          case Ok(_, c6) =>
            match ParseFrame(c6)
            case Err(e, next) => Err(e, next)
            case Ok(frame, c9) =>
              Ok(Header(compression, version, fileLength, frame.0, frame.1, frame.2), c9)
  }

  /** The bytes the frame fields are read from, and the bit index they start
      at: the file itself after its eight-byte prefix, or the decompressed
      body from its start. None when decompression fails. */
  function FrameSource(data: seq<uint8>, inflate: seq<uint8> -> Inflated): Option<(seq<uint8>, nat)>
    requires ValidSignature(data) && |data| >= 8
  {
    if data[0] == SigF then Some((data, 64))
    else
      match inflate(data[8..])
      case Inflated(body) => Some((body, 0))
      case InflateFailed(_) => None
  }

  /** The eight-byte prefix: signature, version byte and 32-bit file length. */
  lemma ParseHeaderPrefix(data: seq<uint8>, inflate: seq<uint8> -> Inflated)
    requires ValidSignature(data) && |data| >= 8
    ensures ReadSignature(Start(data)) == Ok(SignatureCompression(data), CursorState(data, 3, 0))
    ensures ReadUInt8(CursorState(data, 3, 0)) == Ok(data[3] as nat, CursorState(data, 4, 0))
    ensures ReadUInt32(CursorState(data, 4, 0)) == Ok(Word32(data, 4), CursorState(data, 8, 0))
    ensures ReplaceReader(CursorState(data, 8, 0), SignatureCompression(data), inflate).Ok?
            <==> FrameSource(data, inflate).Some?
    ensures FrameSource(data, inflate).Some? ==>
      var src := FrameSource(data, inflate).value;
      ReplaceReader(CursorState(data, 8, 0), SignatureCompression(data), inflate).next == AtBit(src.0, src.1)
  {
    ReadSignatureReads(data);
  }

  /** ParseHeader succeeds exactly on a valid signature followed by the
      version, the file length and frame fields that fit, and then returns
      what those bytes hold. */
  lemma ParseHeaderReads(data: seq<uint8>, inflate: seq<uint8> -> Inflated)
    ensures ParseHeader(data, inflate).Ok? <==>
      && ValidSignature(data) && |data| >= 8
      && FrameSource(data, inflate).Some?
      && FrameFits(FrameSource(data, inflate).value.0, FrameSource(data, inflate).value.1)
    ensures ParseHeader(data, inflate).Ok? ==>
      && ValidSignature(data) && |data| >= 8 && FrameSource(data, inflate).Some?
      && var src := FrameSource(data, inflate).value;
      && FrameFits(src.0, src.1)
      && var frame := FrameAt(src.0, src.1);
      && ParseHeader(data, inflate).value
         == Header(SignatureCompression(data), data[3], Word32(data, 4), frame.0, frame.1, frame.2)
  {
    ReadSignatureReads(data);
    if ValidSignature(data) && |data| >= 8 {
      ParseHeaderPrefix(data, inflate);
      var src := FrameSource(data, inflate);
      if src.Some? {
        var c6 := AtBit(src.value.0, src.value.1);
        ParseFrameSucceeds(c6);
        if FrameFits(src.value.0, src.value.1) {
          ParseFrameReads(c6);
        }
      }
    }
  }

  /** A successful ParseHeader leaves the cursor right after the frame count,
      in the file itself or in the decompressed body; the tags start there. */
  lemma ParseHeaderNext(data: seq<uint8>, inflate: seq<uint8> -> Inflated)
    requires ParseHeader(data, inflate).Ok?
    ensures ValidSignature(data) && |data| >= 8 && FrameSource(data, inflate).Some?
    ensures var src := FrameSource(data, inflate).value;
      && FrameFits(src.0, src.1)
      && ParseHeader(data, inflate).next == CursorState(src.0, RectEnd(src.0, src.1) + 4, 0)
  {
    ParseHeaderReads(data, inflate);
    ParseHeaderPrefix(data, inflate);
    var src := FrameSource(data, inflate).value;
    ParseFrameReads(AtBit(src.0, src.1));
  }

  /** The one failure that escapes handleEOF: a file that ends right after
      a valid signature reports a plain end of input (parser.go:127-130). */
  lemma ParseHeaderRawEOF(data: seq<uint8>, inflate: seq<uint8> -> Inflated)
    ensures ParseHeader(data, inflate).Err? && ParseHeader(data, inflate).error == EOF
            <==> ValidSignature(data) && |data| == 3
  {
    ReadSignatureReads(data);
    ReadSignatureFails(data);
    if ValidSignature(data) && |data| > 3 {
      var c4 := CursorState(data, 4, 0);
      if |data| >= 8 {
        ParseHeaderPrefix(data, inflate);
        var src := FrameSource(data, inflate);
        if src.Some? {
          ParseFrameFails(AtBit(src.value.0, src.value.1));
        }
      }
    }
  }

  // ---------------------------------------------------------------------
  // Tags

  /** The declared length of a tag: the low six bits of its code word, or,
      when they are all set, the 32-bit length that follows (parser.go:181-187). */
  function ReadTagLength(c: Cursor, short: nat): (r: Result<nat>)
    requires short < 0x40
    ensures r.next.data == c.data
    ensures short < 0x3f ==> r == Ok(short, c)
    ensures short == 0x3f ==> r == ReadUInt32(c)
  {
    if short == 0x3f then ReadUInt32(c) else Ok(short, c)
  }

  /** The flags and the name at the start of a DoABC body
      (parser.go:221-228). */
  function ReadFlagsAndName(c: Cursor): (r: Result<(uint32, seq<uint8>)>)
    ensures r.next.data == c.data
    ensures r.Ok? ==> r.next.bit == 0
  {
    match ReadUInt32(c)
    case Err(e, next) => Err(HandleEOF(e), next)
    case Ok(flags, c1) =>
      match ReadString(c1)
      case Err(e, next) => Err(HandleEOF(e), next)
      case Ok(name, c2) => Ok((flags, name), c2)
  }

  /** Whether flags and a zero-terminated name lie ahead of an aligned
      cursor. */
  predicate NameFits(c: Cursor)
  {
    c.bit == 0 && c.pos + 4 <= |c.data| && ZeroFrom(c.data, c.pos + 4) < |c.data|
  }

  /** The byte after the terminator of the name. */
  function NameEnd(c: Cursor): (e: nat)
    requires NameFits(c)
    ensures c.pos + 5 <= e <= |c.data|
  {
    ZeroFrom(c.data, c.pos + 4) + 1
  }

  /** The cursor just past the name's terminating zero. */
  function AfterName(c: Cursor): (a: Cursor)
    requires NameFits(c)
    ensures a.data == c.data && a.pos == NameEnd(c) && a.bit == 0
  {
    CursorState(c.data, NameEnd(c), 0)
  }

  /** The flags (a 32-bit little-endian word) and the name found there. */
  function FlagsAndNameAt(c: Cursor): (uint32, seq<uint8>)
    requires NameFits(c)
  {
    (Word32(c.data, c.pos), c.data[c.pos + 4..NameEnd(c) - 1])
  }

  /** The flags are the 32-bit word at the cursor and the name runs to the
      next zero byte; anything shorter is an unexpected end. */
  lemma ReadFlagsAndNameReads(c: Cursor)
    requires c.bit == 0
    ensures ReadFlagsAndName(c).Ok? <==> NameFits(c)
    ensures NameFits(c) ==> ReadFlagsAndName(c) == Ok(FlagsAndNameAt(c), AfterName(c))
    ensures ReadFlagsAndName(c).Err? ==> ReadFlagsAndName(c).error == UnexpectedEOF
  {
    var d, q := c.data, c.pos;
    if q + 4 <= |d| {
      var c1 := CursorState(d, q + 4, 0);
      assert ReadUInt32(c) == Ok(Word32(d, q), c1);
      ReadStringZero(c1);
      ReadStringReads(c1);
    }
  }

  lemma ReadFlagsAndNameAt(c: Cursor, fn: (uint32, seq<uint8>), c2: Cursor)
    requires NameFits(c) && fn == FlagsAndNameAt(c) && c2 == AfterName(c)
    ensures ReadFlagsAndName(c) == Ok(fn, c2)
  {
    ReadFlagsAndNameReads(c);
  }

  /** ParseTagDoABC as written (parser.go:216-241): the length of the ABC
      data is the declared length minus the bytes of flags and name, in
      uint32 arithmetic. When flags and name are longer than the declared
      length, the subtraction wraps around. */
  function ParseTagDoABCAsWritten(c: Cursor, length: uint32): (r: Result<Tag>)
    ensures r.next.data == c.data
  {
    match Seek(c, 0, SeekCurrent)
    case Err(e, next) => Err(e, next)
    case Ok(begin, c0) =>
      match ReadFlagsAndName(c0)
      case Err(e, next) => Err(e, next)
      case Ok(flagsAndName, c2) => ABCDataAsWritten(c2, begin, length, flagsAndName)
  }

  /** The rest of ParseTagDoABCAsWritten once flags and name are read
      (parser.go:229-240), `begin` being the position before them. */
  function ABCDataAsWritten(c: Cursor, begin: int, length: uint32, flagsAndName: (uint32, seq<uint8>)): (r: Result<Tag>)
    ensures r.next.data == c.data
  {
    match Seek(c, 0, SeekCurrent)
    case Err(e, next) => Err(e, next)
    case Ok(end, c3) =>
      ReadABCData(c3, length, flagsAndName, Sub32(length, Trunc32(end - begin)))
  }

  /** The last step of ParseTagDoABC (parser.go:234-240): `n` bytes of ABC
      data, a shortfall being an unexpected end. */
  function ReadABCData(c: Cursor, length: uint32, flagsAndName: (uint32, seq<uint8>), n: nat): (r: Result<Tag>)
    ensures r.next.data == c.data
    ensures r.Ok? <==> n == 0 || Align(c).pos + n <= |c.data|
    ensures r.Ok? ==> r.next == CursorState(c.data, Align(c).pos + n, 0)
    ensures r.Ok? ==> r.value.DoABC? && r.value.length == length
                      && r.value.flags == flagsAndName.0 && r.value.name == flagsAndName.1
    ensures r.Ok? ==> r.value.abcData == if n == 0 then [] else c.data[Align(c).pos..Align(c).pos + n]
    ensures r.Err? ==> r.error == UnexpectedEOF
  {
    match ReadBytes(c, n)
    case Err(e, next) => Err(HandleEOF(e), next)
    case Ok(abcData, next) => Ok(DoABC(length, flagsAndName.0, flagsAndName.1, abcData), next)
  }

  /** ParseTagDoABC with the evidently intended length check: a tag whose
      flags and name do not fit in its declared length is malformed. */
  function ParseTagDoABC(c: Cursor, length: uint32): (r: Result<Tag>)
    ensures r.next.data == c.data
    ensures r.Ok? ==> r.value.DoABC? && r.value.length == length
                      && r.next.pos == Align(c).pos + length && r.next.bit == 0
    ensures r.Err? ==> r.error == EOF || r.error == UnexpectedEOF || r.error == MalformedTag
  {
    match Seek(c, 0, SeekCurrent)
    case Err(e, next) => Err(e, next)
    case Ok(begin, c0) =>
      match ReadFlagsAndName(c0)
      case Err(e, next) => Err(e, next)
      case Ok(flagsAndName, c2) => ABCDataChecked(c2, begin, length, flagsAndName)
  }

  /** The rest of the corrected ParseTagDoABC once flags and name are read. */
  function ABCDataChecked(c: Cursor, begin: int, length: uint32, flagsAndName: (uint32, seq<uint8>)): (r: Result<Tag>)
    ensures r.next.data == c.data
  {
    match Seek(c, 0, SeekCurrent)
    case Err(e, next) => Err(e, next)
    case Ok(end, c3) =>
      if end - begin > length then Err(MalformedTag, c3)
      else ReadABCData(c3, length, flagsAndName, length - (end - begin))
  }

  /** ParseTagDoABCAsWritten once flags and name are read: the seeks report
      the positions before and after them, so the ABC data length is the
      declared length minus their size, modulo 2^32. */
  lemma DoABCAsWrittenAfter(c: Cursor, length: uint32, fn: (uint32, seq<uint8>), c2: Cursor, n: nat)
    requires c.bit == 0 && ReadFlagsAndName(c) == Ok(fn, c2) && n == Sub32(length, Trunc32(c2.pos - c.pos))
    ensures ParseTagDoABCAsWritten(c, length) == ReadABCData(c2, length, fn, n)
  {
    assert Seek(c, 0, SeekCurrent) == Ok(c.pos, c);
    assert ParseTagDoABCAsWritten(c, length) == ABCDataAsWritten(c2, c.pos, length, fn);
    ABCDataAsWrittenAt(c2, c.pos, length, fn, n);
  }

  lemma ABCDataAsWrittenAt(c: Cursor, begin: int, length: uint32, fn: (uint32, seq<uint8>), n: nat)
    requires c.bit == 0 && n == Sub32(length, Trunc32(c.pos - begin))
    ensures ABCDataAsWritten(c, begin, length, fn) == ReadABCData(c, length, fn, n)
  {
    assert Seek(c, 0, SeekCurrent) == Ok(c.pos, c);
  }

  /** The same for the corrected ParseTagDoABC, which first checks that flags
      and name fit in the declared length. */
  lemma DoABCAfter(c: Cursor, length: uint32, fn: (uint32, seq<uint8>), c2: Cursor)
    requires c.bit == 0 && ReadFlagsAndName(c) == Ok(fn, c2)
    ensures ParseTagDoABC(c, length)
         == if c2.pos - c.pos > length then Err(MalformedTag, c2)
            else ReadABCData(c2, length, fn, length - (c2.pos - c.pos))
  {
    assert Seek(c, 0, SeekCurrent) == Ok(c.pos, c);
    assert ParseTagDoABC(c, length) == ABCDataChecked(c2, c.pos, length, fn);
    ABCDataCheckedAt(c2, c.pos, length, fn);
  }

  lemma ABCDataCheckedAt(c: Cursor, begin: int, length: uint32, fn: (uint32, seq<uint8>))
    requires c.bit == 0
    ensures ABCDataChecked(c, begin, length, fn)
         == if c.pos - begin > length then Err(MalformedTag, c)
            else ReadABCData(c, length, fn, length - (c.pos - begin))
  {
    assert Seek(c, 0, SeekCurrent) == Ok(c.pos, c);
  }

  /** Where flags and name fit in the declared length, the code as written
      and the corrected ParseTagDoABC agree. */
  lemma DoABCAsWrittenAgrees(c: Cursor, length: uint32)
    requires c.bit == 0
    requires NameFits(c) ==> NameEnd(c) <= c.pos + length
    ensures ParseTagDoABCAsWritten(c, length) == ParseTagDoABC(c, length)
  {
    ReadFlagsAndNameReads(c);
    if NameFits(c) {
      var fn, c2 := FlagsAndNameAt(c), AfterName(c);
      ReadFlagsAndNameAt(c, fn, c2);
      DoABCAgreesAfter(c, length, fn, c2);
    } else {
      DoABCNameFails(c, length);
    }
  }

  lemma DoABCAgreesAfter(c: Cursor, length: uint32, fn: (uint32, seq<uint8>), c2: Cursor)
    requires c.bit == 0 && ReadFlagsAndName(c) == Ok(fn, c2) && c.pos <= c2.pos <= c.pos + length
    ensures ParseTagDoABCAsWritten(c, length) == ParseTagDoABC(c, length)
  {
    var n: nat := length - (c2.pos - c.pos);
    DoABCAsWrittenFits(c, length, fn, c2, n);
    DoABCAfter(c, length, fn, c2);
  }

  lemma DoABCAsWrittenFits(c: Cursor, length: uint32, fn: (uint32, seq<uint8>), c2: Cursor, n: nat)
    requires c.bit == 0 && ReadFlagsAndName(c) == Ok(fn, c2) && c.pos <= c2.pos && n == length - (c2.pos - c.pos)
    ensures ParseTagDoABCAsWritten(c, length) == ReadABCData(c2, length, fn, n)
  {
    var k: nat := c2.pos - c.pos;
    Sub32Exact(length, k);
    assert Sub32(length, Trunc32(c2.pos - c.pos)) == n;
    DoABCAsWrittenAfter(c, length, fn, c2, n);
  }

  /** A failure to read flags and name is the failure of both versions. */
  lemma DoABCNameFails(c: Cursor, length: uint32)
    requires c.bit == 0 && ReadFlagsAndName(c).Err?
    ensures ParseTagDoABCAsWritten(c, length) == Err(ReadFlagsAndName(c).error, ReadFlagsAndName(c).next)
    ensures ParseTagDoABC(c, length) == Err(ReadFlagsAndName(c).error, ReadFlagsAndName(c).next)
  {
    assert Seek(c, 0, SeekCurrent) == Ok(c.pos, c);
  }

  /** Where flags and name run past the declared length, the uint32
      subtraction of parser.go:233 wraps around: the code as written asks for
      nearly 4 GiB of ABC data, fails with an unexpected end on any shorter
      input, and when it succeeds it stops 2^32 bytes past the end of the tag. */
  lemma DoABCAsWrittenWraps(c: Cursor, length: uint32)
    requires NameFits(c) && c.pos + length < NameEnd(c) < c.pos + 0x1_0000_0000
    ensures ParseTagDoABCAsWritten(c, length).Ok? ==>
      ParseTagDoABCAsWritten(c, length).next.pos == c.pos + length + 0x1_0000_0000
    ensures |c.data| < c.pos + length + 0x1_0000_0000 ==>
      ParseTagDoABCAsWritten(c, length).Err? && ParseTagDoABCAsWritten(c, length).error == UnexpectedEOF
  {
    var fn, c2 := FlagsAndNameAt(c), AfterName(c);
    ReadFlagsAndNameAt(c, fn, c2);
    DoABCWrapsAfter(c, length, fn, c2);
  }

  lemma DoABCWrapsAfter(c: Cursor, length: uint32, fn: (uint32, seq<uint8>), c2: Cursor)
    requires c.bit == 0 && ReadFlagsAndName(c) == Ok(fn, c2) && c.pos + length < c2.pos < c.pos + 0x1_0000_0000
    ensures ParseTagDoABCAsWritten(c, length).Ok? ==>
      ParseTagDoABCAsWritten(c, length).next.pos == c.pos + length + 0x1_0000_0000
    ensures |c.data| < c.pos + length + 0x1_0000_0000 ==>
      ParseTagDoABCAsWritten(c, length).Err? && ParseTagDoABCAsWritten(c, length).error == UnexpectedEOF
  {
    var k: nat := c2.pos - c.pos;
    Sub32Wraps(length, k);
    var n: nat := length - k + 0x1_0000_0000;
    assert Sub32(length, Trunc32(c2.pos - c.pos)) == n;
    DoABCAsWrittenAfter(c, length, fn, c2, n);
  }

  /** The corrected ParseTagDoABC rejects a tag whose flags and name run past
      its declared length, whatever follows. */
  lemma ParseTagDoABCOverrun(c: Cursor, length: uint32)
    requires NameFits(c) && NameEnd(c) > c.pos + length
    ensures ParseTagDoABC(c, length) == Err(MalformedTag, AfterName(c))
  {
    var fn, c2 := FlagsAndNameAt(c), AfterName(c);
    ReadFlagsAndNameAt(c, fn, c2);
    DoABCAfter(c, length, fn, c2);
  }

  /** A concrete witness: a DoABC tag declaring 4 bytes whose body holds the
      four flag bytes and an empty name (five bytes). The code as written
      reports an unexpected end after trying to read 2^32 - 1 bytes; the
      corrected parser reports a malformed tag. */
  lemma DoABCOverrunExample()
    ensures ParseTagDoABCAsWritten(Start([1, 0, 0, 0, 0]), 4).Err?
    ensures ParseTagDoABCAsWritten(Start([1, 0, 0, 0, 0]), 4).error == UnexpectedEOF
    ensures ParseTagDoABC(Start([1, 0, 0, 0, 0]), 4) == Err(MalformedTag, CursorState([1, 0, 0, 0, 0], 5, 0))
  {
    var d: seq<uint8> := [1, 0, 0, 0, 0];
    assert ZeroFrom(d, 4) == 4;
    assert NameFits(Start(d)) && NameEnd(Start(d)) == 5;
    DoABCAsWrittenWraps(Start(d), 4);
    ParseTagDoABCOverrun(Start(d), 4);
  }

  /** The corrected ParseTagDoABC reports a malformed tag exactly when flags
      and name are present but run past the declared length; every other
      failure is the unexpected end the code as written reports too. */
  lemma DoABCMalformed(c: Cursor, length: uint32)
    requires c.bit == 0
    ensures ParseTagDoABC(c, length).Err? && ParseTagDoABC(c, length).error == MalformedTag
        <==> NameFits(c) && NameEnd(c) > c.pos + length
  {
    ReadFlagsAndNameReads(c);
    if NameFits(c) {
      var fn, c2 := FlagsAndNameAt(c), AfterName(c);
      ReadFlagsAndNameAt(c, fn, c2);
      DoABCAfter(c, length, fn, c2);
    } else {
      DoABCNameFails(c, length);
    }
  }

  /** The record header of a tag (parser.go:176-187): the tag code and the
      declared length. */
  function ParseTagHeader(c: Cursor): (r: Result<(nat, nat)>)
    ensures r.next.data == c.data
    ensures r.Ok? ==> Align(c).pos + 2 <= r.next.pos <= |c.data| && r.next.bit == 0
    ensures r.Ok? ==> r.value.0 < 0x400 && r.value.1 < 0x1_0000_0000
    ensures r.Err? ==> r.error == UnexpectedEOF
  {
    match ReadUInt16(c)
    case Err(e, next) => Err(HandleEOF(e), next)
    case Ok(codeAndLength, c1) =>
      match ReadTagLength(c1, codeAndLength % 0x40)
      case Err(e, next) => Err(HandleEOF(e), next)
      case Ok(length, c2) => Ok((codeAndLength / 0x40, length), c2)
  }

  /** The body of a tag with the given code and declared length
      (parser.go:189-209): an End tag reads nothing, a DoABC tag is decoded,
      and the body of any other tag is discarded. */
  function ParseTagBody(c: Cursor, code: nat, length: nat): (r: Result<Option<Tag>>)
    requires c.bit == 0 && length < 0x1_0000_0000
    ensures r.next.data == c.data
    ensures r.Ok? ==> c.pos <= r.next.pos && r.next.bit == 0
    ensures r.Ok? && c.pos <= |c.data| ==> r.next.pos <= |c.data|
    ensures r.Err? ==> r.error == UnexpectedEOF || r.error == MalformedTag
  {
    if code == CodeTagEnd then Ok(Some(End(length)), c)
    else if code == CodeTagDoABC then
      match ParseTagDoABC(c, length)
      case Err(e, next) => Err(HandleEOF(e), next)
      case Ok(t, next) => Ok(Some(t), next)
    else
      match ReadBytes(c, length)
      case Err(e, next) => Err(HandleEOF(e), next)
      case Ok(_, next) => Ok(None, next)
  }

  /** Whether the record header of a tag fits at byte `p`: the code word,
      and the 32-bit length when the short length is 0x3f. */
  predicate TagHeaderFits(d: seq<uint8>, p: nat)
  {
    p + 2 <= |d| && (Word16(d, p) % 0x40 == 0x3f ==> p + 6 <= |d|)
  }

  /** The tag code: the upper ten bits of the code word. */
  function TagCode(d: seq<uint8>, p: nat): nat
    requires p + 2 <= |d|
  {
    Word16(d, p) / 0x40
  }

  /** The declared length: the lower six bits of the code word, or the
      32-bit word after it when those bits are all set (a long header). */
  function TagLength(d: seq<uint8>, p: nat): (n: uint32)
    requires TagHeaderFits(d, p)
  {
    if Word16(d, p) % 0x40 == 0x3f then Word32(d, p + 2) else Word16(d, p) % 0x40
  }

  /** The first byte of the tag body. */
  function TagBodyStart(d: seq<uint8>, p: nat): nat
    requires TagHeaderFits(d, p)
  {
    if Word16(d, p) % 0x40 == 0x3f then p + 6 else p + 2
  }

  /** ParseTagHeader reads a short or a long record header exactly. */
  lemma ParseTagHeaderReads(c: Cursor)
    ensures ParseTagHeader(c).Ok? <==> TagHeaderFits(c.data, Align(c).pos)
    ensures TagHeaderFits(c.data, Align(c).pos) ==>
      var d, p := c.data, Align(c).pos;
      ParseTagHeader(c) == Ok((TagCode(d, p), TagLength(d, p)), CursorState(d, TagBodyStart(d, p), 0))
  {
  }

  /** The DoABC body at byte `q` of a tag with declared length `length`:
      flags, a zero-terminated name and the ABC bytes, all inside the tag. */
  predicate DoABCFits(d: seq<uint8>, q: nat, length: uint32)
  {
    q + 4 <= |d| && ZeroFrom(d, q + 4) + 1 <= q + length && q + length <= |d|
  }

  /** The DoABC tag the body at `q` holds (section "DoABC" of the SWF File
      Format Specification): 32-bit flags, the name, then the ABC data up to
      the end of the tag. */
  function DoABCAt(d: seq<uint8>, q: nat, length: uint32): (t: Tag)
    requires DoABCFits(d, q, length)
  {
    var e := ZeroFrom(d, q + 4);
    DoABC(length, Word32(d, q), d[q + 4..e], d[e + 1..q + length])
  }

  /** The corrected ParseTagDoABC succeeds exactly on a DoABC body that lies
      inside its tag. */
  lemma ParseTagDoABCSucceeds(c: Cursor, length: uint32)
    requires c.bit == 0
    ensures ParseTagDoABC(c, length).Ok? <==> DoABCFits(c.data, c.pos, length)
  {
    ReadFlagsAndNameReads(c);
    if NameFits(c) {
      var fn, c2 := FlagsAndNameAt(c), AfterName(c);
      ReadFlagsAndNameAt(c, fn, c2);
      DoABCAfter(c, length, fn, c2);
    } else {
      assert ParseTagDoABC(c, length).Err?;
    }
  }

  /** On such a body it decodes the flags, the name and the rest of the tag
      as ABC data, and stops at the end of the tag. */
  lemma ParseTagDoABCReads(c: Cursor, length: uint32)
    requires c.bit == 0 && DoABCFits(c.data, c.pos, length)
    ensures ParseTagDoABC(c, length) == Ok(DoABCAt(c.data, c.pos, length), CursorState(c.data, c.pos + length, 0))
  {
    assert NameFits(c);
    var fn, c2 := FlagsAndNameAt(c), AfterName(c);
    ReadFlagsAndNameAt(c, fn, c2);
    DoABCAfter(c, length, fn, c2);
    ReadABCDataAt(c, length, fn, c2);
  }

  /** The last step: the ABC data runs from the byte after the name's
      terminator to the end of the tag. */
  lemma ReadABCDataAt(c: Cursor, length: uint32, fn: (uint32, seq<uint8>), c2: Cursor)
    requires NameFits(c) && DoABCFits(c.data, c.pos, length) && fn == FlagsAndNameAt(c) && c2 == AfterName(c)
    ensures ReadABCData(c2, length, fn, length - (c2.pos - c.pos))
         == Ok(DoABCAt(c.data, c.pos, length), CursorState(c.data, c.pos + length, 0))
  {
    var d, e := c.data, NameEnd(c);
    var n: nat := length - (e - c.pos);
    assert Align(c2) == c2 && e + n == c.pos + length;
    var t := DoABC(length, fn.0, fn.1, d[e..c.pos + length]);
    assert DoABCAt(d, c.pos, length) == t;
    ABCDataRead(c2, length, fn, n, t);
  }

  lemma ABCDataRead(c: Cursor, length: uint32, fn: (uint32, seq<uint8>), n: nat, t: Tag)
    requires c.bit == 0 && c.pos + n <= |c.data| && t == DoABC(length, fn.0, fn.1, c.data[c.pos..c.pos + n])
    ensures ReadABCData(c, length, fn, n) == Ok(t, CursorState(c.data, c.pos + n, 0))
  {
    assert Align(c) == c;
    var r := ReadABCData(c, length, fn, n);
    assert r.value.abcData == c.data[c.pos..c.pos + n];
    assert r.value == t;
  }

  /** ParseTag (parser.go:175-210): the record header, then the body. */
  function ParseTag(c: Cursor): (r: Result<Option<Tag>>)
    ensures r.next.data == c.data
    ensures r.Ok? ==> Align(c).pos + 2 <= r.next.pos <= |c.data| && r.next.bit == 0
    ensures r.Err? ==> r.error == UnexpectedEOF || r.error == MalformedTag
  {
    match ParseTagHeader(c)
    case Err(e, next) => Err(e, next)
    case Ok(header, c2) => ParseTagBody(c2, header.0, header.1)
  }

  /** An End tag ends the stream without reading its body, whatever its
      declared length (parser.go:212-214). */
  lemma ParseTagEndReads(c: Cursor)
    requires TagHeaderFits(c.data, Align(c).pos) && TagCode(c.data, Align(c).pos) == CodeTagEnd
    ensures var d, p := c.data, Align(c).pos;
      ParseTag(c) == Ok(Some(End(TagLength(d, p))), CursorState(d, TagBodyStart(d, p), 0))
  {
    ParseTagHeaderReads(c);
  }

  /** A tag other than End and DoABC is skipped: its declared length of
      bytes is discarded, and a body cut short by the end of the input is an
      unexpected end (parser.go:202-209). */
  lemma ParseTagSkips(c: Cursor)
    requires TagHeaderFits(c.data, Align(c).pos)
    requires TagCode(c.data, Align(c).pos) != CodeTagEnd && TagCode(c.data, Align(c).pos) != CodeTagDoABC
    ensures var d, p := c.data, Align(c).pos;
      ParseTag(c).Ok? <==> TagBodyStart(d, p) + TagLength(d, p) <= |d|
    ensures var d, p := c.data, Align(c).pos;
      ParseTag(c).Ok? ==> ParseTag(c) == Ok(None, CursorState(d, TagBodyStart(d, p) + TagLength(d, p), 0))
    ensures ParseTag(c).Err? ==> ParseTag(c).error == UnexpectedEOF
  {
    ParseTagHeaderReads(c);
  }

  /** A DoABC tag is decoded by the corrected ParseTagDoABC from the start of
      its body. */
  lemma ParseTagDoABCTag(c: Cursor)
    requires TagHeaderFits(c.data, Align(c).pos) && TagCode(c.data, Align(c).pos) == CodeTagDoABC
    ensures var d, p := c.data, Align(c).pos; var q, length := TagBodyStart(d, p), TagLength(d, p);
      ParseTag(c).Ok? <==> DoABCFits(d, q, length)
    ensures var d, p := c.data, Align(c).pos; var q, length := TagBodyStart(d, p), TagLength(d, p);
      DoABCFits(d, q, length) ==> ParseTag(c) == Ok(Some(DoABCAt(d, q, length)), CursorState(d, q + length, 0))
  {
    var d, p := c.data, Align(c).pos;
    var q, length := TagBodyStart(d, p), TagLength(d, p);
    ParseTagHeaderReads(c);
    ParseTagDoABCSucceeds(CursorState(d, q, 0), length);
    if DoABCFits(d, q, length) {
      ParseTagDoABCReads(CursorState(d, q, 0), length);
    }
  }

  /** The tag code and declared length of the header are what a decoded tag
      reports through Code and Length (types.go:53-54, parser.go:213 and
      parser.go:240). */
  lemma ParseTagRecords(c: Cursor)
    ensures ParseTag(c).Ok? && ParseTag(c).value.Some? ==>
      TagHeaderFits(c.data, Align(c).pos)
      && ParseTag(c).value.value.Code() == TagCode(c.data, Align(c).pos)
      && ParseTag(c).value.value.Length() == TagLength(c.data, Align(c).pos)
  {
    ParseTagHeaderReads(c);
    var d, p := c.data, Align(c).pos;
    if TagHeaderFits(d, p) {
      if TagCode(d, p) == CodeTagEnd {
        ParseTagEndReads(c);
      } else if TagCode(d, p) == CodeTagDoABC {
        ParseTagDoABCTag(c);
      } else {
        ParseTagSkips(c);
      }
    }
  }

  /** ParseTag reports a malformed tag exactly on a DoABC tag whose flags
      and name are present but run past its declared length. This is the one
      place where the corrected dispatch departs from the code as written. */
  lemma ParseTagMalformed(c: Cursor)
    ensures ParseTag(c).Err? && ParseTag(c).error == MalformedTag
        <==> TagHeaderFits(c.data, Align(c).pos) && TagCode(c.data, Align(c).pos) == CodeTagDoABC
             && NameFits(CursorState(c.data, TagBodyStart(c.data, Align(c).pos), 0))
             && NameEnd(CursorState(c.data, TagBodyStart(c.data, Align(c).pos), 0))
                > TagBodyStart(c.data, Align(c).pos) + TagLength(c.data, Align(c).pos)
  {
    ParseTagHeaderReads(c);
    var d, p := c.data, Align(c).pos;
    if TagHeaderFits(d, p) && TagCode(d, p) == CodeTagDoABC {
      DoABCMalformed(CursorState(d, TagBodyStart(d, p), 0), TagLength(d, p));
    }
  }

  /** On such a tag, with less than 4 GiB of input from the start of its
      body, the code as written reads the body with a wrapped-around length
      and reports an unexpected end (parser.go:197-199, 233-236) where
      ParseTag reports a malformed tag. */
  lemma ParseTagOverrunAsWritten(c: Cursor, b: Cursor, length: uint32)
    requires TagHeaderFits(c.data, Align(c).pos) && TagCode(c.data, Align(c).pos) == CodeTagDoABC
    requires b == CursorState(c.data, TagBodyStart(c.data, Align(c).pos), 0) && length == TagLength(c.data, Align(c).pos)
    requires NameFits(b) && NameEnd(b) > b.pos + length && |c.data| < b.pos + 0x1_0000_0000
    ensures ParseTag(c) == Err(MalformedTag, AfterName(b))
    ensures ParseTagDoABCAsWritten(b, length).Err? && HandleEOF(ParseTagDoABCAsWritten(b, length).error) == UnexpectedEOF
  {
    ParseTagHeaderReads(c);
    ParseTagDoABCOverrun(b, length);
    DoABCAsWrittenWraps(b, length);
  }

  /** The tags of a stream that ParseTags accepts: an End tag last and
      nowhere before. */
  predicate EndTerminated(tags: seq<Tag>)
  {
    |tags| > 0 && tags[|tags| - 1].End? && forall i | 0 <= i < |tags| - 1 :: !tags[i].End?
  }

  /** ParseTags (parser.go:156-173): tags up to and including the first End
      tag; skipped tags contribute nothing, and any failure discards the
      tags collected so far. */
  function ParseTags(c: Cursor): (r: Result<seq<Tag>>)
    ensures r.next.data == c.data
    ensures r.Err? ==> r.error == UnexpectedEOF || r.error == MalformedTag
    decreases Remaining(c)
  {
    match ParseTag(c)
    case Err(e, next) => Err(e, next)
    case Ok(t, c1) =>
      if t.Some? && t.value.End? then Ok([t.value], c1)
      else
        match ParseTags(c1)
        case Err(e, next) => Err(e, next)
        case Ok(rest, next) => Ok(if t.Some? then [t.value] + rest else rest, next)
  }

  /** The tags ParseTags returns end with the first End tag of the stream. */
  lemma {:induction false} ParseTagsEnd(c: Cursor)
    ensures ParseTags(c).Ok? ==> EndTerminated(ParseTags(c).value)
    decreases Remaining(c)
  {
    var t := ParseTag(c);
    if t.Ok? && !(t.value.Some? && t.value.value.End?) {
      var rest := ParseTags(t.next);
      ParseTagsEnd(t.next);
      if rest.Ok? {
        if t.value.Some? {
          Prepend(t.value.value, rest.value);
          assert ParseTags(c) == Ok([t.value.value] + rest.value, rest.next);
        } else {
          assert ParseTags(c) == rest;
        }
      }
    }
  }

  /** A tag other than End in front of an End-terminated sequence keeps it
      End-terminated. */
  lemma Prepend(t: Tag, tags: seq<Tag>)
    requires !t.End? && EndTerminated(tags)
    ensures EndTerminated([t] + tags)
  {
    var all := [t] + tags;
    assert all[|all| - 1] == tags[|tags| - 1];
    forall i | 0 <= i < |all| - 1
      ensures !all[i].End?
    {
      if i > 0 {
        assert all[i] == tags[i - 1];
      }
    }
  }

  /** The outcome of Parse: the decoded file and the error, if any. */
  datatype Parsed = Parsed(swf: Swf, failure: Option<Error>)

  /** Parse (parser.go:51-72): a header failure yields the zero file; a tag
      failure keeps the header but no tags. */
  function Parse(data: seq<uint8>, inflate: seq<uint8> -> Inflated): (r: Parsed)
    ensures r.failure.None? ==> EndTerminated(r.swf.tags)
    ensures r.failure.Some? ==> r.swf.tags == []
    ensures ParseHeader(data, inflate).Err? <==> r.failure.Some? && r.swf == ZeroSwf
  {
    match ParseHeader(data, inflate)
    case Err(e, _) => Parsed(ZeroSwf, Some(e))
    case Ok(header, c) =>
      ParseTagsEnd(c);
      match ParseTags(c)
      case Err(e, _) => Parsed(Swf(header, []), Some(e))
      case Ok(tags, _) => Parsed(Swf(header, tags), None)
  }
}
