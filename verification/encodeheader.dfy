/**
 A reference encoder for the SWF file header, with the lemmas that
 ParseHeader reads an encoded header back, uncompressed or through zlib.
 */
module EncodeHeader {
  import opened Ints
  import opened BitReader
  import opened Reader
  import opened Types
  import opened Parser
  import opened Encode

  // ---------------------------------------------------------------------
  // Header

  /** The eight bytes in front of the frame fields: the signature ("FWS"
      for an uncompressed file, "CWS" for a zlib one), the version and the
      32-bit file length. */
  function EncodePrefix(compression: Compression, version: uint8, fileLength: uint32): (bs: seq<uint8>)
    requires !compression.CompressionLZMA?
    ensures |bs| == 8
  {
    [if compression.CompressionNone? then SigF else SigC, SigW, SigS, version] + EncodeUInt32(fileLength)
  }

  /** The frame fields: the frame rectangle, the 8.8 frame rate as its
      fraction byte and its signed integer byte, and the frame count. */
  function EncodeFrame(r: Rect, rateLo: uint8, rateHi: uint8, count: uint16): (bs: seq<uint8>)
    requires ValidRect(r)
    ensures |bs| == |EncodeRect(r)| + 4
  {
    EncodeRect(r) + ([rateLo, rateHi] + EncodeUInt16(count))
  }

  /** The header that encoding with these fields describes. */
  function HeaderOf(compression: Compression, version: uint8, fileLength: uint32,
                    r: Rect, rateLo: uint8, rateHi: uint8, count: uint16): Header
  {
    Header(compression, version, fileLength, r, Fixed8Value(rateLo, SignedByte(rateHi)), count)
  }

  /** The prefix, found at the start of a file, is a valid signature naming
      its compression, followed by the version and the file length. */
  lemma PrefixEncoded(d: seq<uint8>, compression: Compression, version: uint8, fileLength: uint32)
    requires !compression.CompressionLZMA? && BytesAt(d, 0, EncodePrefix(compression, version, fileLength))
    ensures |d| >= 8 && ValidSignature(d) && SignatureCompression(d) == compression
    ensures d[3] == version && Word32(d, 4) == fileLength
  {
    var e := EncodePrefix(compression, version, fileLength);
    BytesAtSlice(d, 0, e);
    assert d[0..8] == e;
    assert d[0] == e[0] && d[1] == e[1] && d[2] == e[2] && d[3] == e[3];
    assert d[4..8] == e[4..8];
    Word32Encoded(d, 4, fileLength);
  }

  /** Encoded frame fields, wherever they sit in the input, fit and read
      back, and end four bytes after the rectangle. */
  lemma FrameEncoded(d: seq<uint8>, pre: seq<uint8>, r: Rect, rateLo: uint8, rateHi: uint8, count: uint16, post: seq<uint8>)
    requires ValidRect(r) && d == pre + EncodeFrame(r, rateLo, rateHi, count) + post
    ensures FrameFits(d, 8 * |pre|)
    ensures FrameAt(d, 8 * |pre|) == (r, Fixed8Value(rateLo, SignedByte(rateHi)), count)
    ensures RectEnd(d, 8 * |pre|) + 4 == |pre| + |EncodeFrame(r, rateLo, rateHi, count)|
  {
    var e, t := EncodeRect(r), [rateLo, rateHi] + EncodeUInt16(count);
    assert d == pre + e + (t + post);
    RectEncoded(pre, r, t + post);
    var q := |pre| + |e|;
    assert d[q] == rateLo && d[q + 1] == rateHi;
    assert d[q + 2..q + 4] == EncodeUInt16(count);
    Word16Encoded(d, q + 2, count);
    FrameFields(d, 8 * |pre|, r, rateLo, rateHi, count);
  }

  /** The frame fields read field by field after a RECT record. */
  lemma FrameFields(d: seq<uint8>, s: nat, r: Rect, rateLo: uint8, rateHi: uint8, count: uint16)
    requires RectFits(d, s) && RectAt(d, s) == r && RectEnd(d, s) + 4 <= |d|
    requires d[RectEnd(d, s)] == rateLo && d[RectEnd(d, s) + 1] == rateHi && Word16(d, RectEnd(d, s) + 2) == count
    ensures FrameFits(d, s) && FrameAt(d, s) == (r, Fixed8Value(rateLo, SignedByte(rateHi)), count)
  {
  }

  /** Encoded frame fields at byte `p` of the input fit and read back, and
      end four bytes after the rectangle. */
  lemma FrameBytes(d: seq<uint8>, p: nat, r: Rect, rateLo: uint8, rateHi: uint8, count: uint16)
    requires ValidRect(r) && BytesAt(d, p, EncodeFrame(r, rateLo, rateHi, count))
    ensures FrameFits(d, 8 * p)
    ensures FrameAt(d, 8 * p) == (r, Fixed8Value(rateLo, SignedByte(rateHi)), count)
    ensures RectEnd(d, 8 * p) + 4 == p + |EncodeFrame(r, rateLo, rateHi, count)|
  {
    var f := EncodeFrame(r, rateLo, rateHi, count);
    BytesAtParts(d, p, f);
    FrameEncoded(d, d[..p], r, rateLo, rateHi, count, d[p + |f|..]);
  }

  /** ParseHeader on a file whose prefix and frame fields are known. */
  lemma HeaderRead(d: seq<uint8>, inflate: seq<uint8> -> Inflated, compression: Compression, version: uint8,
                   fileLength: uint32, src: seq<uint8>, s: nat, frame: (Rect, real, uint16))
    requires ValidSignature(d) && |d| >= 8 && SignatureCompression(d) == compression
    requires d[3] == version && Word32(d, 4) == fileLength
    requires FrameSource(d, inflate) == Some((src, s)) && FrameFits(src, s) && FrameAt(src, s) == frame
    ensures ParseHeader(d, inflate)
         == Ok(Header(compression, version, fileLength, frame.0, frame.1, frame.2), CursorState(src, RectEnd(src, s) + 4, 0))
  {
    ParseHeaderReads(d, inflate);
    ParseHeaderNext(d, inflate);
  }

  /** ParseHeader reads an uncompressed header back, whatever follows it,
      and stops right after it. */
  lemma HeaderEncoded(d: seq<uint8>, version: uint8, fileLength: uint32,
                      r: Rect, rateLo: uint8, rateHi: uint8, count: uint16, inflate: seq<uint8> -> Inflated)
    requires ValidRect(r) && BytesAt(d, 0, EncodePrefix(CompressionNone, version, fileLength))
    requires BytesAt(d, 8, EncodeFrame(r, rateLo, rateHi, count))
    ensures ParseHeader(d, inflate)
         == Ok(HeaderOf(CompressionNone, version, fileLength, r, rateLo, rateHi, count),
               CursorState(d, 8 + |EncodeFrame(r, rateLo, rateHi, count)|, 0))
  {
    PrefixEncoded(d, CompressionNone, version, fileLength);
    FrameBytes(d, 8, r, rateLo, rateHi, count);
    HeaderRead(d, inflate, CompressionNone, version, fileLength, d, 64, (r, Fixed8Value(rateLo, SignedByte(rateHi)), count));
  }

  /** ParseHeader reads a zlib header back: the frame fields are read from
      the decompressed body, and the cursor stops right after them there. */
  lemma CompressedHeaderEncoded(d: seq<uint8>, version: uint8, fileLength: uint32, body: seq<uint8>,
                                r: Rect, rateLo: uint8, rateHi: uint8, count: uint16, inflate: seq<uint8> -> Inflated)
    requires ValidRect(r) && |d| >= 8 && BytesAt(d, 0, EncodePrefix(CompressionZlib, version, fileLength))
    requires inflate(d[8..]) == Inflated(body) && BytesAt(body, 0, EncodeFrame(r, rateLo, rateHi, count))
    ensures ParseHeader(d, inflate)
         == Ok(HeaderOf(CompressionZlib, version, fileLength, r, rateLo, rateHi, count),
               CursorState(body, |EncodeFrame(r, rateLo, rateHi, count)|, 0))
  {
    PrefixEncoded(d, CompressionZlib, version, fileLength);
    FrameBytes(body, 0, r, rateLo, rateHi, count);
    HeaderRead(d, inflate, CompressionZlib, version, fileLength, body, 0, (r, Fixed8Value(rateLo, SignedByte(rateHi)), count));
  }
}
