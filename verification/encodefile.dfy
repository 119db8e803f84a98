/**
 Whole SWF files: an encoded header followed by encoded tag records, and
 the lemmas that Parse gives back the header and the tags, whatever bytes
 follow the End record, and that a file without an End record fails.
 */
module EncodeFile {
  import opened Ints
  import opened Errors
  import opened BitReader
  import opened Types
  import opened Parser
  import opened Encode
  import opened EncodeHeader
  import opened EncodeTags

  /** Parse after a header that reads and tags that read. */
  lemma ParseOk(data: seq<uint8>, inflate: seq<uint8> -> Inflated, header: Header, c: Cursor, tags: seq<Tag>)
    requires ParseHeader(data, inflate) == Ok(header, c) && ParseTags(c).Ok? && ParseTags(c).value == tags
    ensures Parse(data, inflate) == Parsed(Swf(header, tags), None)
  {
  }

  /** Parse after a header that reads and tags that do not. */
  lemma ParseTagsErr(data: seq<uint8>, inflate: seq<uint8> -> Inflated, header: Header, c: Cursor)
    requires ParseHeader(data, inflate) == Ok(header, c) && ParseTags(c).Err?
    ensures Parse(data, inflate) == Parsed(Swf(header, []), Some(ParseTags(c).error))
  {
  }

  /** The frame fields and the records of a file, back to back. */
  function EncodeContents(r: Rect, rateLo: uint8, rateHi: uint8, count: uint16, rs: seq<Record>): (bs: seq<uint8>)
    requires ValidRect(r) && AllValid(rs)
  {
    EncodeFrame(r, rateLo, rateHi, count) + EncodeRecords(rs)
  }

  /** An uncompressed file: the prefix, then the frame fields and the records. */
  function EncodeFile(version: uint8, fileLength: uint32, r: Rect, rateLo: uint8, rateHi: uint8,
                      count: uint16, rs: seq<Record>): (bs: seq<uint8>)
    requires ValidRect(r) && AllValid(rs)
  {
    EncodePrefix(CompressionNone, version, fileLength) + EncodeContents(r, rateLo, rateHi, count, rs)
  }

  /** The contents of a file, found at byte `p`: the frame fields there,
      the records right after them. */
  lemma ContentsBytes(d: seq<uint8>, p: nat, r: Rect, rateLo: uint8, rateHi: uint8, count: uint16, rs: seq<Record>)
    requires ValidRect(r) && AllValid(rs) && BytesAt(d, p, EncodeContents(r, rateLo, rateHi, count, rs))
    ensures BytesAt(d, p, EncodeFrame(r, rateLo, rateHi, count))
    ensures BytesAt(d, p + |EncodeFrame(r, rateLo, rateHi, count)|, EncodeRecords(rs))
  {
    BytesAtSplit(d, p, EncodeContents(r, rateLo, rateHi, count, rs), EncodeFrame(r, rateLo, rateHi, count), EncodeRecords(rs));
  }

  /** A file found at the start of the input: the prefix, then the contents. */
  lemma FileBytes(d: seq<uint8>, version: uint8, fileLength: uint32, r: Rect, rateLo: uint8, rateHi: uint8,
                  count: uint16, rs: seq<Record>)
    requires ValidRect(r) && AllValid(rs) && BytesAt(d, 0, EncodeFile(version, fileLength, r, rateLo, rateHi, count, rs))
    ensures BytesAt(d, 0, EncodePrefix(CompressionNone, version, fileLength))
    ensures BytesAt(d, 8, EncodeFrame(r, rateLo, rateHi, count))
    ensures BytesAt(d, 8 + |EncodeFrame(r, rateLo, rateHi, count)|, EncodeRecords(rs))
  {
    BytesAtSplit(d, 0, EncodeFile(version, fileLength, r, rateLo, rateHi, count, rs),
                 EncodePrefix(CompressionNone, version, fileLength), EncodeContents(r, rateLo, rateHi, count, rs));
    ContentsBytes(d, 8, r, rateLo, rateHi, count, rs);
  }

  /** Parse on an input whose header reads and whose records follow it. */
  lemma ParseRecords(data: seq<uint8>, inflate: seq<uint8> -> Inflated, header: Header, src: seq<uint8>, q: nat, rs: seq<Record>)
    requires ParseHeader(data, inflate) == Ok(header, CursorState(src, q, 0))
    requires AllValid(rs) && Terminated(rs) && BytesAt(src, q, EncodeRecords(rs))
    ensures Parse(data, inflate) == Parsed(Swf(header, TagsOf(rs)), None)
  {
    ParseTagsEncoded(src, q, rs, EncodeRecords(rs));
    ParseOk(data, inflate, header, CursorState(src, q, 0), TagsOf(rs));
  }

  /** Parse reads an uncompressed file back: its header and the tags of its
      records, whatever bytes follow the End record. */
  lemma FileEncoded(d: seq<uint8>, version: uint8, fileLength: uint32, r: Rect, rateLo: uint8, rateHi: uint8,
                    count: uint16, rs: seq<Record>, inflate: seq<uint8> -> Inflated)
    requires ValidRect(r) && AllValid(rs) && Terminated(rs)
    requires BytesAt(d, 0, EncodeFile(version, fileLength, r, rateLo, rateHi, count, rs))
    ensures Parse(d, inflate)
         == Parsed(Swf(HeaderOf(CompressionNone, version, fileLength, r, rateLo, rateHi, count), TagsOf(rs)), None)
  {
    FileBytes(d, version, fileLength, r, rateLo, rateHi, count, rs);
    HeaderEncoded(d, version, fileLength, r, rateLo, rateHi, count, inflate);
    ParseRecords(d, inflate, HeaderOf(CompressionNone, version, fileLength, r, rateLo, rateHi, count),
                 d, 8 + |EncodeFrame(r, rateLo, rateHi, count)|, rs);
  }

  /** Parse reads a zlib file back: the header, and the tags of the records
      in the decompressed body, whatever bytes follow the End record there. */
  lemma CompressedFileEncoded(d: seq<uint8>, version: uint8, fileLength: uint32, body: seq<uint8>,
                              r: Rect, rateLo: uint8, rateHi: uint8, count: uint16, rs: seq<Record>,
                              inflate: seq<uint8> -> Inflated)
    requires ValidRect(r) && AllValid(rs) && Terminated(rs)
    requires |d| >= 8 && BytesAt(d, 0, EncodePrefix(CompressionZlib, version, fileLength))
    requires inflate(d[8..]) == Inflated(body) && BytesAt(body, 0, EncodeContents(r, rateLo, rateHi, count, rs))
    ensures Parse(d, inflate)
         == Parsed(Swf(HeaderOf(CompressionZlib, version, fileLength, r, rateLo, rateHi, count), TagsOf(rs)), None)
  {
    ContentsBytes(body, 0, r, rateLo, rateHi, count, rs);
    CompressedHeaderEncoded(d, version, fileLength, body, r, rateLo, rateHi, count, inflate);
    ParseRecords(d, inflate, HeaderOf(CompressionZlib, version, fileLength, r, rateLo, rateHi, count),
                 body, |EncodeFrame(r, rateLo, rateHi, count)|, rs);
  }

  /** A file whose records hold no End record keeps its header, loses every
      tag and reports an unexpected end (parser.go:62-67). */
  lemma UnterminatedFile(d: seq<uint8>, version: uint8, fileLength: uint32, r: Rect, rateLo: uint8, rateHi: uint8,
                         count: uint16, rs: seq<Record>, inflate: seq<uint8> -> Inflated)
    requires ValidRect(r) && AllValid(rs) && forall i | 0 <= i < |rs| :: !IsEnd(rs[i])
    requires d == EncodeFile(version, fileLength, r, rateLo, rateHi, count, rs)
    ensures Parse(d, inflate)
         == Parsed(Swf(HeaderOf(CompressionNone, version, fileLength, r, rateLo, rateHi, count), []), Some(UnexpectedEOF))
  {
    var q := 8 + |EncodeFrame(r, rateLo, rateHi, count)|;
    BytesAtMiddle(d, [], d, []);
    FileBytes(d, version, fileLength, r, rateLo, rateHi, count, rs);
    FileLength(version, fileLength, r, rateLo, rateHi, count, rs);
    HeaderEncoded(d, version, fileLength, r, rateLo, rateHi, count, inflate);
    ParseTagsUnterminated(d, q, rs, EncodeRecords(rs));
    ParseTagsErr(d, inflate, HeaderOf(CompressionNone, version, fileLength, r, rateLo, rateHi, count),
                 CursorState(d, q, 0));
  }

  /** The length of a file: the prefix, the frame fields and the records. */
  lemma FileLength(version: uint8, fileLength: uint32, r: Rect, rateLo: uint8, rateHi: uint8, count: uint16, rs: seq<Record>)
    requires ValidRect(r) && AllValid(rs)
    ensures |EncodeFile(version, fileLength, r, rateLo, rateHi, count, rs)|
         == 8 + |EncodeFrame(r, rateLo, rateHi, count)| + |EncodeRecords(rs)|
  {
  }
}
