/**
 A reference encoder for tag records and record streams, with the lemmas
 that ParseTag and ParseTags read encoded records back: returned tags as
 written, other tags skipped, nothing read after the End tag.
 */
module EncodeTags {
  import opened Ints
  import opened Errors
  import opened BitReader
  import opened Reader
  import opened Types
  import opened Parser
  import opened Encode

  /** A record header: the code word holds the tag code in its upper ten
      bits and the body length in its lower six. A long header has 0x3f
      there and the 32-bit length after the code word; a body of 0x3f bytes
      or more needs one. */
  function EncodeTagHeader(code: nat, length: uint32, long: bool): (bs: seq<uint8>)
    requires code < 0x400 && (long || length < 0x3f)
    ensures |bs| == if long then 6 else 2
  {
    if long then EncodeUInt16(code * 0x40 + 0x3f) + EncodeUInt32(length)
    else EncodeUInt16(code * 0x40 + length)
  }

  /** A record header found at byte `p` reads back as its code and its
      length, and the body starts right after it. */
  lemma TagHeaderEncoded(d: seq<uint8>, p: nat, code: nat, length: uint32, long: bool, h: seq<uint8>)
    requires code < 0x400 && (long || length < 0x3f) && h == EncodeTagHeader(code, length, long)
    requires p + |h| <= |d| && d[p..p + |h|] == h
    ensures TagHeaderFits(d, p) && TagCode(d, p) == code && TagLength(d, p) == length
    ensures TagBodyStart(d, p) == p + |h|
  {
    var low := if long then 0x3f else length;
    var w := code * 0x40 + low;
    SliceIn(d, p, h, 0, 2);
    assert h[0..2] == EncodeUInt16(w);
    Word16Encoded(d, p, w);
    DivModUnique(w, 0x40, code, low);
    if long {
      SliceIn(d, p, h, 2, 6);
      assert h[2..6] == EncodeUInt32(length);
      Word32Encoded(d, p + 2, length);
    }
  }

  /** A tag as it is written: one the parser returns, in a short or a long
      record header, or a tag of any other code, which the parser skips. */
  datatype Record =
    | Returned(tag: Tag, long: bool)
    | Other(code: nat, body: seq<uint8>, long: bool)

  /** The body a DoABC tag declares: the flags, the zero-terminated name
      and the ABC data. */
  function DoABCBodyLength(name: seq<uint8>, abcData: seq<uint8>): nat
  {
    4 + |name| + 1 + |abcData|
  }

  /** Records that can be written as they claim: a DoABC name without zero
      bytes and a declared length that matches the body, codes in ten bits,
      and a long header wherever the length needs one. */
  predicate ValidRecord(rec: Record)
  {
    match rec
    case Returned(End(length), long) => long || length < 0x3f
    case Returned(DoABC(length, _, name, abcData), long) =>
      NoZero(name) && length == DoABCBodyLength(name, abcData) && (long || length < 0x3f)
    case Other(code, body, long) =>
      code < 0x400 && code != CodeTagEnd && code != CodeTagDoABC
      && |body| < 0x1_0000_0000 && (long || |body| < 0x3f)
  }

  /** The bytes of a record. An End tag is its header alone: its body, if
      any, belongs to whatever follows, since the parser never reads it. */
  function EncodeRecord(rec: Record): (bs: seq<uint8>)
    requires ValidRecord(rec)
    ensures |bs| >= 2
  {
    match rec
    case Returned(End(length), long) => EncodeTagHeader(CodeTagEnd, length, long)
    case Returned(DoABC(length, flags, name, abcData), long) =>
      EncodeTagHeader(CodeTagDoABC, length, long) + (EncodeUInt32(flags) + EncodeString(name) + abcData)
    case Other(code, body, long) => EncodeTagHeader(code, |body|, long) + body
  }

  /** What the parser gives for a record: the tag, or nothing for a
      skipped one. */
  function RecordTag(rec: Record): Option<Tag>
  {
    match rec
    case Returned(tag, _) => Some(tag)
    case Other(_, _, _) => None
  }

  /** An End record found at byte `p` is parsed as its End tag, and the
      parser stops after its header. */
  lemma ParseTagEndEncoded(d: seq<uint8>, p: nat, length: uint32, long: bool, e: seq<uint8>)
    requires (long || length < 0x3f) && e == EncodeRecord(Returned(End(length), long))
    requires p + |e| <= |d| && d[p..p + |e|] == e
    ensures ParseTag(CursorState(d, p, 0)) == Ok(Some(End(length)), CursorState(d, p + |e|, 0))
  {
    TagHeaderEncoded(d, p, CodeTagEnd, length, long, e);
    ParseTagEndReads(CursorState(d, p, 0));
  }

  /** A skipped record found at byte `p` is parsed as nothing, and the
      parser stops after its body. */
  lemma ParseTagOtherEncoded(d: seq<uint8>, p: nat, code: nat, body: seq<uint8>, long: bool, e: seq<uint8>)
    requires ValidRecord(Other(code, body, long)) && e == EncodeRecord(Other(code, body, long))
    requires p + |e| <= |d| && d[p..p + |e|] == e
    ensures ParseTag(CursorState(d, p, 0)) == Ok(None, CursorState(d, p + |e|, 0))
  {
    var h := EncodeTagHeader(code, |body|, long);
    SliceIn(d, p, e, 0, |h|);
    assert e[0..|h|] == h;
    TagHeaderEncoded(d, p, code, |body|, long, h);
    ParseTagSkips(CursorState(d, p, 0));
  }

  /** A DoABC body found at byte `q` fits its tag and holds the flags, the
      name and the ABC data it was written from. */
  lemma DoABCBodyEncoded(d: seq<uint8>, q: nat, flags: uint32, name: seq<uint8>, abcData: seq<uint8>, b: seq<uint8>)
    requires NoZero(name) && b == EncodeUInt32(flags) + EncodeString(name) + abcData
    requires q + |b| <= |d| && d[q..q + |b|] == b
    ensures |b| < 0x1_0000_0000 ==> DoABCFits(d, q, |b|) && DoABCAt(d, q, |b|) == DoABC(|b|, flags, name, abcData)
  {
    var z := q + 4 + |name|;
    DoABCBodyParts(flags, name, abcData, b);
    SliceIn(d, q, b, 0, 4);
    SliceIn(d, q, b, 4, 4 + |name|);
    SliceIn(d, q, b, 5 + |name|, |b|);
    assert d[z] == d[q..q + |b|][4 + |name|];
    DoABCBodyAt(d, q, flags, name, abcData, |b|);
  }

  /** The pieces of an encoded DoABC body. */
  lemma DoABCBodyParts(flags: uint32, name: seq<uint8>, abcData: seq<uint8>, b: seq<uint8>)
    requires NoZero(name) && b == EncodeUInt32(flags) + EncodeString(name) + abcData
    ensures |b| == 5 + |name| + |abcData| && b[4 + |name|] == 0
    ensures b[0..4] == EncodeUInt32(flags) && b[4..4 + |name|] == name && b[5 + |name|..|b|] == abcData
  {
  }

  /** A DoABC body stated piece by piece: flags, the name and its
      terminating zero, then the ABC data. */
  lemma DoABCBodyAt(d: seq<uint8>, q: nat, flags: uint32, name: seq<uint8>, abcData: seq<uint8>, n: nat)
    requires NoZero(name) && n == 5 + |name| + |abcData| && q + n <= |d|
    requires d[q..q + 4] == EncodeUInt32(flags) && d[q + 4..q + 4 + |name|] == name
    requires d[q + 4 + |name|] == 0 && d[q + 5 + |name|..q + n] == abcData
    ensures n < 0x1_0000_0000 ==> DoABCFits(d, q, n) && DoABCAt(d, q, n) == DoABC(n, flags, name, abcData)
  {
    var z := q + 4 + |name|;
    Word32Encoded(d, q, flags);
    forall j | q + 4 <= j < z
      ensures d[j] != 0
    {
      assert d[j] == name[j - q - 4];
    }
    ZeroFromAt(d, q + 4, z);
  }

  /** A DoABC record, header `h` and body `b`, found at byte `p` is parsed
      as its DoABC tag, and the parser stops at the end of its body. */
  lemma ParseTagDoABCEncoded(d: seq<uint8>, p: nat, length: uint32, flags: uint32, name: seq<uint8>,
                             abcData: seq<uint8>, long: bool, h: seq<uint8>, b: seq<uint8>)
    requires ValidRecord(Returned(DoABC(length, flags, name, abcData), long))
    requires h == EncodeTagHeader(CodeTagDoABC, length, long)
    requires b == EncodeUInt32(flags) + EncodeString(name) + abcData
    requires p + |h| + |b| <= |d| && d[p..p + |h|] == h && d[p + |h|..p + |h| + |b|] == b
    ensures ParseTag(CursorState(d, p, 0)) == Ok(Some(DoABC(length, flags, name, abcData)), CursorState(d, p + |h| + |b|, 0))
  {
    TagHeaderEncoded(d, p, CodeTagDoABC, length, long, h);
    DoABCBodyEncoded(d, p + |h|, flags, name, abcData, b);
    ParseTagDoABCTag(CursorState(d, p, 0));
  }

  /** Any record found at byte `p` is parsed as its tag, or as nothing when
      skipped, and the parser stops right after the record. */
  lemma ParseTagEncoded(d: seq<uint8>, p: nat, rec: Record, e: seq<uint8>)
    requires ValidRecord(rec) && e == EncodeRecord(rec)
    requires p + |e| <= |d| && d[p..p + |e|] == e
    ensures ParseTag(CursorState(d, p, 0)) == Ok(RecordTag(rec), CursorState(d, p + |e|, 0))
  {
    match rec
    case Returned(End(length), long) => ParseTagEndEncoded(d, p, length, long, e);
    case Returned(DoABC(length, flags, name, abcData), long) =>
      var h := EncodeTagHeader(CodeTagDoABC, length, long);
      var b := EncodeUInt32(flags) + EncodeString(name) + abcData;
      SliceIn(d, p, e, 0, |h|);
      SliceIn(d, p, e, |h|, |e|);
      assert e[0..|h|] == h && e[|h|..|e|] == b;
      ParseTagDoABCEncoded(d, p, length, flags, name, abcData, long, h, b);
    case Other(code, body, long) => ParseTagOtherEncoded(d, p, code, body, long, e);
  }

  // ---------------------------------------------------------------------
  // Tag streams

  predicate AllValid(rs: seq<Record>)
  {
    forall i | 0 <= i < |rs| :: ValidRecord(rs[i])
  }

  /** Whether a record is an End tag. */
  predicate IsEnd(rec: Record)
  {
    rec.Returned? && rec.tag.End?
  }

  /** A record stream the parser reads to its end: an End record last and
      nowhere before. */
  predicate Terminated(rs: seq<Record>)
  {
    |rs| > 0 && IsEnd(rs[|rs| - 1]) && forall i | 0 <= i < |rs| - 1 :: !IsEnd(rs[i])
  }

  /** The records written one after another. */
  function EncodeRecords(rs: seq<Record>): (bs: seq<uint8>)
    requires AllValid(rs)
  {
    if |rs| == 0 then [] else EncodeRecord(rs[0]) + EncodeRecords(rs[1..])
  }

  /** The tags the parser is meant to return for a record stream: those of
      the returned records, in order, the skipped ones left out. */
  function TagsOf(rs: seq<Record>): seq<Tag>
  {
    if |rs| == 0 then []
    else
      match rs[0]
      case Returned(t, _) => [t] + TagsOf(rs[1..])
      case Other(_, _, _) => TagsOf(rs[1..])
  }

  /** The tags of a stream: those of its first record, then the rest. */
  lemma TagsOfFirst(rs: seq<Record>)
    requires |rs| > 0
    ensures TagsOf(rs) == if rs[0].Returned? then [rs[0].tag] + TagsOf(rs[1..]) else TagsOf(rs[1..])
  {
  }

  /** In a terminated stream an End record comes last, and what follows a
      first record other than End is again a valid terminated stream. */
  lemma TerminatedRest(rs: seq<Record>)
    requires AllValid(rs) && Terminated(rs)
    ensures IsEnd(rs[0]) ==> |rs| == 1
    ensures !IsEnd(rs[0]) ==> |rs| > 1 && AllValid(rs[1..]) && Terminated(rs[1..])
  {
    var rest := rs[1..];
    if !IsEnd(rs[0]) {
      assert rest[|rest| - 1] == rs[|rs| - 1];
      forall i | 0 <= i < |rest|
        ensures ValidRecord(rest[i]) && (i < |rest| - 1 ==> !IsEnd(rest[i]))
      {
        assert rest[i] == rs[i + 1];
      }
    }
  }

  /** ParseTags after a first tag other than End: that tag, if any, in
      front of the tags that follow. */
  lemma ParseTagsCons(c: Cursor, t: Option<Tag>, c1: Cursor, tags: seq<Tag>, next: Cursor)
    requires ParseTag(c) == Ok(t, c1) && !(t.Some? && t.value.End?)
    requires ParseTags(c1) == Ok(tags, next)
    ensures ParseTags(c) == Ok(if t.Some? then [t.value] + tags else tags, next)
  {
  }

  /** The tags of a one-record stream. */
  lemma TagsOfLast(rs: seq<Record>)
    requires |rs| == 1 && rs[0].Returned?
    ensures TagsOf(rs) == [rs[0].tag]
  {
    assert [rs[0].tag] + TagsOf(rs[1..]) == [rs[0].tag] + [];
  }

  /** ParseTags stops after an End tag. */
  lemma ParseTagsLast(c: Cursor, t: Tag, c1: Cursor)
    requires ParseTag(c) == Ok(Some(t), c1) && t.End?
    ensures ParseTags(c) == Ok([t], c1)
  {
  }

  /** Encoded records followed by an End record are parsed back as their
      tags, and the parser stops right after the End record's header:
      whatever follows it is never read. */
  lemma {:induction false} ParseTagsEncoded(d: seq<uint8>, p: nat, rs: seq<Record>, e: seq<uint8>)
    requires AllValid(rs) && Terminated(rs) && e == EncodeRecords(rs) && BytesAt(d, p, e)
    ensures ParseTags(CursorState(d, p, 0)) == Ok(TagsOf(rs), CursorState(d, p + |e|, 0))
    decreases |rs|
  {
    var q := FirstRecord(d, p, rs, e);
    var c, c1 := CursorState(d, p, 0), CursorState(d, q, 0);
    TerminatedRest(rs);
    if IsEnd(rs[0]) {
      TagsOfLast(rs);
      ParseTagsLast(c, rs[0].tag, c1);
    } else {
      ParseTagsEncoded(d, q, rs[1..], EncodeRecords(rs[1..]));
      ParseTagsEncodedCons(c, rs, c1, TagsOf(rs[1..]), CursorState(d, p + |e|, 0));
    }
  }

  /** The first record of an encoded stream is parsed as its tag; the rest
      of the stream lies right after it, at `q`. */
  lemma FirstRecord(d: seq<uint8>, p: nat, rs: seq<Record>, e: seq<uint8>) returns (q: nat)
    requires |rs| > 0 && AllValid(rs) && e == EncodeRecords(rs) && BytesAt(d, p, e)
    ensures ParseTag(CursorState(d, p, 0)) == Ok(RecordTag(rs[0]), CursorState(d, q, 0))
    ensures BytesAt(d, q, EncodeRecords(rs[1..])) && q + |EncodeRecords(rs[1..])| == p + |e|
  {
    q := RecordsHead(d, p, rs, e);
    RecordParsed(d, p, rs[0], EncodeRecord(rs[0]), q);
  }

  /** An encoded stream found at byte `p`: its first record there, the rest
      right after it, at `q`. */
  lemma RecordsHead(d: seq<uint8>, p: nat, rs: seq<Record>, e: seq<uint8>) returns (q: nat)
    requires |rs| > 0 && AllValid(rs) && e == EncodeRecords(rs) && BytesAt(d, p, e)
    ensures q == p + |EncodeRecord(rs[0])| && BytesAt(d, p, EncodeRecord(rs[0]))
    ensures BytesAt(d, q, EncodeRecords(rs[1..])) && q + |EncodeRecords(rs[1..])| == p + |e|
  {
    AllValidRest(rs);
    var e0, e1 := EncodeRecord(rs[0]), EncodeRecords(rs[1..]);
    q := p + |e0|;
    assert e == e0 + e1;
    BytesAtSplit(d, p, e, e0, e1);
  }

  /** The records after the first of a valid stream are valid. */
  lemma AllValidRest(rs: seq<Record>)
    requires |rs| > 0 && AllValid(rs)
    ensures ValidRecord(rs[0]) && AllValid(rs[1..])
  {
    forall i | 0 <= i < |rs| - 1
      ensures ValidRecord(rs[1..][i])
    {
      assert rs[1..][i] == rs[i + 1];
    }
  }

  /** ParseTagEncoded for a record stated byte by byte. */
  lemma RecordParsed(d: seq<uint8>, p: nat, rec: Record, e: seq<uint8>, q: nat)
    requires ValidRecord(rec) && e == EncodeRecord(rec) && BytesAt(d, p, e) && q == p + |e|
    ensures ParseTag(CursorState(d, p, 0)) == Ok(RecordTag(rec), CursorState(d, q, 0))
  {
    BytesAtSlice(d, p, e);
    ParseTagEncoded(d, p, rec, e);
  }

  /** The inductive step of ParseTagsEncoded: a first record other than End,
      then the rest of the stream parsed as its tags. */
  lemma ParseTagsEncodedCons(c: Cursor, rs: seq<Record>, c1: Cursor, tags: seq<Tag>, next: Cursor)
    requires |rs| > 0 && !IsEnd(rs[0]) && ParseTag(c) == Ok(RecordTag(rs[0]), c1)
    requires tags == TagsOf(rs[1..]) && ParseTags(c1) == Ok(tags, next)
    ensures ParseTags(c) == Ok(TagsOf(rs), next)
  {
    TagsOfFirst(rs);
    ParseTagsCons(c, RecordTag(rs[0]), c1, tags, next);
  }

  /** Records without an End record at the very end of the input: the
      parser reads them all and then fails for want of a terminator, with
      an unexpected end (parser.go:159-172). */
  lemma {:induction false} ParseTagsUnterminated(d: seq<uint8>, p: nat, rs: seq<Record>, e: seq<uint8>)
    requires AllValid(rs) && (forall i | 0 <= i < |rs| :: !IsEnd(rs[i]))
    requires e == EncodeRecords(rs) && BytesAt(d, p, e) && p + |e| == |d|
    ensures ParseTags(CursorState(d, p, 0)).Err? && ParseTags(CursorState(d, p, 0)).error == UnexpectedEOF
    decreases |rs|
  {
    if |rs| == 0 {
      ParseTagsAtEnd(CursorState(d, p, 0));
    } else {
      var q := FirstRecord(d, p, rs, e);
      assert AllValid(rs[1..]) && forall i | 0 <= i < |rs[1..]| :: !IsEnd(rs[1..][i]) by {
        forall i | 0 <= i < |rs| - 1
          ensures ValidRecord(rs[1..][i]) && !IsEnd(rs[1..][i])
        {
          assert rs[1..][i] == rs[i + 1];
        }
      }
      ParseTagsUnterminated(d, q, rs[1..], EncodeRecords(rs[1..]));
      ParseTagsSkipsTo(CursorState(d, p, 0), RecordTag(rs[0]), CursorState(d, q, 0));
    }
  }

  /** At the end of the input there is no tag to read. */
  lemma ParseTagsAtEnd(c: Cursor)
    requires c.bit == 0 && c.pos == |c.data|
    ensures ParseTags(c).Err? && ParseTags(c).error == UnexpectedEOF
  {
  }

  /** A failure after a first tag other than End is the failure of the whole. */
  lemma ParseTagsSkipsTo(c: Cursor, t: Option<Tag>, c1: Cursor)
    requires ParseTag(c) == Ok(t, c1) && !(t.Some? && t.value.End?) && ParseTags(c1).Err?
    ensures ParseTags(c) == ParseTags(c1)
  {
  }
}
