# SWF decoder core, modelled in Dafny

This project models the decoding engine of the Go package `swf` (Kelvyne/swf).
The package reads an Adobe SWF file: a signature ("FWS", "CWS" or "ZWS"), a
version byte, a declared file length, a bit-packed RECT frame size, a FIXED8
frame rate and a frame count, followed by a stream of length-prefixed tags
that ends at the End tag. Only the End tag (code 0) and the DoABC tag (code
82, ActionScript 3 bytecode) are decoded; every other tag is skipped by its
declared length. The format is the one of the Adobe SWF File Format
Specification, version 19 (chapter 1, "Basic Data Types", and chapter 2,
"SWF Structure Summary").

The model is functional. The Go `reader` is a stateful `bitio.Reader` over an
`io.ReadSeeker`. Here it is an immutable cursor `CursorState(data, pos, bit)`:
a byte string, a byte position, and a bit offset 0..7 inside that byte. Every
read is a pure function that returns `Ok(value, next)` or `Err(error, next)`,
so the cursor after a failure is part of the result too. The errors are those
the Go code can tell apart: `EOF` (nothing at all was available),
`UnexpectedEOF` (the input ended inside a value), the "bit value is 1-32
bits" error (`BadBitWidth`), `ErrMalformedHeader`, `ErrUnsupportedFile`, a
seek before the start, and a zlib failure. One more, `MalformedTag`, has no
Go counterpart. Only the corrected DoABC parser reports it, for a tag whose
flags and name run past its declared length (see "## Findings").

Modules, in dependency order:

- `Ints`: fixed-width integer types, powers of two, two's-complement
  conversion, little-endian words and the uint32 subtraction of parser.go:233.
- `Errors`, `Types`: the error values; the `Header`, `Rect` and `Tag` records
  of types.go, and the tag and compression codes.
- `BitStream`: SWF bit order. Bits are read most significant first, across
  byte boundaries. `BitsValue(d, start, n)` is the number an `n`-bit field
  denotes.
- `BitReader`: the cursor, and the `bitio` and `bytes.Reader` operations the
  Go reader relies on: aligned seeks, bit reads, and `io.ReadFull` of `n`
  bytes.
- `Reader`: reader.go. These are the fixed-width integers, EncodedU32,
  UB/SB bit values, FIXED, FIXED8 and null-terminated strings.
- `Parser`: parser.go. This covers `handleEOF`, the RECT record, the
  signature gate and header, tag headers, End, DoABC (as written and
  corrected), skipping unknown tags, the tag loop and `Parse`.
- `Encode`, `EncodeHeader`, `EncodeTags`, `EncodeFile`: reference encoders
  for each format element. Each comes with the lemma that the decoder reads
  its output back, wherever that output sits in the input. The Go repository
  has no encoder. These definitions are the independent partner against
  which the decoder is checked.
- `Examples`: the fixtures of reader_test.go and parser_test.go as lemmas.

Where the Adobe specification and the Go code differ, the model follows the
code:

- EncodedU32 reads at most 4 bytes, not 5 (reader.go:137).
- FIXED8 is sign-and-magnitude on its int8 part, not a 16-bit two's-complement
  value (reader.go:202-205).
- A RECT with NBits = 0 fails with the bit-width error (parser.go:252,
  reader.go:147-148).
- A header that ends right after "FWS" yields a raw `EOF`, not
  `UnexpectedEOF` (parser.go:127-130).
- When the tags fail, `Parse` still returns the decoded header, together
  with the error (parser.go:56, parser.go:65-67).

## Model

| member | source | states |
|---|---|---|
| Types.Compression.Code | types.go:12-16 | The compression codes are None = 0, Zlib = 1, LZMA = 2, and each code names exactly one compression. |
| Types.Tag.Code | types.go:5-8 | A tag's code is 0 exactly for End and 82 exactly for DoABC, as the tag structs record them. |
| Ints.Sub32Modular | parser.go:233 | uint32 subtraction is subtraction modulo 2^32. |
| Ints.Sub32Exact | parser.go:233 | When the subtrahend is no larger, uint32 subtraction is exact. |
| Ints.Sub32Wraps | parser.go:233 | When the subtrahend is larger, the result is the difference plus 2^32. |
| Ints.SignedRoundTrip | reader.go:161-166 | Reading back the n-bit two's-complement pattern of a value in the n-bit signed range gives the value. |
| Ints.PatternRoundTrip | reader.go:161-166 | Sign-extending an n-bit pattern and taking its low n bits gives the pattern back. |
| BitStream.BitsValueBound | reader.go:55-58 | An n-bit field read from the stream is below 2^n. |
| BitStream.BitsValueSplit | reader.go:55-58 | A field is its first m bits shifted left by n, plus the following n bits. This is how one read spans a byte boundary. |
| BitStream.BitsValueInByte | reader.go:55-58 | A field that lies inside one byte is that byte shifted right and masked, most significant bit first. |
| BitStream.ByteBits | reader.go:55-58 | Eight aligned bits are exactly the byte. |
| BitStream.BitsValuePrefix | reader.go:55-58 | A field depends only on the bytes it covers. |
| BitReader.Align | reader.go:49-52 | Aligning moves to the first byte boundary at or after the current bit and keeps the data. |
| BitReader.Seek | reader.go:49-52 | A seek aligns first. It succeeds exactly when the target (start, current or end plus offset) is not negative, and then lands there. Otherwise it reports the negative position and only aligns. |
| BitReader.ReadBits | reader.go:55-58 | Reading n bits, 1..32, succeeds exactly when n bits remain. It returns a value below 2^n and advances by n bits. Otherwise it is EOF and the cursor is exhausted. |
| BitReader.ReadBytes | reader.go:60-63 | Reading n bytes aligns first. It succeeds exactly when n bytes remain after the boundary and returns those bytes. A shortfall is EOF when no byte was left and UnexpectedEOF when some were. |
| Reader.ReadUnsigned | reader.go:60-63 | Reading `size` bytes succeeds exactly when they lie ahead of the aligned position. The value is their little-endian number, below 2^(8·size), and the cursor ends just past them. A shortfall is UnexpectedEOF, or EOF when no byte is left, and exhausts the cursor. |
| Reader.LittleEndian2 | reader.go:101-108 | The little-endian value of two bytes is the low byte plus 256 times the high byte. |
| Reader.LittleEndian4 | reader.go:110-117 | The little-endian value of four bytes is their base-256 number, lowest byte first. |
| Reader.ReadUInt8 | reader.go:92-99 | Aligns, then returns the next byte and moves past it. EOF when no byte remains. |
| Reader.ReadUInt8Bytes | reader.go:92-99 | ReadUInt8 agrees with a one-byte ReadBytes in outcome, value, error and next cursor. |
| Reader.ReadUInt16 | reader.go:101-108 | Aligns, then returns the little-endian word of the next two bytes. EOF with no byte left, UnexpectedEOF with one byte left. |
| Reader.ReadUInt16Unsigned | reader.go:101-108 | ReadUInt16 is the generic two-byte little-endian read. |
| Reader.ReadUInt32 | reader.go:110-117 | Aligns, then returns the little-endian value of the next four bytes. EOF with no byte left, UnexpectedEOF with one to three bytes left. |
| Reader.ReadUInt32Unsigned | reader.go:110-117 | ReadUInt32 is the generic four-byte little-endian read. |
| Reader.SignedByte | reader.go:65-72 | The int8 of a byte is negative exactly when its top bit is set, and agrees with the byte modulo 256. |
| Reader.ReadInt8 | reader.go:65-72 | Aligns, then returns the next byte as int8. EOF when no byte remains. |
| Reader.ReadInt16 | reader.go:74-81 | Aligns, then returns the two's-complement value of the next little-endian word, with the same EOF and UnexpectedEOF split as ReadUInt16. |
| Reader.ReadInt32 | reader.go:83-90 | Aligns, then returns the two's-complement value of the next four little-endian bytes, with the same EOF and UnexpectedEOF split as ReadUInt32. |
| Reader.EncodedValueBound | reader.go:133-134 | k groups of 7 bits denote a number below 2^(7k). |
| Reader.EncodedGroupsValue | reader.go:133-136 | ORing the 7-bit groups shifted by 7·count is the base-128 value of the bytes read, lowest group first. |
| Reader.EncodedEndNone | reader.go:124-140 | The encoded number has no end exactly when fewer than the remaining group count of bytes are left and all of them have the continuation bit set. |
| Reader.EncodedEndStops | reader.go:136-139 | Every byte before the end has its continuation bit set. The last byte has it clear unless the fourth byte was reached. |
| Reader.ReadEUInt32LoopEnd | reader.go:124-140 | The read loop ends exactly where the pure end index says, with the value of the groups between. |
| Reader.ReadEUInt32 | reader.go:121-142 | Fails exactly when no terminating byte occurs within 4 bytes before the input ends. Otherwise it reads 1 to 4 bytes, all but the last with the continuation bit set, and the last clear unless it is the fourth. The value is below 2^28 and is the base-128 value of those bytes. EOF before the first byte stays EOF; a later end becomes UnexpectedEOF. |
| Reader.ReadEUInt32Value | reader.go:121-142 | From an aligned cursor, the loop's outcome, end and value are those of the pure end index and EncodedValue. |
| Reader.EncodedBound | reader.go:137 | At most four groups denote a value below 2^28. |
| Reader.ReadUBitValue | reader.go:144-151 | A width of 0 or above 32 fails with the bit-width error and consumes nothing. Any other width is a plain bit read. |
| Reader.ShiftedMask | reader.go:163 | `0xffffffff << n`, truncated to 32 bits, is 2^32 − 2^n. |
| Reader.SignBit | reader.go:161 | Bit n−1 of an n-bit value is set exactly when the value is at least 2^(n−1). |
| Reader.ReadBitValue | reader.go:153-167 | Fails and succeeds exactly as the unsigned read of the same width and ends at the same cursor. The value is the pattern minus 2^n when the top bit is set, and the pattern otherwise. It lies in the n-bit signed range and within int32, and its n-bit two's-complement pattern is the raw bits. |
| Reader.ReadFixed | reader.go:169-187 | Aligns, then reads a fraction word and an integer word. The value times 65536 is the 32-bit little-endian number of the four bytes, in [0, 65536). EOF with no byte left; any shortfall after the first byte is UnexpectedEOF. |
| Reader.Fixed8SignMagnitude | reader.go:202-205 | The FIXED8 value is negative exactly when the int8 part is. Its magnitude is the magnitude of the int8 part plus fraction/256. |
| Reader.ReadFixed8 | reader.go:189-206 | Aligns, then reads a fraction byte and an int8 byte, and returns their sign-and-magnitude value. EOF with no byte left; one byte left is UnexpectedEOF. |
| Reader.ReadStringLoopEnd | reader.go:210-222 | The string loop succeeds exactly when a zero byte follows. It returns the accumulated bytes plus those before that zero, and stops just past it. |
| Reader.ReadString | reader.go:208-225 | On success it consumes at least the terminator and stays aligned. EOF at once stays EOF; an end after some bytes is UnexpectedEOF. |
| Reader.ReadStringReads | reader.go:208-225 | Fails exactly when no zero byte remains. Otherwise it returns the bytes up to the first zero, none of them zero, and moves just past that zero. |
| Reader.ZeroFromFirst | reader.go:218-221 | Every byte before the first zero is non-zero. |
| Reader.ZeroFromNone | reader.go:210-217 | No zero is found exactly when every remaining byte is non-zero. |
| Reader.ReadStringZero | reader.go:208-225 | ReadString succeeds exactly when a zero byte remains, and its string reaches exactly to the first one. |
| Parser.HandleEOF | parser.go:43-48 | EOF becomes UnexpectedEOF; every other error is returned unchanged. |
| Parser.SignedField | parser.go:251-258 | A signed n-bit field lies in the n-bit signed range and within int32. |
| Parser.ReadField | parser.go:251-258 | A RECT field read fails with the bit-width error for width 0 or above 32. With a valid width it succeeds exactly when the bits remain, with UnexpectedEOF otherwise (never EOF). It returns the signed field and advances by its width. |
| Parser.ReadCoordinatesOk | parser.go:260-272 | With room for four fields, the coordinates read are Xmin, Xmax, Ymin, Ymax at consecutive n-bit offsets, and reading ends 4n bits later. |
| Parser.ReadCoordinatesFails | parser.go:260-272 | The coordinates fail exactly for width 0 (bit-width error) or when fewer than 4n bits remain (UnexpectedEOF). |
| Parser.ParseRect | parser.go:244-273 | A RECT that reads has NBits of at least 1 and keeps the data. |
| Parser.ParseRectSteps | parser.go:245-249 | ParseRect reads the 5-bit width and then the four coordinates of that width right after it. |
| Parser.ParseRectSucceeds | parser.go:244-273 | ParseRect succeeds exactly when the width is at least 1 and the 5 + 4·NBits bits are all present. |
| Parser.ParseRectReads | parser.go:244-273 | A RECT that fits reads as the width and the four signed fields found at the cursor. |
| Parser.ParseRectEnds | parser.go:244-273 | A RECT that reads ends 5 + 4·NBits bits after it began. |
| Parser.ParseRectFails | parser.go:244-273 | EOF exactly when the width field itself is cut. Otherwise a width of 0 is the bit-width error, and a cut inside the coordinates is UnexpectedEOF. |
| Parser.ParseRectAligned | parser.go:140-145 | After a RECT, the next byte read starts at the byte boundary after its last bit. |
| Parser.ReplaceReader | parser.go:74-97 | Without zlib the cursor is unchanged. With zlib the body from offset 8 is inflated, and reading continues at the start of the inflated bytes; an inflate failure is returned as is. |
| Parser.ReadSignature | parser.go:100-126 | A signature that reads never selects LZMA. |
| Parser.ReadSignatureReads | parser.go:100-126 | The gate accepts exactly "FWS" (None) and "CWS" (Zlib), and then stands after the third byte. |
| Parser.ReadSignatureFails | parser.go:100-126 | UnsupportedFile exactly for a first byte 'Z'. UnexpectedEOF exactly for input that ends while still agreeing with "FWS" or "CWS". Every other failure is MalformedHeader. |
| Parser.ParseFrame | parser.go:140-152 | A frame that reads has a RECT of width at least 1. |
| Parser.ParseFrameRest | parser.go:145-152 | The fields after the RECT keep the RECT that was read. |
| Parser.ParseFrameSucceeds | parser.go:140-152 | The frame reads exactly when the RECT fits and the four bytes after its boundary exist. |
| Parser.ParseFrameReads | parser.go:140-152 | A frame that fits reads as the RECT, the FIXED8 rate and the frame count, and ends four bytes after the RECT's boundary. |
| Parser.ParseFrameRestAt | parser.go:145-152 | After the RECT, the rate is the FIXED8 of the next two bytes and the count is the little-endian word of the two after. |
| Parser.ParseFrameFails | parser.go:140-152 | Frame errors are only the bit-width error (exactly for a RECT of width 0) or UnexpectedEOF. |
| Parser.ParseFrameRestFails | parser.go:145-152 | A cut after the RECT is always UnexpectedEOF. |
| Parser.ParseHeaderPrefix | parser.go:100-138 | For a valid signature and 8 bytes: the signature, version byte and length word read in order, and the reader swap succeeds exactly when the frame source exists, continuing at its start. |
| Parser.ParseHeaderReads | parser.go:99-154 | The header reads exactly when the signature is valid, 8 bytes exist, the frame source exists and its frame fits. The header is then (compression, byte 3, the length word at 4, RECT, rate, count). |
| Parser.ParseHeaderNext | parser.go:99-154 | After a header, tags start four bytes past the RECT's boundary, in the file or in the inflated body. |
| Parser.ParseHeaderRawEOF | parser.go:127-130 | The header fails with a raw EOF exactly for the three bytes "FWS" or "CWS" and nothing more. |
| Parser.ReadTagLength | parser.go:181-187 | A short length below 0x3f is the length. 0x3f means a uint32 long length follows. |
| Parser.ReadFlagsAndName | parser.go:221-228 | Flags and name that read leave the cursor aligned. |
| Parser.NameEnd | parser.go:221-232 | The flags and name take at least 5 bytes and end inside the input. |
| Parser.ReadFlagsAndNameReads | parser.go:221-228 | Flags and name read exactly when 4 bytes and a terminated string follow. The result is the uint32 flags and the bytes before the zero. Any failure is UnexpectedEOF. |
| Parser.ParseTagDoABCAsWritten | parser.go:216-241 | As written: the ABC data length is `length − (end − begin)` in uint32, with no check. |
| Parser.ReadABCData | parser.go:234-240 | Reading n bytes of ABC data succeeds exactly when they exist. It yields a DoABC tag with the declared length, the flags, the name and those bytes; a shortfall is UnexpectedEOF. |
| Parser.ParseTagDoABC | parser.go:216-241 | Corrected DoABC: a tag that reads has the declared length and ends exactly `length` bytes after its body began. The errors are EOF, UnexpectedEOF, or MalformedTag for a length shorter than flags and name. |
| Parser.DoABCAsWrittenAfter | parser.go:229-239 | As written, after flags and name, the data length is the uint32 difference of the length and the bytes used. |
| Parser.DoABCAfter | parser.go:229-239 | Corrected, after flags and name, a length shorter than the bytes used is MalformedTag. Otherwise the rest of the length is ABC data. |
| Parser.DoABCAsWrittenAgrees | parser.go:216-241 | When the declared length covers flags and name, the as-written and the corrected DoABC give the same result. |
| Parser.DoABCNameFails | parser.go:221-228 | When flags or name cannot be read, both versions report that read's error at its cursor. |
| Parser.DoABCAsWrittenWraps | parser.go:233 | As written, a length shorter than flags and name wraps. A success would end 2^32 bytes past the declared end, and any input shorter than that fails with UnexpectedEOF. |
| Parser.ParseTagDoABCOverrun | parser.go:233 | Corrected, a length shorter than flags and name is MalformedTag right after the name. |
| Parser.DoABCMalformed | parser.go:216-238 | The corrected DoABC reports MalformedTag exactly when flags and name are present but end past the declared length. |
| Parser.DoABCOverrunExample | parser.go:233-238 | On body 01 00 00 00 00 with length 4, the as-written DoABC fails with UnexpectedEOF while the corrected one reports MalformedTag. |
| Parser.ParseTagHeader | parser.go:176-187 | A tag header that reads takes 2 or more bytes. Its code is below 2^10 and its length is a uint32. It fails only with UnexpectedEOF. |
| Parser.ParseTagHeaderReads | parser.go:176-187 | The tag header reads exactly when the word and any long length are present. The code is word >> 6, the length is word & 0x3f or else the following uint32, and the body starts right after. |
| Parser.ParseTagBody | parser.go:189-209 | A tag body that reads moves forward, stays aligned and stays within the input. It fails only with UnexpectedEOF or MalformedTag. |
| Parser.ParseTagDoABCSucceeds | parser.go:216-241 | The corrected DoABC reads exactly when flags, a terminated name that fits within `length`, and the whole `length` bytes are present. |
| Parser.ParseTagDoABCReads | parser.go:216-241 | Such a DoABC reads as (length, flags, name, the rest of the body) and ends exactly `length` bytes on. |
| Parser.ParseTag | parser.go:175-210 | A tag that reads takes at least its 2-byte header, stays aligned and stays within the input. Errors are UnexpectedEOF or MalformedTag, never a raw EOF. |
| Parser.ParseTagEndReads | parser.go:189-214 | Code 0 yields End with the declared length and consumes no payload. |
| Parser.ParseTagSkips | parser.go:203-209 | Any other code except 82 succeeds exactly when `length` bytes follow. It yields no tag and skips exactly those bytes; otherwise UnexpectedEOF. |
| Parser.ParseTagDoABCTag | parser.go:190-201 | Code 82, dispatched to the corrected DoABC, succeeds exactly when the DoABC body fits, and yields that DoABC tag after `length` bytes. |
| Parser.ParseTagRecords | parser.go:212-240 | A decoded tag's Code and Length are the code and declared length of its record header. |
| Parser.ParseTagMalformed | parser.go:189-201 | ParseTag reports MalformedTag exactly on a DoABC tag whose flags and name are present but end past its declared length. |
| Parser.ParseTagOverrunAsWritten | parser.go:195-238 | On such a tag, with under 4 GiB of input after its header, ParseTag reports MalformedTag right after the name, where the Go dispatch to the as-written DoABC reports UnexpectedEOF. |
| Parser.ParseTags | parser.go:156-173 | The tag loop keeps the data and fails only with UnexpectedEOF or MalformedTag. |
| Parser.ParseTagsEnd | parser.go:156-173 | A tag list that reads is non-empty and ends with an End tag, and no earlier tag is an End. |
| Parser.Parse | parser.go:50-72 | Without an error the tags end at the first End. On a tag error the tags are empty and the header is kept. A header error gives exactly the empty file. |
| Encode.ReadUInt16Encoded | reader.go:101-108 | A little-endian uint16 encoding reads back as its value and ends two bytes on. |
| Encode.ReadUInt32Encoded | reader.go:110-117 | A little-endian uint32 encoding reads back as its value and ends four bytes on. |
| Encode.EncodeGroupsValue | reader.go:133-134 | The base-128 groups of a value below 2^(7k) denote the value. |
| Encode.ReadEUInt32Encoded | reader.go:121-142 | The EncodedU32 encoding of any value below 2^28 reads back as that value and ends right after its last byte. |
| Encode.ReadStringEncoded | reader.go:208-225 | A zero-free string plus its terminator reads back as the string and ends just past the zero. |
| Encode.RectFieldsPadded | parser.go:244-273 | The encoded RECT bits hold the width and the four coordinates' two's-complement patterns at the offsets ParseRect reads. |
| Encode.RectFromBits | parser.go:244-273 | Bits of an encoded RECT, found anywhere in the stream, parse as that RECT and end at its byte boundary. |
| Encode.RectEncoded | parser.go:244-273 | An encoded RECT between any bytes reads back as itself, and its boundary is its last byte. |
| EncodeHeader.PrefixEncoded | parser.go:100-134 | An encoded prefix has a valid signature of its compression, its version byte and its length word. |
| EncodeHeader.FrameEncoded | parser.go:140-152 | An encoded frame (RECT, rate bytes, count) between any bytes reads back as the RECT, the FIXED8 rate and the count. |
| EncodeHeader.FrameBytes | parser.go:140-152 | The same, for a frame found at byte p of the input. |
| EncodeHeader.HeaderRead | parser.go:99-154 | A valid prefix whose frame source holds a readable frame parses as that header, with tags starting after the frame. |
| EncodeHeader.HeaderEncoded | parser.go:99-154 | An encoded uncompressed prefix followed by an encoded frame parses as exactly that header, ending after the frame. |
| EncodeHeader.CompressedHeaderEncoded | parser.go:74-154 | An encoded zlib prefix whose body inflates to an encoded frame parses as that header, continuing in the inflated body. |
| EncodeTags.TagHeaderEncoded | parser.go:176-187 | An encoded short or long tag header reads back as its code and length, and the body starts right after it. |
| EncodeTags.ParseTagEndEncoded | parser.go:212-214 | An encoded End record reads back as End with its length. |
| EncodeTags.ParseTagOtherEncoded | parser.go:203-209 | An encoded record of any other code is skipped whole, with no tag. |
| EncodeTags.DoABCBodyEncoded | parser.go:216-241 | Flags, terminated name and data, of total length below 2^32, form a DoABC body that reads back as those fields. |
| EncodeTags.ParseTagDoABCEncoded | parser.go:175-241 | An encoded DoABC record reads back as its tag and ends after its body. |
| EncodeTags.ParseTagEncoded | parser.go:175-241 | Any encoded record reads back as its tag (or none, for skipped codes) and ends right after it. |
| EncodeTags.ParseTagsEncoded | parser.go:156-173 | An encoded record stream that ends with one End record reads back as its tags in order, whatever bytes follow. |
| EncodeTags.ParseTagsUnterminated | parser.go:156-173 | An encoded record stream without an End record, running to the end of input, fails with UnexpectedEOF. |
| EncodeTags.ParseTagsAtEnd | parser.go:176-179 | The tag loop at the very end of input fails with UnexpectedEOF, not EOF. |
| EncodeTags.ParseTagsSkipsTo | parser.go:159-169 | After a tag that is not End, a failing rest makes the whole loop fail with the same error. |
| EncodeFile.ParseTagsErr | parser.go:65-67 | When the header reads and the tags fail, Parse keeps the header, has no tags and reports the tag error. |
| EncodeFile.FileEncoded | parser.go:50-72 | An encoded uncompressed file parses as its header and the tags of its records, whatever bytes follow the End record. |
| EncodeFile.CompressedFileEncoded | parser.go:50-97 | An encoded zlib file whose body inflates to encoded contents parses as its header and tags. |
| EncodeFile.UnterminatedFile | parser.go:50-72 | An encoded file with no End record keeps its header, loses every tag and reports UnexpectedEOF. |
| Examples.ReadBitsExample | reader_test.go:16-39 | On 0x5f: 3 bits give 2, then 5 bits give 0x1f, then one more bit is EOF. |
| Examples.Int8Example | reader_test.go:41-56 | [0x03] reads 3 as int8 and as uint8; a second read is a plain EOF. |
| Examples.Int16Example | reader_test.go:58-73 | [0x03, 0x72, 0x12] reads 0x7203 signed and unsigned, then UnexpectedEOF on the one byte left. |
| Examples.Int32Example | reader_test.go:75-90 | [0x03, 0x72, 0x12, 0x04, 0x12] reads 0x04127203 signed and unsigned, then UnexpectedEOF on the one byte left. |
| Examples.EUInt32Example | reader_test.go:143-170 | 0x5f reads as 0x5f in one byte, and [0x8a, 0x89, 0x01] reads as 0x448a. A lone continuation byte is UnexpectedEOF, and nothing at all is EOF. |
| Examples.BitValueExample | reader_test.go:172-238 | On 0x9a: widths 0 and 34 fail and consume nothing. Then 5 bits give 19 unsigned and −13 signed, the last 3 bits give 2, and one more bit is EOF. |
| Examples.FixedExample | reader_test.go:240-259 | [0x00, 0x80, 0x07, 0x00] reads 7.5. A lone fraction word is then UnexpectedEOF, and nothing at all is EOF. |
| Examples.Fixed8Example | reader_test.go:261-288 | [0x80, 0x09] reads 9.5 and [0x80, 0xf7] reads −9.5. A lone byte is UnexpectedEOF, and nothing at all is EOF. |
| Examples.StringExample | reader_test.go:290-307 | "ABC\0E" reads "ABC". Then "E" without a terminator is UnexpectedEOF, and nothing at all is EOF. |
| Examples.HandleEOFExample | parser_test.go:125-142 | EOF becomes UnexpectedEOF and other errors pass through. |
| Examples.RectExample | parser_test.go:83-105 | The test RECT reads as {16, 0, 25600, 0, 20480} and ends 5 bits into its ninth byte. |
| Examples.RectTruncatedExample | parser_test.go:107-122 | Any 1 to 7 bytes whose width field says 16 (the cuts to 1, 3, 5, 7 bytes) give UnexpectedEOF. |
| Examples.HeaderExample | parser_test.go:56-81 | The 21-byte header reads as {None, 11, 11605652, RECT, 50.0, 1} and the tags start at byte 21. |

## Left out

- zlib decompression (parser.go:83-93) is a parameter, `inflate: seq<uint8> -> Inflated`, applied to the bytes from offset 8 on. Its own failures are one `Decompression` error or an end of input.
- The deferred `Close` of a compressed source (parser.go:57-63) is resource handling with no effect on the decoded value. The type assertion that panics for non-closers is not modelled either.
- The internals of `github.com/icza/bitio` (reader.go:8, 36-38) are not modelled. Its behaviour is stated directly: most significant bit first, aligning before byte reads and seeks, and EOF on a shortfall. After a failed bit read the cursor is exhausted; bitio's stale cached bits are not modelled, because no caller reads again after such a failure.
- float32 rounding in ReadFixed and ReadFixed8 (reader.go:186, 203-205) is not modelled: values are exact reals. A 16.16 value does not always fit a float32.
- I/O errors other than end of input are not modelled, because a byte string has none. For the same reason the model does not include ReadFixed8 dropping such an error on its second byte (reader.go:196-201).
- `NewReader`, `newParser`, `NewParser` and the `Reader` and `Parser` interfaces (reader.go:11-47, parser.go:19-41) are constructors and plumbing. `Parser.Parse` here takes the input bytes and `inflate` directly.
- utils.go (`simpleByteReadSeeker`), examples/extract.go and doc.go are not part of this model.
- `TestParse` (parser_test.go:23-54) reads a fixture file, big.swf, through zlib. That file is not part of this model.
- Parser.DoABCAsWrittenWraps: states the wrap-around only for flags and names shorter than 4 GiB. A longer name cannot occur in an input a uint32 length can describe.
- Parser.ParseTagDoABCTag: dispatches code 82 to the corrected DoABC. The Go code reports UnexpectedEOF where this reports MalformedTag (Parser.ParseTagOverrunAsWritten). The Go code also succeeds on such a tag when 4 GiB or more of input follow its body; this never does.
- Parser.ParseTagBody: reports MalformedTag where the Go code reports UnexpectedEOF, on a DoABC tag whose flags and name overrun its declared length (Parser.ParseTagMalformed). Everywhere else it agrees with the code as written (Parser.DoABCAsWrittenAgrees).
- Parser.ParseTag: the same MalformedTag in place of Go's UnexpectedEOF, and only there (Parser.ParseTagMalformed).
- Parser.ParseTags: the same MalformedTag in place of Go's UnexpectedEOF, passed on from ParseTag.
- Parser.Parse: the same MalformedTag in place of Go's UnexpectedEOF, passed on from ParseTags. The header and the empty tag list that come with the error are the same in both.
- Parser.ParseTags: its contract only bounds the errors. The ordering and termination promises are in Parser.ParseTagsEnd and EncodeTags.ParseTagsEncoded, because the loop's own contract would repeat its body.

## Findings

| source | as written | input that shows it | evidently intended | confidence | as-written member | corrected member |
|---|---|---|---|---|---|---|
| parser.go:233 | `abcDataLen := length - uint32(end-begin)` is uint32 arithmetic with no check. A declared length shorter than the flags and name wraps to nearly 2^32 bytes, and the tag reader then demands data far past the tag. | A DoABC tag of length 4 whose body is 01 00 00 00 00 (flags 1, empty name). | Such a tag is malformed and is rejected at the name. Otherwise ABC data is exactly the rest of the declared length. | not executed | Parser.ParseTagDoABCAsWritten, Parser.DoABCAsWrittenWraps, Parser.DoABCOverrunExample | Parser.ParseTagDoABC, Parser.ParseTagDoABCReads, Parser.ParseTagDoABCOverrun |
