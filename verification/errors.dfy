/**
 The failures the SWF reader and parser report: one variant per Go error
 value, plus MalformedTag, which only the corrected DoABC parser reports.
 */
module Errors {

  datatype Error =
    /** io.EOF: not a single byte was available where a read began. */
    | EOF
    /** io.ErrUnexpectedEOF: the input ended inside a value or record. */
    | UnexpectedEOF
    /** The "bit value is 1-32 bits" error of ReadUBitValue / ReadBitValue. */
    | BadBitWidth
    /** A seek to a position before the start of the source (bytes.Reader). */
    | NegativePosition
    /** ErrMalformedHeader: the signature is not F/C/Z followed by "WS". */
    | MalformedHeader
    /** ErrUnsupportedFile: the LZMA signature 'Z'. */
    | UnsupportedFile
    /** A failure of the zlib collaborator other than end of input. */
    | Decompression
    /** A DoABC tag whose declared length is shorter than its flags and name.
        The Go code has no such error: its uint32 subtraction wraps around
        instead (parser.go:233), so this is the corrected parser's own. */
    | MalformedTag
}
