/**
 The values the SWF parser produces (types.go): the file header with its
 frame rectangle, the tags it understands, and the decoded file.
 */
module Types {
  import opened Ints

  /** Code of the End tag, the last tag of every SWF file. */
  const CodeTagEnd: nat := 0
  /** Code of the DoABC tag, which carries ActionScript 3 bytecode. */
  const CodeTagDoABC: nat := 82

  datatype Option<T> = None | Some(value: T)

  /** The compression named by the first signature byte. */
  datatype Compression = CompressionNone | CompressionZlib | CompressionLZMA
  {
    /** The Go constant of the compression (an iota sequence from 0). */
    function Code(): (k: uint8)
      ensures k == 0 <==> this.CompressionNone?
      ensures k == 1 <==> this.CompressionZlib?
      ensures k == 2 <==> this.CompressionLZMA?
    {
      match this
      case CompressionNone => 0
      case CompressionZlib => 1
      case CompressionLZMA => 2
    }
  }

  /** A RECT record: the field width and four signed coordinates in twips. */
  datatype Rect = Rect(nBits: uint8, xMin: int32, xMax: int32, yMin: int32, yMax: int32)

  datatype Header = Header(
    compression: Compression,
    version: uint8,
    fileLength: uint32,
    frameSize: Rect,
    frameRate: real,
    frameCount: uint16)

  /** The tags the parser returns; every other tag is skipped. `length` is
      the length declared in the tag's record header. */
  datatype Tag =
    | End(length: uint32)
    | DoABC(length: uint32, flags: uint32, name: seq<uint8>, abcData: seq<uint8>)
  {
    /** The tag code of the record header (types.go:53). */
    function Code(): (k: nat)
      ensures k == CodeTagEnd <==> this.End?
      ensures k == CodeTagDoABC <==> this.DoABC?
    {
      match this
      case End(_) => CodeTagEnd
      case DoABC(_, _, _, _) => CodeTagDoABC
    }

    /** The declared length of the tag's record header (types.go:54). */
    function Length(): uint32
    {
      length
    }
  }

  datatype Swf = Swf(header: Header, tags: seq<Tag>)

  /** Go's zero values: what Parse returns when the header cannot be read. */
  const ZeroRect := Rect(0, 0, 0, 0, 0)
  const ZeroHeader := Header(CompressionNone, 0, 0, ZeroRect, 0.0, 0)
  const ZeroSwf := Swf(ZeroHeader, [])
}
