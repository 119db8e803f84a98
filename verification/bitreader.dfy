/**
 The read cursor of reader.go: a bitio.Reader layered over a seekable byte
 source. The source is an immutable byte string; the cursor is the byte the
 next bit comes from plus the number of its bits already consumed. Bit reads
 continue inside the current byte; byte reads and seeks first drop the rest
 of a partly read byte (Align). Every read returns the cursor after it, also
 when it fails.
 */
module BitReader {
  import opened Ints
  import opened BitStream
  import opened Errors

  datatype CursorState = CursorState(data: seq<uint8>, pos: nat, bit: nat)

  /** `bit` (0..7) bits of byte `pos` are consumed; a partly consumed byte is
      always a byte of the source. `pos` may lie past the end after a seek. */
  type Cursor = c: CursorState | c.bit < 8 && (c.bit > 0 ==> c.pos < |c.data|)
    witness CursorState([], 0, 0)

  /** The outcome of a read: a value or an error, and the cursor after it. */
  datatype Result<T> = Ok(value: T, next: Cursor) | Err(error: Error, next: Cursor)

  function Start(data: seq<uint8>): Cursor
  {
    CursorState(data, 0, 0)
  }

  /** Index of the next bit in the bit stream of the source. */
  function BitIndex(c: Cursor): nat
  {
    8 * c.pos + c.bit
  }

  /** The cursor positioned at bit index `i` of `d`. */
  function AtBit(d: seq<uint8>, i: nat): (c: Cursor)
    requires i <= 8 * |d|
    ensures c.data == d && BitIndex(c) == i
  {
    CursorState(d, i / 8, i % 8)
  }

  /** bitio's Align: the first byte boundary at or after the cursor. */
  function Align(c: Cursor): (a: Cursor)
    ensures a.data == c.data && a.bit == 0
    ensures BitIndex(c) <= 8 * a.pos < BitIndex(c) + 8
  {
    if c.bit == 0 then c else CursorState(c.data, c.pos + 1, 0)
  }

  /** Where a read that ran out of input leaves the source: every remaining
      byte consumed. */
  function Exhausted(c: Cursor): (e: Cursor)
    ensures e.data == c.data && e.bit == 0 && e.pos >= |c.data| && e.pos >= Align(c).pos
  {
    var a := Align(c);
    CursorState(c.data, if a.pos < |c.data| then |c.data| else a.pos, 0)
  }

  /** Bytes left from the cursor's byte on; the measure of every read loop. */
  function Remaining(c: Cursor): nat
  {
    if c.pos < |c.data| then |c.data| - c.pos else 0
  }

  datatype Whence = SeekStart | SeekCurrent | SeekEnd

  /** The reference point of a seek in the source. */
  function SeekBase(c: Cursor, whence: Whence): nat
  {
    match whence
    case SeekStart => 0
    case SeekCurrent => Align(c).pos
    case SeekEnd => |c.data|
  }

  /** reader.Seek (reader.go:49-52): align, then move the source like
      bytes.Reader.Seek, which refuses negative positions and returns the new
      absolute position. */
  function Seek(c: Cursor, offset: int, whence: Whence): (r: Result<int>)
    ensures r.next.data == c.data && r.next.bit == 0
    ensures r.Ok? <==> SeekBase(c, whence) + offset >= 0
    ensures r.Ok? ==> r.value == SeekBase(c, whence) + offset && r.next.pos == r.value
    ensures r.Err? ==> r.error == NegativePosition && r.next == Align(c)
  {
    var a := Align(c);
    var target := SeekBase(c, whence) + offset;
    if target < 0 then Err(NegativePosition, a) else Ok(target, CursorState(c.data, target, 0))
  }

  /** reader.ReadBits (reader.go:55-58), i.e. bitio's ReadBits: the next `n`
      bits, most significant first, crossing byte boundaries as needed. */
  function ReadBits(c: Cursor, n: nat): (r: Result<nat>)
    requires 1 <= n <= 32
    ensures r.next.data == c.data
    ensures r.Ok? <==> BitIndex(c) + n <= 8 * |c.data|
    ensures r.Ok? ==> r.value < Pow2(n) && BitIndex(r.next) == BitIndex(c) + n
    ensures r.Err? ==> r.error == EOF && r.next == Exhausted(c)
  {
    var start := BitIndex(c);
    if start + n <= 8 * |c.data| then
      BitsValueBound(c.data, start, n);
      Ok(BitsValue(c.data, start, n), AtBit(c.data, start + n))
    else Err(EOF, Exhausted(c))
  }

  /** reader.read (reader.go:60-63): align, then fill `n` bytes as
      io.ReadFull does. No byte available is EOF; some but fewer than `n` is
      UnexpectedEOF. */
  function ReadBytes(c: Cursor, n: nat): (r: Result<seq<uint8>>)
    ensures r.next.data == c.data
    ensures r.Ok? <==> n == 0 || Align(c).pos + n <= |c.data|
    ensures r.Ok? ==> |r.value| == n && r.next.bit == 0 && r.next.pos == Align(c).pos + n
    ensures r.Ok? && n > 0 ==> r.value == c.data[Align(c).pos..Align(c).pos + n]
    ensures r.Err? ==> r.next == Exhausted(c)
    ensures r.Err? ==> r.error == (if Align(c).pos < |c.data| then UnexpectedEOF else EOF)
  {
    var a := Align(c);
    if n == 0 then Ok([], a)
    else if a.pos + n <= |c.data| then Ok(c.data[a.pos..a.pos + n], CursorState(c.data, a.pos + n, 0))
    else if a.pos < |c.data| then Err(UnexpectedEOF, Exhausted(c))
    else Err(EOF, Exhausted(c))
  }
}
