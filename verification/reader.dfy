/**
 The typed reads of reader.go, built on the cursor of BitReader: fixed-width
 little-endian integers, the EncodedU32 variable-length integer, unsigned
 and sign-extended bit fields, the 16.16 and 8.8 fixed-point numbers and
 null-terminated strings (chapter 1, "Basic Data Types", of the SWF File
 Format Specification, version 19).

 Reals stand for Go's float32 results; the exact value is modelled.
 */
module Reader {
  import opened Ints
  import opened BitStream
  import opened Errors
  import opened BitReader
  import opened Types

  /** Reads `size` bytes and decodes them as a little-endian unsigned number. */
  function ReadUnsigned(c: Cursor, size: nat): (r: Result<nat>)
    ensures r.next.data == c.data
    ensures r.Ok? <==> size == 0 || Align(c).pos + size <= |c.data|
    ensures r.Ok? ==> r.value < Pow2(8 * size) && r.next == CursorState(c.data, Align(c).pos + size, 0)
    ensures r.Ok? && size > 0 ==> r.value == LittleEndian(c.data[Align(c).pos..Align(c).pos + size])
    ensures r.Err? ==> r.next == Exhausted(c)
    ensures r.Err? ==> r.error == (if Align(c).pos < |c.data| then UnexpectedEOF else EOF)
  {
    match ReadBytes(c, size)
    case Ok(bs, next) => Ok(LittleEndian(bs), next)
    case Err(e, next) => Err(e, next)
  }

  /** The 16-bit word at byte `p`, low byte first, written out. */
  function Word16(d: seq<uint8>, p: nat): uint16
    requires p + 2 <= |d|
  {
    (d[p] as int) + 0x100 * (d[p + 1] as int)
  }

  /** The 32-bit word at byte `p`, least significant byte first, written out. */
  function Word32(d: seq<uint8>, p: nat): uint32
    requires p + 4 <= |d|
  {
    (d[p] as int) + 0x100 * (d[p + 1] as int) + 0x1_0000 * (d[p + 2] as int) + 0x100_0000 * (d[p + 3] as int)
  }

  lemma LittleEndian2(d: seq<uint8>, p: nat)
    requires p + 2 <= |d|
    ensures LittleEndian(d[p..p + 2]) == Word16(d, p)
  {
    var bs := d[p..p + 2];
    assert bs[1..][1..] == [];
  }

  lemma LittleEndian4(d: seq<uint8>, p: nat)
    requires p + 4 <= |d|
    ensures LittleEndian(d[p..p + 4]) == Word32(d, p)
  {
    var bs := d[p..p + 4];
    assert LittleEndian(bs[3..]) == d[p + 3] by {
      assert bs[3..][1..] == [];
    }
    assert bs[2..][1..] == bs[3..];
    assert LittleEndian(bs[2..]) == (d[p + 2] as int) + 0x100 * (d[p + 3] as int);
    assert bs[1..][1..] == bs[2..];
    assert LittleEndian(bs[1..]) == (d[p + 1] as int) + 0x100 * LittleEndian(bs[2..]);
  }

  /** ReadUInt8 (reader.go:93-99). */
  function ReadUInt8(c: Cursor): (r: Result<nat>)
    ensures r.next.data == c.data
    ensures r.Ok? <==> Align(c).pos < |c.data|
    ensures r.Ok? ==> r.value == c.data[Align(c).pos] && r.next == CursorState(c.data, Align(c).pos + 1, 0)
    ensures r.Err? ==> r.error == EOF && r.next == Exhausted(c)
  {
    var p := Align(c).pos;
    if p < |c.data| then Ok(c.data[p], CursorState(c.data, p + 1, 0)) else Err(EOF, Exhausted(c))
  }

  /** A one-byte read is a one-byte reader.read. */
  lemma ReadUInt8Bytes(c: Cursor)
    ensures ReadUInt8(c).Ok? == ReadBytes(c, 1).Ok?
    ensures ReadUInt8(c).next == ReadBytes(c, 1).next
    ensures ReadUInt8(c).Ok? ==> [ReadUInt8(c).value] == ReadBytes(c, 1).value
    ensures ReadUInt8(c).Err? ==> ReadUInt8(c).error == ReadBytes(c, 1).error
  {
  }

  /** ReadUInt16 (reader.go:102-108): two bytes, low byte first. */
  function ReadUInt16(c: Cursor): (r: Result<nat>)
    ensures r.next.data == c.data
    ensures r.Ok? <==> Align(c).pos + 2 <= |c.data|
    ensures r.Ok? ==> r.next == CursorState(c.data, Align(c).pos + 2, 0)
    ensures r.Ok? ==> r.value == Word16(c.data, Align(c).pos)
    ensures r.Err? ==> r.next == Exhausted(c)
    ensures r.Err? ==> r.error == (if Align(c).pos < |c.data| then UnexpectedEOF else EOF)
  {
    match ReadBytes(c, 2)
    case Err(e, next) => Err(e, next)
    case Ok(_, next) => Ok(Word16(c.data, Align(c).pos), next)
  }

  /** ReadUInt16 is binary.Read's little-endian decoding of two bytes. */
  lemma ReadUInt16Unsigned(c: Cursor)
    ensures ReadUInt16(c) == ReadUnsigned(c, 2)
  {
    if Align(c).pos + 2 <= |c.data| {
      LittleEndian2(c.data, Align(c).pos);
    }
  }

  /** ReadUInt32 (reader.go:111-117): four bytes, least significant first. */
  function ReadUInt32(c: Cursor): (r: Result<nat>)
    ensures r.next.data == c.data
    ensures r.Ok? <==> Align(c).pos + 4 <= |c.data|
    ensures r.Ok? ==> r.next == CursorState(c.data, Align(c).pos + 4, 0)
    ensures r.Ok? ==> r.value == Word32(c.data, Align(c).pos)
    ensures r.Err? ==> r.next == Exhausted(c)
    ensures r.Err? ==> r.error == (if Align(c).pos < |c.data| then UnexpectedEOF else EOF)
  {
    match ReadBytes(c, 4)
    case Err(e, next) => Err(e, next)
    case Ok(_, next) => Ok(Word32(c.data, Align(c).pos), next)
  }

  /** ReadUInt32 is binary.Read's little-endian decoding of four bytes. */
  lemma ReadUInt32Unsigned(c: Cursor)
    ensures ReadUInt32(c) == ReadUnsigned(c, 4)
  {
    if Align(c).pos + 4 <= |c.data| {
      LittleEndian4(c.data, Align(c).pos);
    }
  }

  /** A byte read as a two's-complement int8. */
  function SignedByte(b: uint8): (x: int8)
    ensures x < 0 <==> b >= 0x80
    ensures x % 0x100 == b
  {
    if b < 0x80 then b as int else b as int - 0x100
  }

  /** ReadInt8 (reader.go:66-72): one byte in two's complement. */
  function ReadInt8(c: Cursor): (r: Result<int>)
    ensures r.next.data == c.data
    ensures r.Ok? <==> Align(c).pos < |c.data|
    ensures r.Ok? ==> r.next == CursorState(c.data, Align(c).pos + 1, 0)
    ensures r.Ok? ==> r.value == SignedByte(c.data[Align(c).pos])
    ensures r.Err? ==> r.error == EOF && r.next == Exhausted(c)
  {
    assert Pow2(8) == 0x100 && Pow2(7) == 0x80;
    match ReadUInt8(c)
    case Ok(v, next) => Ok(ToSigned(v, 8), next)
    case Err(e, next) => Err(e, next)
  }

  /** ReadInt16 (reader.go:75-81). */
  function ReadInt16(c: Cursor): (r: Result<int>)
    ensures r.next.data == c.data
    ensures r.Ok? <==> Align(c).pos + 2 <= |c.data|
    ensures r.Ok? ==> r.next == CursorState(c.data, Align(c).pos + 2, 0)
    ensures r.Ok? ==> var u := Word16(c.data, Align(c).pos);
      r.value == if u < 0x8000 then u else u - 0x1_0000
    ensures r.Err? ==> r.next == Exhausted(c)
    ensures r.Err? ==> r.error == (if Align(c).pos < |c.data| then UnexpectedEOF else EOF)
  {
    Pow2Of16();
    match ReadUInt16(c)
    case Ok(v, next) => Ok(ToSigned(v, 16), next)
    case Err(e, next) => Err(e, next)
  }

  /** ReadInt32 (reader.go:84-90). */
  function ReadInt32(c: Cursor): (r: Result<int>)
    ensures r.next.data == c.data
    ensures r.Ok? <==> Align(c).pos + 4 <= |c.data|
    ensures r.Ok? ==> r.next == CursorState(c.data, Align(c).pos + 4, 0)
    ensures r.Ok? ==> var u := Word32(c.data, Align(c).pos);
      r.value == if u < 0x8000_0000 then u else u - 0x1_0000_0000
    ensures r.Err? ==> r.next == Exhausted(c)
    ensures r.Err? ==> r.error == (if Align(c).pos < |c.data| then UnexpectedEOF else EOF)
  {
    Pow2Of32();
    match ReadUInt32(c)
    case Ok(v, next) => Ok(ToSigned(v, 32), next)
    case Err(e, next) => Err(e, next)
  }

  // ---------------------------------------------------------------------
  // EncodedU32

  /** The number an EncodedU32 byte group denotes: the low seven bits of
      every byte, the first byte supplying the least significant group. */
  function EncodedValue(bs: seq<uint8>): nat
  {
    if |bs| == 0 then 0 else bs[0] % 0x80 + 0x80 * EncodedValue(bs[1..])
  }

  /** `n` groups of seven bits stay below 2^(7n). */
  lemma {:induction false} EncodedValueBound(bs: seq<uint8>)
    ensures EncodedValue(bs) < Pow2(7 * |bs|)
  {
    if |bs| > 0 {
      var rest := EncodedValue(bs[1..]);
      EncodedValueBound(bs[1..]);
      Pow2Add(7, 7 * (|bs| - 1));
      assert Pow2(7) == 0x80;
      assert 0x80 * rest <= 0x80 * (Pow2(7 * (|bs| - 1)) - 1);
    }
  }

  /** Scaling the value of a group by 2^(7*count) and adding the next byte's
      low seven bits below it. */
  lemma EncodedStep(bs: seq<uint8>, count: nat)
    requires |bs| > 0
    ensures GroupAt(bs[0], count) + Pow2(7 * (count + 1)) * EncodedValue(bs[1..])
         == Pow2(7 * count) * EncodedValue(bs)
  {
    var p := Pow2(7 * count);
    Pow2Add(7 * count, 7);
    assert Pow2(7) == 0x80;
    var a, rest := bs[0] % 0x80, EncodedValue(bs[1..]);
    assert EncodedValue(bs) == a + 0x80 * rest;
    GroupOfByte(bs[0], count);
    EncodedSingle(bs[0]);
    MulComm(a, p);
    Distribute(p, a, rest);
  }

  /** The groups of the bytes of `d` from `p` to `e` placed from group
      `count` on: what the loop of ReadEUInt32 ORs into its result, one byte
      at a time. */
  function EncodedGroups(d: seq<uint8>, p: nat, e: nat, count: nat): nat
    requires p <= e <= |d|
    decreases e - p
  {
    if p == e then 0 else GroupAt(d[p], count) + EncodedGroups(d, p + 1, e, count + 1)
  }

  /** Placing the groups from group `count` on scales their value by 2^(7*count). */
  lemma {:induction false} EncodedGroupsValue(d: seq<uint8>, p: nat, e: nat, count: nat)
    requires p <= e <= |d|
    ensures EncodedGroups(d, p, e, count) == Pow2(7 * count) * EncodedValue(d[p..e])
    decreases e - p
  {
    if p < e {
      EncodedGroupsValue(d, p + 1, e, count + 1);
      assert d[p..e][1..] == d[p + 1..e];
      EncodedStep(d[p..e], count);
    }
  }

  lemma EncodedSingle(b: uint8)
    ensures EncodedValue([b]) == b % 0x80
  {
    assert [b][1..] == [];
  }

  /** The low seven bits of `b` moved to group `count`:
      `uint32(b & 0x7f) << (7 * count)`, one seven-bit shift at a time. */
  function GroupAt(b: uint8, count: nat): nat
  {
    if count == 0 then b % 0x80 else 0x80 * GroupAt(b, count - 1)
  }

  /** A single byte is its own low seven bits, in group `count`. */
  lemma {:induction false} GroupOfByte(b: uint8, count: nat)
    ensures GroupAt(b, count) == Pow2(7 * count) * EncodedValue([b])
  {
    if count == 0 {
      assert [b][1..] == [];
      assert EncodedValue([b]) == b % 0x80;
    } else {
      GroupOfByte(b, count - 1);
      Pow2Add(7 * (count - 1), 7);
      assert Pow2(7) == 0x80;
      var e := EncodedValue([b]);
      assert Pow2(7 * count) * e == 0x80 * (Pow2(7 * (count - 1)) * e) by {
        MulAssoc(0x80, Pow2(7 * (count - 1)), e);
      }
    }
  }

  lemma MulAssoc(a: int, b: int, c: int)
    ensures (b * a) * c == a * (b * c)
  {
  }

  lemma MulComm(a: int, p: int)
    ensures a * p == p * a
  {
  }

  lemma Distribute(p: int, a: int, rest: int)
    ensures a * p + (p * 0x80) * rest == p * (a + 0x80 * rest)
  {
  }

  /** The loop of ReadEUInt32 (reader.go:121-142) after `count` bytes that
      accumulated `v`. Each byte's low seven bits are OR-ed in at bit
      7 * count; the groups occupy disjoint bits, so the OR is a sum, and
      four groups stay below 2^28, so the uint32 never wraps. The loop stops
      after a byte whose high bit is clear, or after the fourth byte. */
  function ReadEUInt32Loop(c: Cursor, v: nat, count: nat): (r: Result<nat>)
    requires count < 4
    ensures r.next.data == c.data
    ensures r.Ok? ==> r.next.pos <= |c.data| && r.next.bit == 0
    ensures r.Err? ==> r.next == Exhausted(c)
    ensures r.Err? ==> r.error == (if count == 0 && Align(c).pos >= |c.data| then EOF else UnexpectedEOF)
    decreases 4 - count
  {
    match ReadUInt8(c)
    case Err(e, next) => Err(if e == EOF && count != 0 then UnexpectedEOF else e, next)
    case Ok(b, next) =>
      var v' := v + GroupAt(b, count);
      if count + 1 == 4 || b < 0x80 then Ok(v', next)
      else ReadEUInt32Loop(next, v', count + 1)
  }

  /** Where the loop of ReadEUInt32, started at byte `p` after `count`
      groups, stops: the position after its last byte, or None when the
      input ends first. */
  function EncodedEnd(d: seq<uint8>, p: nat, count: nat): (e: Option<nat>)
    requires count < 4
    ensures e.Some? ==> p < e.value <= |d| && e.value <= p + 4 - count
    decreases 4 - count
  {
    if p >= |d| then None
    else if count + 1 == 4 || d[p] < 0x80 then Some(p + 1)
    else EncodedEnd(d, p + 1, count + 1)
  }

  /** The input ends first exactly when it ends before the byte limit and
      every byte left has its high bit set. */
  lemma {:induction false} EncodedEndNone(d: seq<uint8>, p: nat, count: nat)
    requires count < 4
    ensures EncodedEnd(d, p, count).None?
        <==> p + 4 - count > |d| && forall i | p <= i < |d| :: d[i] >= 0x80
    decreases 4 - count
  {
    if p < |d| && !(count + 1 == 4 || d[p] < 0x80) {
      EncodedEndNone(d, p + 1, count + 1);
    }
  }

  /** Every byte before the stop has its high bit set; the last one has it
      clear unless the byte limit was reached. */
  lemma {:induction false} EncodedEndStops(d: seq<uint8>, p: nat, count: nat)
    requires count < 4
    ensures var e := EncodedEnd(d, p, count);
      e.Some? ==> && (forall i | p <= i < e.value - 1 :: d[i] >= 0x80)
                  && (e.value < p + 4 - count ==> d[e.value - 1] < 0x80)
    decreases 4 - count
  {
    if p < |d| && !(count + 1 == 4 || d[p] < 0x80) {
      EncodedEndStops(d, p + 1, count + 1);
    }
  }

  /** The loop starts by aligning, so it reads the same from the aligned
      cursor. */
  lemma ReadEUInt32LoopAligned(c: Cursor, v: nat, count: nat)
    requires count < 4
    ensures ReadEUInt32Loop(c, v, count) == ReadEUInt32Loop(Align(c), v, count)
  {
    assert ReadUInt8(c) == ReadUInt8(Align(c));
  }

  /** The loop succeeds exactly when EncodedEnd finds a stop, ends there,
      and its value is the accumulator plus the groups of the bytes it
      consumed, placed above the `count` groups already read. */
  lemma {:induction false} ReadEUInt32LoopEnd(c: Cursor, v: nat, count: nat)
    requires count < 4 && c.bit == 0
    ensures var r, e := ReadEUInt32Loop(c, v, count), EncodedEnd(c.data, c.pos, count);
      && (r.Ok? <==> e.Some?)
      && (r.Ok? ==> r.next.pos == e.value && r.value == v + EncodedGroups(c.data, c.pos, e.value, count))
    decreases 4 - count, 1
  {
    if c.pos < |c.data| {
      var b, next := c.data[c.pos], CursorState(c.data, c.pos + 1, 0);
      if count + 1 == 4 || b < 0x80 {
        ReadEUInt32LoopLast(c, v, count, next);
      } else {
        ReadEUInt32LoopNext(c, v, count, next, v + GroupAt(b, count));
      }
    }
  }

  /** The loop's last byte. */
  lemma ReadEUInt32LoopLast(c: Cursor, v: nat, count: nat, next: Cursor)
    requires count < 4 && c.bit == 0 && c.pos < |c.data|
    requires count + 1 == 4 || c.data[c.pos] < 0x80
    requires next == CursorState(c.data, c.pos + 1, 0)
    ensures ReadEUInt32Loop(c, v, count) == Ok(v + EncodedGroups(c.data, c.pos, next.pos, count), next)
  {
    assert ReadUInt8(c) == Ok(c.data[c.pos], next);
  }

  /** A byte that continues the loop: the loop goes on from the next byte
      with that byte's group added. */
  lemma ReadEUInt32LoopStep(c: Cursor, v: nat, count: nat, next: Cursor, v': nat)
    requires count < 4 && c.bit == 0 && c.pos < |c.data|
    requires !(count + 1 == 4 || c.data[c.pos] < 0x80)
    requires next == CursorState(c.data, c.pos + 1, 0) && v' == v + GroupAt(c.data[c.pos], count)
    ensures ReadEUInt32Loop(c, v, count) == ReadEUInt32Loop(next, v', count + 1)
  {
    assert ReadUInt8(c) == Ok(c.data[c.pos], next);
  }

  /** A byte that continues the loop adds its group below the rest. */
  lemma {:induction false} ReadEUInt32LoopNext(c: Cursor, v: nat, count: nat, next: Cursor, v': nat)
    requires count < 4 && c.bit == 0 && c.pos < |c.data|
    requires !(count + 1 == 4 || c.data[c.pos] < 0x80)
    requires next == CursorState(c.data, c.pos + 1, 0) && v' == v + GroupAt(c.data[c.pos], count)
    ensures var r, e := ReadEUInt32Loop(c, v, count), EncodedEnd(c.data, c.pos, count);
      && (r.Ok? <==> e.Some?)
      && (r.Ok? ==> r.next.pos == e.value && r.value == v + EncodedGroups(c.data, c.pos, e.value, count))
    decreases 4 - count, 0
  {
    ReadEUInt32LoopStep(c, v, count, next, v');
    ReadEUInt32LoopEnd(next, v', count + 1);
  }

  /** ReadEUInt32 (reader.go:121-142): EncodedU32, at most four bytes. */
  function ReadEUInt32(c: Cursor): (r: Result<nat>)
    ensures r.next.data == c.data
    ensures var p := Align(c).pos;
      r.Err? <==> p + 4 > |c.data| && forall i | p <= i < |c.data| :: c.data[i] >= 0x80
    ensures var p := Align(c).pos;
      r.Ok? ==> && p < r.next.pos <= p + 4
                && r.next.pos <= |c.data| && r.next.bit == 0
                && (forall i | p <= i < r.next.pos - 1 :: c.data[i] >= 0x80)
                && r.value == EncodedValue(c.data[p..r.next.pos])
                && r.value < Pow2(28)
    ensures r.Ok? && r.next.pos < Align(c).pos + 4 ==> c.data[r.next.pos - 1] < 0x80
    ensures r.Err? ==> r.next == Exhausted(c)
    ensures r.Err? ==> r.error == (if Align(c).pos >= |c.data| then EOF else UnexpectedEOF)
  {
    var a := Align(c);
    ReadEUInt32LoopAligned(c, 0, 0);
    ReadEUInt32Value(a);
    EncodedEndNone(a.data, a.pos, 0);
    EncodedEndStops(a.data, a.pos, 0);
    ReadEUInt32Loop(c, 0, 0)
  }

  /** From the start, the loop's value is the value of the bytes it read. */
  lemma ReadEUInt32Value(c: Cursor)
    requires c.bit == 0
    ensures var r, e := ReadEUInt32Loop(c, 0, 0), EncodedEnd(c.data, c.pos, 0);
      && (r.Ok? <==> e.Some?)
      && (r.Ok? ==> r.next.pos == e.value && r.value == EncodedValue(c.data[c.pos..e.value])
                    && r.value < Pow2(28))
  {
    ReadEUInt32LoopEnd(c, 0, 0);
    assert Pow2(0) == 1;
    var e := EncodedEnd(c.data, c.pos, 0);
    if e.Some? {
      EncodedGroupsValue(c.data, c.pos, e.value, 0);
      EncodedBound(c.data[c.pos..e.value]);
    }
  }

  lemma EncodedBound(bs: seq<uint8>)
    requires |bs| <= 4
    ensures EncodedValue(bs) < Pow2(28)
  {
    EncodedValueBound(bs);
    Pow2Monotone(7 * |bs|, 28);
  }

  // ---------------------------------------------------------------------
  // Bit fields

  /** ReadUBitValue (reader.go:146-151): widths outside 1..32 are refused
      before anything is read. */
  function ReadUBitValue(c: Cursor, n: uint8): (r: Result<nat>)
    ensures n == 0 || n > 32 ==> r == Err(BadBitWidth, c)
    ensures 1 <= n <= 32 ==> r == ReadBits(c, n)
  {
    if n > 32 || n == 0 then Err(BadBitWidth, c) else ReadBits(c, n)
  }

  /** Go's `x << n` on a uint32: bits shifted past bit 31 are lost, and a
      shift by 32 or more gives 0. */
  function ShiftLeft32(x: uint32, n: nat): (r: nat)
    ensures r < Pow2(32)
  {
    Pow2Of32();
    (x * Pow2(n)) % Pow2(32)
  }

  /** Go's conversion of a uint32 to int32. */
  function Int32(u: nat): (r: int)
    requires u < 0x1_0000_0000
  {
    if u < 0x8000_0000 then u else u - 0x1_0000_0000
  }

  lemma ShiftedMask(n: nat)
    requires 1 <= n <= 32
    ensures ShiftLeft32(0xffff_ffff, n) == Pow2(32) - Pow2(n)
  {
    Pow2Of32();
    Pow2Monotone(n, 32);
    var p := Pow2(n);
    assert 0xffff_ffff * p == (p - 1) * 0x1_0000_0000 + (0x1_0000_0000 - p);
    DivModUnique(0xffff_ffff * p, 0x1_0000_0000, p - 1, 0x1_0000_0000 - p);
  }

  lemma SignBit(raw: nat, n: nat)
    requires 1 <= n && raw < Pow2(n)
    ensures (raw / Pow2(n - 1)) % 2 == 1 <==> raw >= Pow2(n - 1)
  {
    var h := Pow2(n - 1);
    if raw >= h {
      DivModUnique(raw, h, 1, raw - h);
    } else {
      DivModUnique(raw, h, 0, raw);
    }
  }

  /** ReadBitValue (reader.go:155-167): an n-bit field whose top bit is the
      sign, extended to 32 bits by OR-ing in 0xffffffff << n. The OR is
      written as a sum: the raw value has no bits at or above bit n. */
  function ReadBitValue(c: Cursor, n: uint8): (r: Result<int>)
    ensures n == 0 || n > 32 ==> r == Err(BadBitWidth, c)
    ensures 1 <= n <= 32 ==> r.Ok? == ReadBits(c, n).Ok? && r.next == ReadBits(c, n).next
    ensures 1 <= n <= 32 && r.Err? ==> r.error == EOF
    ensures r.Ok? ==> 1 <= n <= 32 && var raw := ReadBits(c, n).value;
      && -(Pow2(n - 1) as int) <= r.value < Pow2(n - 1)
      && -0x8000_0000 <= r.value < 0x8000_0000
      && r.value == (if raw >= Pow2(n - 1) then raw - Pow2(n) else raw)
      && FromSigned(r.value, n) == raw
  {
    match ReadUBitValue(c, n)
    case Err(e, next) => Err(e, next)
    case Ok(value, next) =>
      var sign := (value / Pow2(n - 1)) % 2;
      Pow2Of32();
      Pow2Monotone(n, 32);
      Pow2Monotone(n - 1, 31);
      ShiftedMask(n);
      SignBit(value, n);
      var extended := if sign == 1 then value + ShiftLeft32(0xffff_ffff, n) else value;
      Ok(Int32(extended), next)
  }

  // ---------------------------------------------------------------------
  // Fixed-point numbers

  /** ReadFixed (reader.go:171-187): a 16.16 number stored as the fraction
      word, then the integer word. Running out before the integer word is
      UnexpectedEOF. */
  function ReadFixed(c: Cursor): (r: Result<real>)
    ensures r.next.data == c.data
    ensures r.Ok? <==> Align(c).pos + 4 <= |c.data|
    ensures r.Ok? ==> r.next == CursorState(c.data, Align(c).pos + 4, 0)
    ensures r.Ok? ==> r.value * 65536.0 == Word32(c.data, Align(c).pos) as real && 0.0 <= r.value < 65536.0
    ensures r.Err? ==> r.next == Exhausted(c)
    ensures r.Err? ==> r.error == (if Align(c).pos < |c.data| then UnexpectedEOF else EOF)
  {
    match ReadUInt16(c)
    case Err(e, next) => Err(e, next)
    case Ok(after, c1) =>
      match ReadUInt16(c1)
      case Err(e, next) => Err(if e == EOF then UnexpectedEOF else e, next)
      case Ok(before, c2) => Ok(before as real + after as real / 65536.0, c2)
  }

  /** The value of an 8.8 number as ReadFixed8 (reader.go:202-205) computes
      it: the fraction moves away from zero together with a negative integer
      part (sign and magnitude), and is added to a zero or positive one. */
  function Fixed8Value(fraction: uint8, integer: int8): real
  {
    if integer < 0 then integer as real - fraction as real / 256.0
    else integer as real + fraction as real / 256.0
  }

  /** An 8.8 number is sign and magnitude: the sign is the integer byte's,
      and the magnitude is the integer's magnitude plus the fraction. */
  lemma Fixed8SignMagnitude(fraction: uint8, integer: int8)
    ensures Fixed8Value(fraction, integer) < 0.0 <==> integer < 0
    ensures var v := Fixed8Value(fraction, integer);
      (if v < 0.0 then -v else v) == (if integer < 0 then -(integer as int) else integer as int) as real + fraction as real / 256.0
  {
  }

  /** ReadFixed8 (reader.go:191-206): the fraction byte, then the signed
      integer byte. Running out before the integer byte is UnexpectedEOF.
      Any other error of the integer read would be dropped and the fraction
      alone returned; reads of a byte string fail only at its end. */
  function ReadFixed8(c: Cursor): (r: Result<real>)
    ensures r.next.data == c.data
    ensures r.Ok? <==> Align(c).pos + 2 <= |c.data|
    ensures r.Ok? ==> r.next == CursorState(c.data, Align(c).pos + 2, 0)
    ensures r.Ok? ==> r.value == Fixed8Value(c.data[Align(c).pos], SignedByte(c.data[Align(c).pos + 1]))
    ensures r.Err? ==> r.next == Exhausted(c)
    ensures r.Err? ==> r.error == (if Align(c).pos < |c.data| then UnexpectedEOF else EOF)
  {
    match ReadUInt8(c)
    case Err(e, next) => Err(e, next)
    case Ok(after, c1) =>
      match ReadInt8(c1)
      case Err(e, next) => Err(UnexpectedEOF, next)
      case Ok(before, c2) => Ok(Fixed8Value(after, before), c2)
  }

  // ---------------------------------------------------------------------
  // Strings

  /** The loop of ReadString (reader.go:208-225) with the bytes `acc`
      collected so far. */
  function ReadStringLoop(c: Cursor, acc: seq<uint8>): (r: Result<seq<uint8>>)
    ensures r.next.data == c.data
    ensures r.Ok? ==> Align(c).pos < r.next.pos <= |c.data| && r.next.bit == 0
    ensures r.Err? ==> r.next == Exhausted(c)
    ensures r.Err? ==> r.error == (if |acc| == 0 && Align(c).pos >= |c.data| then EOF else UnexpectedEOF)
    decreases Remaining(c)
  {
    match ReadUInt8(c)
    case Err(e, next) => Err(if e == EOF && |acc| > 0 then UnexpectedEOF else e, next)
    case Ok(b, next) =>
      if b == 0 then Ok(acc, next)
      else ReadStringLoop(next, acc + [b])
  }

  /** The loop starts by aligning, so it reads the same from the aligned
      cursor. */
  lemma ReadStringLoopAligned(c: Cursor, acc: seq<uint8>)
    ensures ReadStringLoop(c, acc) == ReadStringLoop(Align(c), acc)
  {
    assert ReadUInt8(c) == ReadUInt8(Align(c));
  }

  /** The loop succeeds exactly when a zero byte lies ahead; it then stops
      just after the first one and returns the accumulator followed by the
      bytes before it. */
  lemma {:induction false} ReadStringLoopEnd(c: Cursor, acc: seq<uint8>)
    requires c.bit == 0
    ensures var r, e := ReadStringLoop(c, acc), ZeroFrom(c.data, c.pos);
      && (r.Ok? <==> e < |c.data|)
      && (r.Ok? ==> c.pos <= e && r.next.pos == e + 1 && r.value == acc + c.data[c.pos..e])
    decreases Remaining(c), 1
  {
    if c.pos < |c.data| {
      var b, next := c.data[c.pos], CursorState(c.data, c.pos + 1, 0);
      if b == 0 {
        ReadStringLoopLast(c, acc, next);
        assert c.data[c.pos..c.pos] == [];
      } else {
        ReadStringLoopNext(c, acc, next, acc + [b]);
      }
    }
  }

  /** The terminating zero byte. */
  lemma ReadStringLoopLast(c: Cursor, acc: seq<uint8>, next: Cursor)
    requires c.bit == 0 && c.pos < |c.data| && c.data[c.pos] == 0
    requires next == CursorState(c.data, c.pos + 1, 0)
    ensures ReadStringLoop(c, acc) == Ok(acc, next)
  {
    assert ReadUInt8(c) == Ok(0, next);
  }

  /** A nonzero byte is appended and the loop goes on from the next byte. */
  lemma ReadStringLoopStep(c: Cursor, acc: seq<uint8>, next: Cursor, acc': seq<uint8>)
    requires c.bit == 0 && c.pos < |c.data| && c.data[c.pos] != 0
    requires next == CursorState(c.data, c.pos + 1, 0) && acc' == acc + [c.data[c.pos]]
    ensures ReadStringLoop(c, acc) == ReadStringLoop(next, acc')
  {
    assert ReadUInt8(c) == Ok(c.data[c.pos], next);
  }

  lemma {:induction false} ReadStringLoopNext(c: Cursor, acc: seq<uint8>, next: Cursor, acc': seq<uint8>)
    requires c.bit == 0 && c.pos < |c.data| && c.data[c.pos] != 0
    requires next == CursorState(c.data, c.pos + 1, 0) && acc' == acc + [c.data[c.pos]]
    ensures var r, e := ReadStringLoop(c, acc), ZeroFrom(c.data, c.pos);
      && (r.Ok? <==> e < |c.data|)
      && (r.Ok? ==> c.pos <= e && r.next.pos == e + 1 && r.value == acc + c.data[c.pos..e])
    decreases Remaining(c), 0
  {
    ReadStringLoopStep(c, acc, next, acc');
    ReadStringLoopEnd(next, acc');
    var e := ZeroFrom(c.data, c.pos);
    if e < |c.data| {
      AppendFirst(c.data, c.pos, e, acc, acc');
    }
  }

  lemma AppendFirst(d: seq<uint8>, p: nat, e: nat, acc: seq<uint8>, acc': seq<uint8>)
    requires p < e <= |d| && acc' == acc + [d[p]]
    ensures acc' + d[p + 1..e] == acc + d[p..e]
  {
    assert d[p..e] == [d[p]] + d[p + 1..e];
  }

  /** ReadString (reader.go:208-225): the bytes before the next zero byte;
      the zero byte is consumed too. */
  function ReadString(c: Cursor): (r: Result<seq<uint8>>)
    ensures r.next.data == c.data
    ensures r.Ok? ==> Align(c).pos < r.next.pos <= |c.data| && r.next.bit == 0
    ensures r.Err? ==> r.next == Exhausted(c)
    ensures r.Err? ==> r.error == (if Align(c).pos >= |c.data| then EOF else UnexpectedEOF)
  {
    ReadStringLoop(c, [])
  }

  /** ReadString fails exactly when no zero byte lies ahead; otherwise it
      returns the bytes before the first one, which are all nonzero, and
      stops just after it. */
  lemma ReadStringReads(c: Cursor)
    ensures var r := ReadString(c); var p := Align(c).pos;
      r.Err? <==> forall i | p <= i < |c.data| :: c.data[i] != 0
    ensures var r := ReadString(c); var p := Align(c).pos;
      r.Ok? ==> && r.next == CursorState(c.data, p + |r.value| + 1, 0)
                && p + |r.value| < |c.data| && c.data[p + |r.value|] == 0
                && r.value == c.data[p..p + |r.value|]
                && (forall i | 0 <= i < |r.value| :: r.value[i] != 0)
  {
    var d, p := c.data, Align(c).pos;
    ReadStringLoopAligned(c, []);
    ReadStringLoopEnd(Align(c), []);
    ZeroFromNone(d, p);
    var r := ReadString(c);
    if r.Ok? {
      forall i | 0 <= i < |r.value|
        ensures r.value[i] != 0
      {
        ZeroFromFirst(d, p, p + i);
      }
    }
  }

  /** The index of the first zero byte of `d` at or after `i`, or |d| when
      there is none: where a zero-terminated string starting at `i` ends. */
  function ZeroFrom(d: seq<uint8>, i: nat): (e: nat)
    ensures i <= e || e == |d|
    ensures e <= |d| && (e < |d| ==> d[e] == 0)
    decreases |d| - i
  {
    if i >= |d| then |d| else if d[i] == 0 then i else ZeroFrom(d, i + 1)
  }

  /** No zero byte lies between `i` and ZeroFrom(d, i). */
  lemma {:induction false} ZeroFromFirst(d: seq<uint8>, i: nat, j: nat)
    requires i <= j < ZeroFrom(d, i)
    ensures d[j] != 0
    decreases |d| - i
  {
    if j > i {
      ZeroFromFirst(d, i + 1, j);
    }
  }

  /** Without a zero byte from `i` on, ZeroFrom is the end of `d`, and
      conversely. */
  lemma ZeroFromNone(d: seq<uint8>, i: nat)
    ensures ZeroFrom(d, i) == |d| <==> forall j | i <= j < |d| :: d[j] != 0
  {
    if ZeroFrom(d, i) == |d| {
      forall j | i <= j < |d|
        ensures d[j] != 0
      {
        ZeroFromFirst(d, i, j);
      }
    }
  }

  /** ReadString reads exactly up to ZeroFrom: it fails when no zero byte
      lies ahead, and otherwise returns the bytes before the first one. */
  lemma ReadStringZero(c: Cursor)
    ensures ReadString(c).Ok? <==> ZeroFrom(c.data, Align(c).pos) < |c.data|
    ensures ReadString(c).Ok? ==> Align(c).pos + |ReadString(c).value| == ZeroFrom(c.data, Align(c).pos)
  {
    ReadStringLoopAligned(c, []);
    ReadStringLoopEnd(Align(c), []);
  }
}
