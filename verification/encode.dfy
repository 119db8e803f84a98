/**
 Reference encoders for the formats the decoder reads, each paired with a
 lemma that decoding its output gives the value back and stops right after
 it, wherever the encoding sits in the input. They are the independent
 definitions the decoder is checked against; the Go repository itself has
 no encoder.
 */
module Encode {
  import opened Ints
  import opened BitStream
  import opened Errors
  import opened BitReader
  import opened Reader
  import opened Types
  import opened Parser

  // ---------------------------------------------------------------------
  // Fixed-width integers

  /** A 16-bit value, low byte first. */
  function EncodeUInt16(v: uint16): (bs: seq<uint8>)
  {
    [v % 0x100, v / 0x100]
  }

  /** A 32-bit value, least significant byte first. */
  function EncodeUInt32(v: uint32): (bs: seq<uint8>)
  {
    [v % 0x100, (v / 0x100) % 0x100, (v / 0x1_0000) % 0x100, v / 0x100_0000]
  }

  lemma Word16Encoded(d: seq<uint8>, p: nat, v: uint16)
    requires p + 2 <= |d| && d[p..p + 2] == EncodeUInt16(v)
    ensures Word16(d, p) == v
  {
    assert d[p] == v % 0x100 && d[p + 1] == v / 0x100 by {
      assert d[p] == d[p..p + 2][0] && d[p + 1] == d[p..p + 2][1];
    }
  }

  lemma Word32Encoded(d: seq<uint8>, p: nat, v: uint32)
    requires p + 4 <= |d| && d[p..p + 4] == EncodeUInt32(v)
    ensures Word32(d, p) == v
  {
    var e := d[p..p + 4];
    assert d[p] == e[0] && d[p + 1] == e[1] && d[p + 2] == e[2] && d[p + 3] == e[3];
    var a := v / 0x100;
    var b := a / 0x100;
    assert v / 0x1_0000 == b by {
      DivDiv(v, 0x100, 0x100);
    }
    assert v / 0x100_0000 == b / 0x100 by {
      DivDiv(v, 0x1_0000, 0x100);
    }
  }

  /** ReadUInt16 gives back an encoded 16-bit value and consumes its two bytes. */
  lemma ReadUInt16Encoded(d: seq<uint8>, p: nat, v: uint16)
    requires p + 2 <= |d| && d[p..p + 2] == EncodeUInt16(v)
    ensures ReadUInt16(CursorState(d, p, 0)) == Ok(v, CursorState(d, p + 2, 0))
  {
    Word16Encoded(d, p, v);
  }

  /** ReadUInt32 gives back an encoded 32-bit value and consumes its four bytes. */
  lemma ReadUInt32Encoded(d: seq<uint8>, p: nat, v: uint32)
    requires p + 4 <= |d| && d[p..p + 4] == EncodeUInt32(v)
    ensures ReadUInt32(CursorState(d, p, 0)) == Ok(v, CursorState(d, p + 4, 0))
  {
    Word32Encoded(d, p, v);
  }

  /** Bytes `e` found at byte `p` of `d` also hold each of their pieces. */
  lemma SliceIn(d: seq<uint8>, p: nat, e: seq<uint8>, i: nat, j: nat)
    requires p + |e| <= |d| && d[p..p + |e|] == e && i <= j <= |e|
    ensures d[p + i..p + j] == e[i..j]
  {
    forall k | 0 <= k < j - i
      ensures d[p + i..p + j][k] == e[i..j][k]
    {
      assert d[p + i + k] == d[p..p + |e|][i + k];
    }
  }

  /** The bytes `e` lie in `d` from byte `p` on. Stated byte by byte, so
      that a proof about a long stream unfolds it only as far as it reads. */
  predicate BytesAt(d: seq<uint8>, p: nat, e: seq<uint8>)
    decreases |e|
  {
    p + |e| <= |d| && (|e| > 0 ==> d[p] == e[0] && BytesAt(d, p + 1, e[1..]))
  }

  /** Byte `k` of bytes that lie in `d`. */
  lemma {:induction false} BytesAtIndex(d: seq<uint8>, p: nat, e: seq<uint8>, k: nat)
    requires BytesAt(d, p, e) && k < |e|
    ensures d[p + k] == e[k]
    decreases k
  {
    if k > 0 {
      BytesAtIndex(d, p + 1, e[1..], k - 1);
    }
  }

  /** Bytes that agree with `d` one by one lie in it. */
  lemma {:induction false} BytesAtOf(d: seq<uint8>, p: nat, e: seq<uint8>)
    requires p + |e| <= |d| && forall k | 0 <= k < |e| :: d[p + k] == e[k]
    ensures BytesAt(d, p, e)
    decreases |e|
  {
    if |e| > 0 {
      assert d[p] == e[0];
      forall k | 0 <= k < |e| - 1
        ensures d[p + 1 + k] == e[1..][k]
      {
        assert d[p + (k + 1)] == e[k + 1];
      }
      BytesAtOf(d, p + 1, e[1..]);
    }
  }

  /** Bytes that lie in `d` are the slice of `d` they cover. */
  lemma BytesAtSlice(d: seq<uint8>, p: nat, e: seq<uint8>)
    requires BytesAt(d, p, e)
    ensures d[p..p + |e|] == e
  {
    forall k | 0 <= k < |e|
      ensures d[p..p + |e|][k] == e[k]
    {
      BytesAtIndex(d, p, e, k);
    }
  }

  /** The input around bytes that lie in it: what comes before, the bytes,
      and what comes after. */
  lemma BytesAtParts(d: seq<uint8>, p: nat, e: seq<uint8>)
    requires BytesAt(d, p, e)
    ensures d == d[..p] + e + d[p + |e|..]
  {
    BytesAtSlice(d, p, e);
    assert d == d[..p] + d[p..p + |e|] + d[p + |e|..];
  }

  /** Two pieces of bytes that lie in `d` lie there one after the other. */
  lemma BytesAtSplit(d: seq<uint8>, p: nat, e: seq<uint8>, e0: seq<uint8>, e1: seq<uint8>)
    requires BytesAt(d, p, e) && e == e0 + e1
    ensures BytesAt(d, p, e0) && BytesAt(d, p + |e0|, e1)
  {
    forall k | 0 <= k < |e0|
      ensures d[p + k] == e0[k]
    {
      BytesAtIndex(d, p, e, k);
    }
    BytesAtOf(d, p, e0);
    forall k | 0 <= k < |e1|
      ensures d[p + |e0| + k] == e1[k]
    {
      BytesAtIndex(d, p, e, |e0| + k);
    }
    BytesAtOf(d, p + |e0|, e1);
  }

  /** Bytes placed between a prefix and a suffix lie right after the prefix. */
  lemma BytesAtMiddle(d: seq<uint8>, a: seq<uint8>, e: seq<uint8>, b: seq<uint8>)
    requires d == a + e + b
    ensures BytesAt(d, |a|, e)
  {
    forall k | 0 <= k < |e|
      ensures d[|a| + k] == e[k]
    {
    }
    BytesAtOf(d, |a|, e);
  }

  // ---------------------------------------------------------------------
  // EncodedU32

  /** The EncodedU32 bytes of `v` when at most `k` bytes may be used: seven
      bits per byte, low group first, the high bit set on every byte but the
      last. */
  function EncodeGroups(v: nat, k: nat): (bs: seq<uint8>)
    requires k >= 1
    ensures 1 <= |bs| <= k
    decreases k
  {
    if v < 0x80 || k == 1 then [v % 0x80]
    else [v % 0x80 + 0x80] + EncodeGroups(v / 0x80, k - 1)
  }

  /** The EncodedU32 encoding of a value below 2^28, the largest the four
      bytes ReadEUInt32 reads can hold. */
  function EncodeEUInt32(v: nat): (bs: seq<uint8>)
    requires v < Pow2(28)
    ensures 1 <= |bs| <= 4
  {
    EncodeGroups(v, 4)
  }

  /** The groups denote the value they encode. */
  lemma {:induction false} EncodeGroupsValue(v: nat, k: nat)
    requires k >= 1 && v < Pow2(7 * k)
    ensures EncodedValue(EncodeGroups(v, k)) == v
    decreases k
  {
    var bs := EncodeGroups(v, k);
    if v < 0x80 || k == 1 {
      if k == 1 {
        assert Pow2(7) == 0x80 by {
          Pow2Table();
        }
      }
      EncodedSingle(v % 0x80);
    } else {
      Pow2Add(7, 7 * (k - 1));
      assert Pow2(7) == 0x80 by {
        Pow2Table();
      }
      EncodeGroupsValue(v / 0x80, k - 1);
      assert bs[1..] == EncodeGroups(v / 0x80, k - 1);
    }
  }

  /** The loop of ReadEUInt32 stops right after the encoded bytes. */
  lemma {:induction false} EncodeGroupsEnd(d: seq<uint8>, p: nat, v: nat, k: nat)
    requires 1 <= k <= 4
    requires p + |EncodeGroups(v, k)| <= |d| && d[p..p + |EncodeGroups(v, k)|] == EncodeGroups(v, k)
    ensures EncodedEnd(d, p, 4 - k) == Some(p + |EncodeGroups(v, k)|)
    decreases k
  {
    var bs := EncodeGroups(v, k);
    assert d[p] == bs[0];
    if !(v < 0x80 || k == 1) {
      var rest := EncodeGroups(v / 0x80, k - 1);
      assert d[p + 1..p + 1 + |rest|] == rest by {
        assert bs[1..] == rest;
        assert d[p + 1..p + 1 + |rest|] == d[p..p + |bs|][1..];
      }
      EncodeGroupsEnd(d, p + 1, v / 0x80, k - 1);
    }
  }

  /** ReadEUInt32 stops where the encoded bytes end and yields the value
      they denote. */
  lemma ReadEUInt32Decodes(d: seq<uint8>, p: nat, q: nat, v: nat)
    requires p <= q <= |d| && EncodedEnd(d, p, 0) == Some(q) && EncodedValue(d[p..q]) == v
    ensures ReadEUInt32(CursorState(d, p, 0)) == Ok(v, CursorState(d, q, 0))
  {
    ReadEUInt32Value(CursorState(d, p, 0));
  }

  /** The four-group encoding of a value, found in the input, ends the loop
      of ReadEUInt32 right after its last byte. */
  lemma EncodedAtEnd(d: seq<uint8>, p: nat, v: nat, bs: seq<uint8>)
    requires bs == EncodeGroups(v, 4) && p + |bs| <= |d| && d[p..p + |bs|] == bs
    ensures EncodedEnd(d, p, 0) == Some(p + |bs|)
  {
    EncodeGroupsEnd(d, p, v, 4);
  }

  /** The four-group encoding of a value, found in the input, denotes it. */
  lemma EncodedAtValue(d: seq<uint8>, p: nat, v: nat, bs: seq<uint8>)
    requires v < Pow2(28) && bs == EncodeGroups(v, 4) && p + |bs| <= |d| && d[p..p + |bs|] == bs
    ensures EncodedValue(d[p..p + |bs|]) == v
  {
    EncodeGroupsValue(v, 4);
  }

  /** ReadEUInt32 gives back an encoded value and consumes its bytes. */
  lemma ReadEUInt32Encoded(d: seq<uint8>, p: nat, v: nat, bs: seq<uint8>)
    requires v < Pow2(28) && bs == EncodeEUInt32(v)
    requires p + |bs| <= |d| && d[p..p + |bs|] == bs
    ensures ReadEUInt32(CursorState(d, p, 0)) == Ok(v, CursorState(d, p + |bs|, 0))
  {
    EncodedAtEnd(d, p, v, bs);
    EncodedAtValue(d, p, v, bs);
    ReadEUInt32Decodes(d, p, p + |bs|, v);
  }

  // ---------------------------------------------------------------------
  // Strings

  /** A string without zero bytes, and its zero-terminated encoding. */
  predicate NoZero(s: seq<uint8>)
  {
    forall i | 0 <= i < |s| :: s[i] != 0
  }

  function EncodeString(s: seq<uint8>): (bs: seq<uint8>)
    requires NoZero(s)
    ensures |bs| == |s| + 1
  {
    s + [0]
  }

  /** The first zero byte from `p` on is the one at `q` when none lies
      between. */
  lemma {:induction false} ZeroFromAt(d: seq<uint8>, p: nat, q: nat)
    requires p <= q < |d| && d[q] == 0
    requires forall j | p <= j < q :: d[j] != 0
    ensures ZeroFrom(d, p) == q
    decreases q - p
  {
    if p < q {
      ZeroFromAt(d, p + 1, q);
    }
  }

  /** ReadString gives back an encoded string and consumes its terminator. */
  lemma ReadStringEncoded(d: seq<uint8>, p: nat, s: seq<uint8>)
    requires NoZero(s)
    requires p + |s| + 1 <= |d| && d[p..p + |s| + 1] == EncodeString(s)
    ensures ReadString(CursorState(d, p, 0)) == Ok(s, CursorState(d, p + |s| + 1, 0))
  {
    var e := d[p..p + |s| + 1];
    assert d[p + |s|] == e[|s|];
    forall j | p <= j < p + |s|
      ensures d[j] != 0
    {
      assert d[j] == e[j - p] == s[j - p];
    }
    ZeroFromAt(d, p, p + |s|);
    var c: Cursor := CursorState(d, p, 0);
    ReadStringZero(c);
    ReadStringReads(c);
    assert e[..|s|] == s;
    assert d[p..p + |s|] == e[..|s|];
  }

  // ---------------------------------------------------------------------
  // RECT records

  /** `x` is representable as an `n`-bit two's-complement field. */
  predicate FitsSigned(x: int, n: nat)
  {
    1 <= n && -(Pow2(n - 1) as int) <= x < Pow2(n - 1)
  }

  /** A RECT record that can be written: a width of 1 to 31 bits (the
      width field has five bits, and ParseRect refuses 0) that holds all
      four coordinates. */
  predicate ValidRect(r: Rect)
  {
    var n := r.nBits as nat;
    1 <= n < 32 && FitsSigned(r.xMin, n) && FitsSigned(r.xMax, n) && FitsSigned(r.yMin, n) && FitsSigned(r.yMax, n)
  }

  /** The bits of a signed coordinate in an `n`-bit field. */
  function SignedBits(x: int, n: nat): (bs: seq<bit>)
    requires FitsSigned(x, n)
    ensures |bs| == n
  {
    ToBits(FromSigned(x, n), n)
  }

  /** The bits of a RECT record: the width, then Xmin, Xmax, Ymin, Ymax. */
  function RectBits(r: Rect): (bs: seq<bit>)
    requires ValidRect(r)
    ensures |bs| == 5 + 4 * r.nBits
  {
    var n := r.nBits as nat;
    ToBits(n, 5) + ((SignedBits(r.xMin, n) + SignedBits(r.xMax, n)) + (SignedBits(r.yMin, n) + SignedBits(r.yMax, n)))
  }

  /** Zero bits up to the next byte boundary. */
  function Padded(bs: seq<bit>): (p: seq<bit>)
    ensures |p| % 8 == 0 && |bs| <= |p| < |bs| + 8
  {
    PadLength(|bs|, (8 - |bs| % 8) % 8);
    bs + seq((8 - |bs| % 8) % 8, _ => 0)
  }

  /** Padding `k` bits with `z` zero bits reaches the next byte boundary. */
  lemma PadLength(k: nat, z: nat)
    requires z == (8 - k % 8) % 8
    ensures (k + z) % 8 == 0 && z < 8
  {
  }

  /** A RECT record as bytes, its last byte padded with zero bits. */
  function EncodeRect(r: Rect): (bs: seq<uint8>)
    requires ValidRect(r)
  {
    Pack(Padded(RectBits(r)))
  }

  /** A field of `y` is the same field, shifted by |x|, of `x + y`. */
  lemma {:induction false} FieldOfSuffix(x: seq<bit>, y: seq<bit>, i: nat, j: nat, n: nat)
    requires i + n <= |y| && j == |x| + i
    ensures FieldOf(x + y, j, n) == FieldOf(y, i, n)
  {
    if n > 0 {
      FieldOfSuffix(x, y, i, j, n - 1);
      assert (x + y)[j + n - 1] == y[i + n - 1];
    }
  }

  /** A field of `x` is the same field of `x + y`. */
  lemma {:induction false} FieldOfPrefix(x: seq<bit>, y: seq<bit>, i: nat, n: nat)
    requires i + n <= |x|
    ensures FieldOf(x + y, i, n) == FieldOf(x, i, n)
  {
    if n > 0 {
      FieldOfPrefix(x, y, i, n - 1);
      assert (x + y)[i + n - 1] == x[i + n - 1];
    }
  }

  /** ToBits and FieldOf are inverse on numbers that fit. */
  lemma {:induction false} FieldOfToBits(v: nat, n: nat)
    requires v < Pow2(n)
    ensures FieldOf(ToBits(v, n), 0, n) == v
  {
    if n > 0 {
      var t := ToBits(v / 2, n - 1);
      FieldOfPrefix(t, [v % 2], 0, n - 1);
      FieldOfToBits(v / 2, n - 1);
    }
  }

  /** The first field of `a` in `w + ((a + b) + t)`. */
  lemma FieldFirst(w: seq<bit>, a: seq<bit>, b: seq<bit>, t: seq<bit>, n: nat)
    requires n <= |a|
    ensures FieldOf(w + ((a + b) + t), |w|, n) == FieldOf(a, 0, n)
  {
    FieldOfSuffix(w, (a + b) + t, 0, |w|, n);
    FieldOfPrefix(a + b, t, 0, n);
    FieldOfPrefix(a, b, 0, n);
  }

  /** The first field of `b` in `w + ((a + b) + t)`. */
  lemma FieldSecond(w: seq<bit>, a: seq<bit>, b: seq<bit>, t: seq<bit>, n: nat)
    requires n <= |b|
    ensures FieldOf(w + ((a + b) + t), |w| + |a|, n) == FieldOf(b, 0, n)
  {
    FieldOfSuffix(w, (a + b) + t, |a|, |w| + |a|, n);
    FieldOfPrefix(a + b, t, |a|, n);
    FieldOfSuffix(a, b, 0, |a|, n);
  }

  /** The first field of `c` in `w + (h + (c + e))`. */
  lemma FieldThird(w: seq<bit>, h: seq<bit>, c: seq<bit>, e: seq<bit>, n: nat)
    requires n <= |c|
    ensures FieldOf(w + (h + (c + e)), |w| + |h|, n) == FieldOf(c, 0, n)
  {
    FieldOfSuffix(w, h + (c + e), |h|, |w| + |h|, n);
    FieldOfSuffix(h, c + e, 0, |h|, n);
    FieldOfPrefix(c, e, 0, n);
  }

  /** The first field of `e` in `w + (h + (c + e))`. */
  lemma FieldFourth(w: seq<bit>, h: seq<bit>, c: seq<bit>, e: seq<bit>, n: nat)
    requires n <= |e|
    ensures FieldOf(w + (h + (c + e)), |w| + |h| + |c|, n) == FieldOf(e, 0, n)
  {
    FieldOfSuffix(w, h + (c + e), |h| + |c|, |w| + |h| + |c|, n);
    FieldOfSuffix(h, c + e, |c|, |h| + |c|, n);
    FieldOfSuffix(c, e, 0, |c|, n);
  }

  /** The bit sequence `bs` starts with the fields of RECT record `r`: the
      width, then the bit patterns of the four coordinates. */
  predicate RectFieldsIn(bs: seq<bit>, r: Rect)
  {
    var n := r.nBits as nat;
    && ValidRect(r) && 5 + 4 * n <= |bs|
    && FieldOf(bs, 0, 5) == n
    && FieldOf(bs, 5, n) == FromSigned(r.xMin, n)
    && FieldOf(bs, 5 + n, n) == FromSigned(r.xMax, n)
    && FieldOf(bs, 5 + 2 * n, n) == FromSigned(r.yMin, n)
    && FieldOf(bs, 5 + 3 * n, n) == FromSigned(r.yMax, n)
  }

  /** The width field of a RECT record's bits. */
  lemma RectBitsWidth(r: Rect)
    requires ValidRect(r)
    ensures FieldOf(RectBits(r), 0, 5) == r.nBits as nat
  {
    var n := r.nBits as nat;
    var t := (SignedBits(r.xMin, n) + SignedBits(r.xMax, n)) + (SignedBits(r.yMin, n) + SignedBits(r.yMax, n));
    FieldOfPrefix(ToBits(n, 5), t, 0, 5);
    Pow2Of5();
    FieldOfToBits(n, 5);
  }

  /** The two X coordinate fields of a RECT record's bits. */
  lemma RectBitsX(r: Rect)
    requires ValidRect(r)
    ensures var n := r.nBits as nat;
      && FieldOf(RectBits(r), 5, n) == FromSigned(r.xMin, n)
      && FieldOf(RectBits(r), 5 + n, n) == FromSigned(r.xMax, n)
  {
    var n := r.nBits as nat;
    var w, a, b, c, e := ToBits(n, 5), SignedBits(r.xMin, n), SignedBits(r.xMax, n), SignedBits(r.yMin, n), SignedBits(r.yMax, n);
    FieldFirst(w, a, b, c + e, n);
    FieldSecond(w, a, b, c + e, n);
    FieldOfToBits(FromSigned(r.xMin, n), n);
    FieldOfToBits(FromSigned(r.xMax, n), n);
  }

  /** The two Y coordinate fields of a RECT record's bits. */
  lemma RectBitsY(r: Rect)
    requires ValidRect(r)
    ensures var n := r.nBits as nat;
      && FieldOf(RectBits(r), 5 + 2 * n, n) == FromSigned(r.yMin, n)
      && FieldOf(RectBits(r), 5 + 3 * n, n) == FromSigned(r.yMax, n)
  {
    var n := r.nBits as nat;
    var w, a, b, c, e := ToBits(n, 5), SignedBits(r.xMin, n), SignedBits(r.xMax, n), SignedBits(r.yMin, n), SignedBits(r.yMax, n);
    FieldThird(w, a + b, c, e, n);
    FieldFourth(w, a + b, c, e, n);
    FieldOfToBits(FromSigned(r.yMin, n), n);
    FieldOfToBits(FromSigned(r.yMax, n), n);
  }

  /** Padding leaves every field of the record alone. */
  lemma PaddedField(bs: seq<bit>, i: nat, n: nat)
    requires i + n <= |bs|
    ensures FieldOf(Padded(bs), i, n) == FieldOf(bs, i, n)
  {
    FieldOfPrefix(bs, seq((8 - |bs| % 8) % 8, _ => 0), i, n);
  }

  /** The X coordinate fields survive padding. */
  lemma PaddedRectX(r: Rect)
    requires ValidRect(r)
    ensures var n := r.nBits as nat;
      && FieldOf(Padded(RectBits(r)), 5, n) == FromSigned(r.xMin, n)
      && FieldOf(Padded(RectBits(r)), 5 + n, n) == FromSigned(r.xMax, n)
  {
    var n := r.nBits as nat;
    RectBitsX(r);
    PaddedField(RectBits(r), 5, n);
    PaddedField(RectBits(r), 5 + n, n);
  }

  /** The Y coordinate fields survive padding. */
  lemma PaddedRectY(r: Rect)
    requires ValidRect(r)
    ensures var n := r.nBits as nat;
      && FieldOf(Padded(RectBits(r)), 5 + 2 * n, n) == FromSigned(r.yMin, n)
      && FieldOf(Padded(RectBits(r)), 5 + 3 * n, n) == FromSigned(r.yMax, n)
  {
    var n := r.nBits as nat;
    RectBitsY(r);
    PaddedField(RectBits(r), 5 + 2 * n, n);
    PaddedField(RectBits(r), 5 + 3 * n, n);
  }

  /** The padded bits of a RECT record hold the record. */
  lemma RectFieldsPadded(r: Rect)
    requires ValidRect(r)
    ensures RectFieldsIn(Padded(RectBits(r)), r)
  {
    RectBitsWidth(r);
    PaddedField(RectBits(r), 0, 5);
    PaddedRectX(r);
    PaddedRectY(r);
  }

  /** A signed field inside bits that lie in the stream reads back. */
  lemma SignedFromBits(d: seq<uint8>, base: nat, bs: seq<bit>, start: nat, n: nat, x: int, at: nat)
    requires BitsAt(d, base, bs) && start + n <= |bs| && at == base + start
    requires n <= 32 && FitsSigned(x, n) && FieldOf(bs, start, n) == FromSigned(x, n)
    ensures at + n <= 8 * |d| && SignedField(d, at, n) == x
  {
    BitsValueOfField(d, base, bs, start, n, at);
    SignedRoundTrip(x, n);
  }

  /** Four signed fields of width `n` in a row make the coordinates of `r`. */
  lemma CoordinatesOf(d: seq<uint8>, s: nat, n: nat, r: Rect, s1: nat, s2: nat, s3: nat)
    requires 1 <= n < 32 && s + 4 * n <= 8 * |d| && r.nBits == n
    requires s1 == s + n && s2 == s + 2 * n && s3 == s + 3 * n
    requires SignedField(d, s, n) == r.xMin && SignedField(d, s1, n) == r.xMax
    requires SignedField(d, s2, n) == r.yMin && SignedField(d, s3, n) == r.yMax
    ensures CoordinatesAt(d, s, n) == r
  {
  }

  /** The coordinates of a RECT record whose bits lie in the stream from
      bit `s` on read back from bit `s + 5`. */
  lemma CoordinatesFromBits(d: seq<uint8>, s: nat, bs: seq<bit>, r: Rect, n: nat, s5: nat)
    requires BitsAt(d, s, bs) && RectFieldsIn(bs, r) && n == r.nBits as nat && s5 == s + 5
    ensures s5 + 4 * n <= 8 * |d| && CoordinatesAt(d, s5, n) == r
  {
    var s1, s2, s3 := s5 + n, s5 + 2 * n, s5 + 3 * n;
    SignedFromBits(d, s, bs, 5, n, r.xMin, s5);
    SignedFromBits(d, s, bs, 5 + n, n, r.xMax, s1);
    SignedFromBits(d, s, bs, 5 + 2 * n, n, r.yMin, s2);
    SignedFromBits(d, s, bs, 5 + 3 * n, n, r.yMax, s3);
    CoordinatesOf(d, s5, n, r, s1, s2, s3);
  }

  /** A width field and the coordinates after it make the record. */
  lemma RectOf(d: seq<uint8>, s: nat, r: Rect)
    requires s + 5 + 4 * r.nBits <= 8 * |d| && 1 <= r.nBits < 32
    requires RectWidth(d, s) == r.nBits && CoordinatesAt(d, s + 5, r.nBits) == r
    ensures RectFits(d, s) && RectAt(d, s) == r
  {
  }

  /** A RECT record whose bits lie in the stream from bit `s` on reads back,
      and ends at the byte boundary after its last bit. */
  lemma RectFromBits(d: seq<uint8>, s: nat, bs: seq<bit>, r: Rect)
    requires BitsAt(d, s, bs) && RectFieldsIn(bs, r)
    ensures RectFits(d, s) && RectAt(d, s) == r && RectEnd(d, s) == (s + 5 + 4 * r.nBits + 7) / 8
  {
    BitsValueOfField(d, s, bs, 0, 5, s);
    CoordinatesFromBits(d, s, bs, r, r.nBits as nat, s + 5);
    RectOf(d, s, r);
  }

  /** The byte count of `k` bits padded to a byte boundary. */
  lemma PaddedBytes(k: nat, q: nat)
    ensures (k + (8 - k % 8) % 8) / 8 == (k + 7) / 8
    ensures (8 * q + k + 7) / 8 == q + (k + 7) / 8
  {
  }

  /** A written RECT record, wherever it sits in the input, is read back
      whole, and the next byte read starts right after it. */
  lemma RectEncoded(pre: seq<uint8>, r: Rect, post: seq<uint8>)
    requires ValidRect(r)
    ensures var d, s := pre + EncodeRect(r) + post, 8 * |pre|;
      && RectFits(d, s) && RectAt(d, s) == r
      && RectEnd(d, s) == |pre| + |EncodeRect(r)|
  {
    var bs := Padded(RectBits(r));
    RectFieldsPadded(r);
    PackBits(pre + Pack(bs) + post, pre, bs, post, 8 * |pre|);
    RectFromBits(pre + Pack(bs) + post, 8 * |pre|, bs, r);
    PaddedBytes(5 + 4 * r.nBits, |pre|);
  }
}
