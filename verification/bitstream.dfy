/**
 The bit order of SWF bit-packed fields: a byte string read as a stream of
 bits, most significant bit of each byte first, bytes in order. BitsValue is
 the number an n-bit field starting at a given bit index denotes; the lemmas
 relate it to byte boundaries and to an explicit bit-sequence view that the
 encoders in Encode use.
 */
module BitStream {
  import opened Ints

  type bit = b: nat | b < 2

  /** Bit `k` of `x`, counting from the least significant: `(x >> k) & 1`,
      one shift at a time. */
  function BitOf(x: nat, k: nat): (b: bit)
  {
    if k == 0 then x % 2 else BitOf(x / 2, k - 1)
  }

  /** The shifts add up to one division by 2^k. */
  lemma {:induction false} BitOfDiv(x: nat, k: nat)
    ensures BitOf(x, k) == (x / Pow2(k)) % 2
  {
    if k > 0 {
      BitOfDiv(x / 2, k - 1);
      DivDiv(x, 2, Pow2(k - 1));
    }
  }

  /** Bit `i` of the stream: bit `7 - i % 8` (counting from the least
      significant) of byte `i / 8`. */
  function BitAt(d: seq<uint8>, i: nat): (b: bit)
    requires i < 8 * |d|
  {
    BitOf(d[i / 8], 7 - i % 8)
  }

  /** Bit `k` of byte `q`, counting from the most significant. */
  lemma BitAtByte(d: seq<uint8>, q: nat, k: nat)
    requires q < |d| && k < 8
    ensures BitAt(d, 8 * q + k) == (d[q] / Pow2(7 - k)) % 2
  {
    assert (8 * q + k) / 8 == q && (8 * q + k) % 8 == k;
    BitOfDiv(d[q], 7 - k);
  }

  /** The `n` bits starting at bit index `start`, first bit most significant. */
  function BitsValue(d: seq<uint8>, start: nat, n: nat): nat
    requires start + n <= 8 * |d|
  {
    if n == 0 then 0 else 2 * BitsValue(d, start, n - 1) + BitAt(d, start + n - 1)
  }

  /** An `n`-bit field is below 2^n. */
  lemma {:induction false} BitsValueBound(d: seq<uint8>, start: nat, n: nat)
    requires start + n <= 8 * |d|
    ensures BitsValue(d, start, n) < Pow2(n)
  {
    if n > 0 {
      BitsValueBound(d, start, n - 1);
    }
  }

  /** A field may be read in two consecutive pieces: the first piece supplies
      the high bits. This is what lets one field span a byte boundary. */
  lemma {:induction false} BitsValueSplit(d: seq<uint8>, start: nat, m: nat, n: nat)
    requires start + m + n <= 8 * |d|
    ensures BitsValue(d, start, m + n) == BitsValue(d, start, m) * Pow2(n) + BitsValue(d, start + m, n)
  {
    if n > 0 {
      BitsValueSplit(d, start, m, n - 1);
      SplitStep(BitsValue(d, start, m), Pow2(n - 1), BitsValue(d, start + m, n - 1),
                BitAt(d, start + m + n - 1), BitsValue(d, start, m + n - 1),
                BitsValue(d, start, m + n), BitsValue(d, start + m, n), Pow2(n));
    }
  }

  lemma SplitStep(a: nat, p: nat, b: nat, x: nat, v: nat, whole: nat, right: nat, pn: nat)
    requires v == a * p + b && whole == 2 * v + x && right == 2 * b + x && pn == 2 * p
    ensures whole == a * pn + right
  {
    MulAssoc2(a, p);
  }

  lemma MulAssoc2(a: nat, p: nat)
    ensures a * (2 * p) == 2 * (a * p)
  {
  }

  /** A field that lies inside one byte is that byte shifted right and masked. */
  lemma {:induction false} BitsValueInByte(d: seq<uint8>, p: nat, k: nat, j: nat)
    requires p < |d| && k + j <= 8
    ensures BitsValue(d, 8 * p + k, j) == (d[p] / Pow2(8 - k - j)) % Pow2(j)
  {
    if j > 0 {
      var s := 8 * p + k;
      BitsValueInByte(d, p, k, j - 1);
      BitAtByte(d, p, k + j - 1);
      InByteStep(d[p], 8 - k - j, j, BitsValue(d, s, j - 1), BitAt(d, s + j - 1), BitsValue(d, s, j));
    }
  }

  /** One more bit of a field inside a byte: the arithmetic of BitsValueInByte. */
  lemma InByteStep(x: nat, e: nat, j: nat, prev: nat, b: nat, whole: nat)
    requires j >= 1 && prev == (x / Pow2(e + 1)) % Pow2(j - 1) && b == (x / Pow2(e)) % 2
    requires whole == 2 * prev + b
    ensures whole == (x / Pow2(e)) % Pow2(j)
  {
    var pe := Pow2(e);
    var y := x / pe;
    assert Pow2(e + 1) == pe * 2;
    DivDiv(x, pe, 2);
    var m := Pow2(j - 1);
    assert Pow2(j) == 2 * m;
    ModDouble(y, m);
  }

  /** Eight aligned bits are exactly one byte. */
  lemma ByteBits(d: seq<uint8>, p: nat)
    requires p < |d|
    ensures BitsValue(d, 8 * p, 8) == d[p]
  {
    BitsValueInByte(d, p, 0, 8);
    assert Pow2(0) == 1;
    Pow2Of8();
    WholeByte(d[p], BitsValue(d, 8 * p, 8), Pow2(0), Pow2(8));
  }

  lemma WholeByte(x: uint8, v: nat, a: nat, b: nat)
    requires a == 1 && b == 0x100 && v == (x / a) % b
    ensures v == x
  {
    DivModUnique(x, 1, x, 0);
    DivModUnique(x, 0x100, 0, x);
  }

  /** A field read from a longer byte string depends only on the bytes it covers. */
  lemma {:induction false} BitsValuePrefix(d: seq<uint8>, e: seq<uint8>, start: nat, n: nat)
    requires start + n <= 8 * |d|
    ensures BitsValue(d + e, start, n) == BitsValue(d, start, n)
  {
    if n > 0 {
      BitsValuePrefix(d, e, start, n - 1);
      assert (d + e)[(start + n - 1) / 8] == d[(start + n - 1) / 8];
    }
  }

  // ---------------------------------------------------------------------
  // An explicit bit-sequence view, used to build bit-packed records.

  /** The low `n` bits of `v`, most significant first. */
  function ToBits(v: nat, n: nat): (bs: seq<bit>)
    ensures |bs| == n
  {
    if n == 0 then [] else ToBits(v / 2, n - 1) + [v % 2]
  }

  /** The number a bit sequence denotes, first bit most significant. */
  function FromBits(bs: seq<bit>): (v: nat)
    ensures v < Pow2(|bs|)
  {
    if |bs| == 0 then 0 else 2 * FromBits(bs[..|bs| - 1]) + bs[|bs| - 1]
  }

  /** Bit `k` of a bit sequence can be recovered from the number it denotes. */
  lemma {:induction false} FromBitsBit(bs: seq<bit>, k: nat)
    requires k < |bs|
    ensures (FromBits(bs) / Pow2(|bs| - 1 - k)) % 2 == bs[k]
  {
    var init := bs[..|bs| - 1];
    if k < |bs| - 1 {
      FromBitsBit(init, k);
      var p := Pow2(|bs| - 2 - k);
      DivDiv(FromBits(bs), 2, p);
      assert FromBits(bs) / 2 == FromBits(init);
    }
  }

  /** Packs a bit sequence whose length is a multiple of eight into bytes. */
  function Pack(bs: seq<bit>): (d: seq<uint8>)
    requires |bs| % 8 == 0
    ensures |d| * 8 == |bs|
  {
    if |bs| == 0 then []
    else
      assert Pow2(8) == 0x100;
      [FromBits(bs[..8])] + Pack(bs[8..])
  }

  /** Byte `j` of a packed record holds bits `8 * j` to `8 * j + 7`. */
  lemma {:induction false} PackByte(bs: seq<bit>, j: nat)
    requires |bs| % 8 == 0 && j < |bs| / 8
    ensures Pack(bs)[j] == FromBits(bs[8 * j..8 * j + 8])
  {
    if j > 0 {
      PackByte(bs[8..], j - 1);
      assert bs[8..][8 * (j - 1)..8 * (j - 1) + 8] == bs[8 * j..8 * j + 8];
    }
  }

  /** Bits read back out of a packed record, wherever it sits in a stream,
      are the bits that were packed: bit `i` of the record is bit `idx` of
      the stream `d`. */
  lemma PackBitAt(d: seq<uint8>, pre: seq<uint8>, bs: seq<bit>, post: seq<uint8>, i: nat, idx: nat)
    requires |bs| % 8 == 0 && i < |bs|
    requires d == pre + Pack(bs) + post && idx == 8 * |pre| + i
    ensures idx < 8 * |d| && BitAt(d, idx) == bs[i]
  {
    var j, k := i / 8, i % 8;
    assert d[|pre| + j] == Pack(bs)[j];
    PackBitInByte(d, |pre|, bs, j, k, idx);
  }

  /** Bit `k` of byte `j` of a packed record that starts at byte `q0` of `d`. */
  lemma PackBitInByte(d: seq<uint8>, q0: nat, bs: seq<bit>, j: nat, k: nat, idx: nat)
    requires |bs| % 8 == 0 && 8 * j + 8 <= |bs| && k < 8
    requires q0 + j < |d| && d[q0 + j] == Pack(bs)[j] && idx == 8 * (q0 + j) + k
    ensures BitAt(d, idx) == bs[8 * j + k]
  {
    var g, q := bs[8 * j..8 * j + 8], q0 + j;
    PackByte(bs, j);
    GroupBit(g, k);
    BitAtByte(d, q, k);
    assert g[k] == bs[8 * j + k];
  }

  lemma GroupBit(group: seq<bit>, k: nat)
    requires |group| == 8 && k < 8
    ensures (FromBits(group) / Pow2(7 - k)) % 2 == group[k]
  {
    FromBitsBit(group, k);
  }

  /** The `n` bits of a bit sequence from index `i` on, read as a number,
      first bit most significant: the bit-sequence counterpart of BitsValue. */
  function FieldOf(bs: seq<bit>, i: nat, n: nat): nat
    requires i + n <= |bs|
  {
    if n == 0 then 0 else 2 * FieldOf(bs, i, n - 1) + bs[i + n - 1]
  }

  /** The bits `bs` lie in the stream `d` from bit index `base` on. */
  predicate BitsAt(d: seq<uint8>, base: nat, bs: seq<bit>)
  {
    base + |bs| <= 8 * |d| && forall k | base <= k < base + |bs| :: BitAt(d, k) == bs[k - base]
  }

  /** A field of the stream inside bits that lie in it denotes the same
      number as the bits. */
  lemma {:induction false} BitsValueOfField(d: seq<uint8>, base: nat, bs: seq<bit>, start: nat, n: nat, at: nat)
    requires BitsAt(d, base, bs) && start + n <= |bs| && at == base + start
    ensures at + n <= 8 * |d| && BitsValue(d, at, n) == FieldOf(bs, start, n)
  {
    if n > 0 {
      BitsValueOfField(d, base, bs, start, n - 1, at);
      assert BitAt(d, at + n - 1) == bs[start + n - 1];
    }
  }

  /** A packed record, wherever it sits in a stream, puts its bits there. */
  lemma PackBits(d: seq<uint8>, pre: seq<uint8>, bs: seq<bit>, post: seq<uint8>, base: nat)
    requires |bs| % 8 == 0 && d == pre + Pack(bs) + post && base == 8 * |pre|
    ensures BitsAt(d, base, bs)
  {
    forall k | base <= k < base + |bs|
      ensures BitAt(d, k) == bs[k - base]
    {
      PackBitAt(d, pre, bs, post, k - base, k);
    }
  }
}
