/**
 Integer widths of the Go reader, powers of two, and the three ways the
 decoder turns raw bits into numbers: little-endian byte order, two's
 complement, and the division/remainder facts the bit reader relies on.
 */
module Ints {

  type uint8 = x: int | 0 <= x < 0x100
  type uint16 = x: int | 0 <= x < 0x1_0000
  type uint32 = x: int | 0 <= x < 0x1_0000_0000
  type int8 = x: int | -0x80 <= x < 0x80
  type int32 = x: int | -0x8000_0000 <= x < 0x8000_0000

  function Pow2(n: nat): (r: nat)
    ensures r > 0
  {
    if n == 0 then 1 else 2 * Pow2(n - 1)
  }

  lemma {:induction false} Pow2Add(a: nat, b: nat)
    ensures Pow2(a + b) == Pow2(a) * Pow2(b)
  {
    if b > 0 {
      Pow2Add(a, b - 1);
      calc {
        Pow2(a + b);
        2 * Pow2(a + b - 1);
        2 * (Pow2(a) * Pow2(b - 1));
        Pow2(a) * (2 * Pow2(b - 1));
      }
    }
  }

  lemma {:induction false} Pow2Monotone(a: nat, b: nat)
    requires a <= b
    ensures Pow2(a) <= Pow2(b)
  {
    if a < b {
      Pow2Monotone(a, b - 1);
    }
  }

  /** The powers of two that the reader's widths and the test vectors use. */
  lemma Pow2Table()
    ensures Pow2(1) == 2 && Pow2(2) == 4 && Pow2(3) == 8 && Pow2(4) == 16
    ensures Pow2(5) == 32 && Pow2(6) == 64 && Pow2(7) == 128 && Pow2(8) == 0x100
    ensures Pow2(11) == 0x800 && Pow2(12) == 0x1000 && Pow2(13) == 0x2000
    ensures Pow2(14) == 0x4000 && Pow2(15) == 0x8000 && Pow2(16) == 0x1_0000
    ensures Pow2(21) == 0x20_0000 && Pow2(24) == 0x100_0000 && Pow2(28) == 0x1000_0000
    ensures Pow2(31) == 0x8000_0000 && Pow2(32) == 0x1_0000_0000
  {
    assert Pow2(8) == 0x100;
    Pow2Add(8, 3);
    Pow2Add(8, 4);
    Pow2Add(8, 5);
    Pow2Add(8, 6);
    Pow2Add(8, 7);
    Pow2Add(8, 8);
    Pow2Add(16, 5);
    Pow2Add(16, 8);
    Pow2Add(16, 12);
    Pow2Add(16, 15);
    Pow2Add(16, 16);
  }

  /** The entries of Pow2Table that single proofs need, each on its own so
      that no proof sees more powers than it uses. */
  lemma Pow2Of5()
    ensures Pow2(4) == 16 && Pow2(5) == 32
  {
    Pow2Table();
  }

  lemma Pow2Of8()
    ensures Pow2(8) == 0x100
  {
    Pow2Table();
  }

  lemma Pow2Of16()
    ensures Pow2(15) == 0x8000 && Pow2(16) == 0x1_0000
  {
    Pow2Table();
  }

  lemma Pow2Of32()
    ensures Pow2(31) == 0x8000_0000 && Pow2(32) == 0x1_0000_0000
  {
    Pow2Table();
  }

  /** Quotient and remainder are unique: the facts Dafny's `/` and `%` need
      to be recognised from a decomposition `x == q * m + r`. */
  lemma DivModUnique(x: int, m: int, q: int, r: int)
    requires m > 0 && 0 <= r < m && x == q * m + r
    ensures x / m == q && x % m == r
  {
    var q', r' := x / m, x % m;
    assert (q - q') * m == r' - r;
    MulSign(q - q', m);
  }

  lemma MulSign(k: int, m: int)
    requires m > 0
    ensures k >= 1 ==> k * m >= m
    ensures k <= -1 ==> k * m <= -m
  {
  }

  /** Dividing by `a * b` is dividing by `a`, then by `b`. */
  lemma DivDiv(x: nat, a: nat, b: nat)
    requires a > 0 && b > 0
    ensures x / (a * b) == (x / a) / b
  {
    var q1, r1 := x / a, x % a;
    var q2, r2 := q1 / b, q1 % b;
    assert x == q1 * a + r1;
    assert q1 == q2 * b + r2;
    assert x == q2 * (a * b) + (r2 * a + r1) by {
      assert (q2 * b + r2) * a == q2 * (a * b) + r2 * a;
    }
    assert r2 * a + r1 < a * b by {
      assert r2 * a <= (b - 1) * a by {
        MulLe(r2, b - 1, a);
      }
      assert (b - 1) * a == a * b - a;
    }
    DivModUnique(x, a * b, q2, r2 * a + r1);
  }

  lemma MulLe(x: nat, y: nat, k: nat)
    requires x <= y
    ensures x * k <= y * k
  {
  }

  /** Halving splits the low `2 * m` part of a number into its low bit and
      the low `m` part of the rest. */
  lemma ModDouble(y: nat, m: nat)
    requires m > 0
    ensures y % (2 * m) == 2 * ((y / 2) % m) + y % 2
  {
    var h := y / 2;
    assert y == 2 * h + y % 2;
    assert h == (h / m) * m + h % m;
    assert y == (h / m) * (2 * m) + (2 * (h % m) + y % 2);
    DivModUnique(y, 2 * m, h / m, 2 * (h % m) + y % 2);
  }

  /** Little-endian value of a byte string: the first byte is the least
      significant, as Go's binary.LittleEndian decodes it. */
  function LittleEndian(bs: seq<uint8>): (r: nat)
    ensures r < Pow2(8 * |bs|)
  {
    if |bs| == 0 then 0
    else
      var rest := LittleEndian(bs[1..]);
      Pow2Add(8, 8 * (|bs| - 1));
      assert Pow2(8) == 0x100;
      assert rest <= Pow2(8 * (|bs| - 1)) - 1;
      assert 0x100 * rest <= 0x100 * Pow2(8 * (|bs| - 1)) - 0x100;
      bs[0] + 0x100 * rest
  }

  /** Go's conversion of an integer to uint32: the low 32 bits. */
  function Trunc32(x: int): uint32
  {
    x % 0x1_0000_0000
  }

  /** Go's uint32 subtraction, which wraps around below zero. */
  function Sub32(a: uint32, b: uint32): uint32
  {
    if b <= a then a - b else a - b + 0x1_0000_0000
  }

  /** Sub32 is subtraction modulo 2^32. */
  lemma Sub32Modular(a: uint32, b: uint32)
    ensures Sub32(a, b) == (a - b) % 0x1_0000_0000
  {
    if b > a {
      DivModUnique(a - b, 0x1_0000_0000, -1, a - b + 0x1_0000_0000);
    }
  }

  /** `a - k` in uint32 arithmetic, for a 32-bit `k` no larger than `a`. */
  lemma Sub32Exact(a: uint32, k: nat)
    requires k <= a
    ensures Sub32(a, Trunc32(k)) == a - k
  {
  }

  /** `a - k` in uint32 arithmetic wraps around when `k` exceeds `a`. */
  lemma Sub32Wraps(a: uint32, k: nat)
    requires a < k < 0x1_0000_0000
    ensures Sub32(a, Trunc32(k)) == a - k + 0x1_0000_0000
  {
  }

  /** Two's-complement reading of an `n`-bit pattern. */
  function ToSigned(v: nat, n: nat): (r: int)
    requires 1 <= n && v < Pow2(n)
    ensures -(Pow2(n - 1) as int) <= r < Pow2(n - 1)
  {
    if v >= Pow2(n - 1) then v - Pow2(n) else v
  }

  /** The `n`-bit two's-complement pattern of `x` (the inverse of ToSigned). */
  function FromSigned(x: int, n: nat): (v: nat)
    requires 1 <= n && -(Pow2(n - 1) as int) <= x < Pow2(n - 1)
    ensures v < Pow2(n)
  {
    if x < 0 then x + Pow2(n) else x
  }

  /** FromSigned and ToSigned are inverse: a signed value survives the trip
      through its bit pattern, and so does a bit pattern. */
  lemma SignedRoundTrip(x: int, n: nat)
    requires 1 <= n && -(Pow2(n - 1) as int) <= x < Pow2(n - 1)
    ensures ToSigned(FromSigned(x, n), n) == x
  {
    assert Pow2(n) == 2 * Pow2(n - 1);
  }

  lemma PatternRoundTrip(v: nat, n: nat)
    requires 1 <= n && v < Pow2(n)
    ensures FromSigned(ToSigned(v, n), n) == v
  {
    assert Pow2(n) == 2 * Pow2(n - 1);
  }
}
