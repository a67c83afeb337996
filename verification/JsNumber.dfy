/** The JavaScript integer operators the sample-rate and pstring code relies on,
    written out over unbounded integers: ToInt32/ToUint32 conversion, `<<` and
    `>>` on 32-bit two's-complement values with the shift count taken modulo 32,
    and `%`, whose remainder takes the sign of the dividend (truncated division),
    unlike Dafny's Euclidean `%`. */
module JsNumber {
  import opened Power

  const TwoTo31: int := 0x8000_0000
  const TwoTo32: int := 0x1_0000_0000

  predicate IsInt32(x: int) {
    -TwoTo31 <= x < TwoTo31
  }

  function Abs(x: int): (r: nat)
    ensures r == x || r == -x
  {
    if x < 0 then -x else x
  }

  /** ToInt32: the unique signed 32-bit value congruent to `x` modulo 2^32. */
  function ToInt32(x: int): (r: int)
    ensures IsInt32(r)
    ensures (r - x) % TwoTo32 == 0
    ensures IsInt32(x) ==> r == x
  {
    var m := x % TwoTo32;
    if m >= TwoTo31 then m - TwoTo32 else m
  }

  /** The shift count of `<<` and `>>`: ToUint32 of the right operand masked
      to its low five bits. Because 2^32 is a multiple of 32 this is the value
      in [0, 32) congruent to the operand modulo 32. */
  function ShiftCount(b: int): (k: nat)
    ensures k < 32
    ensures (k - b) % 32 == 0
    ensures 0 <= b < 32 ==> k == b
  {
    var u := b % TwoTo32;
    var k := u % 32;
    assert k - b == (0x800_0000 * (b / TwoTo32) + u / 32) * -32 by {
      assert u == 32 * (u / 32) + k;
      assert b == TwoTo32 * (b / TwoTo32) + u;
    }
    MultipleModIsZero(-(0x800_0000 * (b / TwoTo32) + u / 32), 32);
    k
  }

  /** `a << b`: multiply by 2^k, k the shift count, and wrap to a signed
      32-bit value. */
  function ShiftLeft(a: int, b: int): (r: int)
    ensures IsInt32(r)
    ensures ShiftCount(b) == 0 ==> r == ToInt32(a)
  {
    ToInt32(ToInt32(a) * Pow2(ShiftCount(b)))
  }

  /** `a << b` is congruent to a * 2^k modulo 2^32, and equal to it when the
      product fits in 32 signed bits. */
  lemma ShiftLeftWraps(a: int, b: int)
    ensures (ShiftLeft(a, b) - ToInt32(a) * Pow2(ShiftCount(b))) % TwoTo32 == 0
    ensures IsInt32(ToInt32(a) * Pow2(ShiftCount(b))) ==>
      ShiftLeft(a, b) == ToInt32(a) * Pow2(ShiftCount(b))
  {
  }

  /** `a >> b`: the arithmetic (sign-propagating) right shift. */
  function ShiftRight(a: int, b: int): (r: int)
    ensures IsInt32(r)
    ensures ShiftCount(b) == 0 ==> r == ToInt32(a)
  {
    var x, d := ToInt32(a), Pow2(ShiftCount(b));
    FloorDivInt32(x, d);
    x / d
  }

  /** `a >> b` rounds toward negative infinity: it is the floor of
      ToInt32(a) / 2^k. */
  lemma ShiftRightFloors(a: int, b: int)
    ensures var r, d := ShiftRight(a, b), Pow2(ShiftCount(b));
      r * d <= ToInt32(a) < (r + 1) * d
  {
    FloorDivInt32(ToInt32(a), Pow2(ShiftCount(b)));
  }

  /** Dividing a 32-bit value by a positive number rounds down and stays 32-bit. */
  lemma FloorDivInt32(x: int, d: int)
    requires IsInt32(x) && d > 0
    ensures IsInt32(x / d)
    ensures (x / d) * d <= x < (x / d + 1) * d
  {
    var q, r := x / d, x % d;
    assert x == q * d + r && 0 <= r < d;
    if x >= 0 {
      DivBelow(x, d);
    } else {
      DivBelowNegative(x, d);
    }
  }

  lemma MulMonotone(a: int, b: int, c: int)
    requires a <= b && c >= 0
    ensures a * c <= b * c
  {
  }

  /** A multiple of `n` leaves no remainder. */
  lemma MultipleModIsZero(k: int, n: int)
    requires n > 0
    ensures (k * n) % n == 0
  {
    var x := k * n;
    var q, r := x / n, x % n;
    assert x == q * n + r;
    assert r == (k - q) * n;
    if k - q >= 1 {
      MulMonotone(1, k - q, n);
    } else if k - q <= -1 {
      MulMonotone(k - q, -1, n);
    }
  }

  lemma DivBelow(x: int, d: int)
    requires x >= 0 && d > 0
    ensures 0 <= x / d <= x
  {
    var q, r := x / d, x % d;
    assert x == q * d + r;
    if q < 0 {
      MulMonotone(q, -1, d);
    }
    MulMonotone(1, d, q);
  }

  lemma DivBelowNegative(x: int, d: int)
    requires x < 0 && d > 0
    ensures x <= x / d < 0
  {
    var q, r := x / d, x % d;
    assert x == q * d + r;
    if q >= 0 {
      MulMonotone(0, q, d);
    }
    if q < x {
      assert x < (q + 1) * d;
      MulMonotone(1, d, -(q + 1));
    }
  }

  /** JavaScript `%` on integers: the remainder of truncated division. It has
      the sign of the dividend, is smaller than the divisor in magnitude, and
      differs from the dividend by a multiple of the divisor. */
  function Rem(a: int, d: int): (r: int)
    requires d != 0
    ensures a >= 0 ==> 0 <= r < Abs(d)
    ensures a <= 0 ==> -(Abs(d) as int) < r <= 0
    ensures (a - r) % Abs(d) == 0
  {
    var q, m := Abs(a) / Abs(d), Abs(a) % Abs(d);
    assert Abs(a) == q * Abs(d) + m;
    if a < 0 then
      assert a - -m == -q * Abs(d);
      MultipleModIsZero(-q, Abs(d));
      -m
    else
      MultipleModIsZero(q, Abs(d));
      m
  }
}
