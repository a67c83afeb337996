/** The sample rate of a Common chunk, stored as an IEEE 754 80-bit extended
    precision number (sign bit and 15-bit biased exponent in the first word,
    then a 64-bit significand with an explicit integer bit). The decoder does
    not decode the number in full: it reads the exponent word and the top 16
    significand bits and scales the latter by a shift. */
module Extended {
  import opened Power
  import opened JsNumber

  const ExponentBias: int := 16383

  /** Weight of the lowest of the top 16 bits of the 64-bit significand. */
  const TwoTo48: int := 0x1_0000_0000_0000
  const TwoTo64: int := 0x1_0000_0000_0000_0000

  /** The exponent word at which the top 16 significand bits, read as an
      integer, are the value itself: the bias plus 15. */
  const UnitExponent: int := 16398

  /** The decoder's rule: `shift = exponentWord - 16398`, then the top 16
      significand bits shifted right by |shift| when shift is negative and left
      by shift otherwise, with JavaScript's 32-bit `>>` and `<<`. */
  function SampleRate(exponentWord: nat, mantissaHigh: nat): (r: int)
    requires exponentWord < 0x1_0000 && mantissaHigh < 0x1_0000
    ensures IsInt32(r)
    ensures exponentWord < UnitExponent ==> 0 <= r <= mantissaHigh
  {
    var shift := exponentWord - UnitExponent;
    if shift < 0 then
      var r := ShiftRight(mantissaHigh, Abs(shift));
      var d := Pow2(ShiftCount(Abs(shift)));
      assert 0 <= r <= mantissaHigh by {
        ShiftRightFloors(mantissaHigh, Abs(shift));
        if r < 0 {
          MulMonotone(r + 1, 0, d);
        }
        MulMonotone(1, d, r);
      }
      r
    else
      ShiftLeft(mantissaHigh, shift)
  }

  /** Exponent word 16398: the top 16 significand bits are the rate. */
  lemma SampleRateUnshifted(exponentWord: nat, mantissaHigh: nat)
    requires exponentWord == UnitExponent && mantissaHigh < 0x1_0000
    ensures SampleRate(exponentWord, mantissaHigh) == mantissaHigh
  {
  }

  /** A positive shift below 32 multiplies by 2^shift as long as the product
      stays below 2^31. */
  lemma SampleRateLeftShift(exponentWord: nat, mantissaHigh: nat)
    requires UnitExponent < exponentWord < UnitExponent + 32 && mantissaHigh < 0x1_0000
    requires mantissaHigh * Pow2(exponentWord - UnitExponent) < TwoTo31
    ensures SampleRate(exponentWord, mantissaHigh) == mantissaHigh * Pow2(exponentWord - UnitExponent)
  {
    ShiftLeftWraps(mantissaHigh, exponentWord - UnitExponent);
  }

  /** A negative shift above -32 divides by 2^-shift, rounding down, so the
      rate never exceeds the top 16 significand bits. */
  lemma SampleRateRightShift(exponentWord: nat, mantissaHigh: nat)
    requires UnitExponent - 32 < exponentWord < UnitExponent && mantissaHigh < 0x1_0000
    ensures SampleRate(exponentWord, mantissaHigh) == mantissaHigh / Pow2(UnitExponent - exponentWord)
    ensures SampleRate(exponentWord, mantissaHigh) <= mantissaHigh
  {
    var r, d := SampleRate(exponentWord, mantissaHigh), Pow2(UnitExponent - exponentWord);
    ShiftRightFloors(mantissaHigh, UnitExponent - exponentWord);
    FloorUnique(mantissaHigh, d, r);
  }

  /** `q` is the only integer with q * d <= x < (q + 1) * d. */
  lemma FloorUnique(x: int, d: int, q: int)
    requires d > 0 && q * d <= x < (q + 1) * d
    ensures q == x / d
  {
    var q' := x / d;
    assert q' * d <= x < (q' + 1) * d;
    if q < q' {
      MulMonotone(q + 1, q', d);
    } else if q' < q {
      MulMonotone(q' + 1, q, d);
    }
  }

  /** JavaScript masks the shift count to five bits, so shifting by 32 or more
      in either direction is the same as shifting 32 places less. */
  lemma SampleRateShiftWraps(exponentWord: nat, mantissaHigh: nat)
    requires exponentWord < 0x1_0000 && mantissaHigh < 0x1_0000
    ensures exponentWord >= UnitExponent + 32 ==>
      SampleRate(exponentWord, mantissaHigh) == SampleRate(exponentWord - 32, mantissaHigh)
    ensures exponentWord + 32 <= UnitExponent ==>
      SampleRate(exponentWord, mantissaHigh) == SampleRate(exponentWord + 32, mantissaHigh)
  {
    var shift := exponentWord - UnitExponent;
    if shift >= 32 {
      assert ShiftCount(shift) == ShiftCount(shift - 32) by {
        ShiftCountPeriodic(shift - 32);
      }
    } else if shift <= -32 {
      ShiftCountPeriodic(-shift - 32);
      if shift == -32 {
        assert ShiftCount(32) == 0;
      }
    }
  }

  lemma ShiftCountPeriodic(b: int)
    ensures ShiftCount(b + 32) == ShiftCount(b)
  {
    var k, k' := ShiftCount(b), ShiftCount(b + 32);
    assert (k - b) % 32 == 0 && (k' - b - 32) % 32 == 0;
    assert (k' - k) % 32 == 0 by {
      assert k' - k == (k' - b - 32) - (k - b) + 32;
      MultipleModIsZero((k' - b - 32) / 32 - (k - b) / 32 + 1, 32);
    }
  }

  /** A 16-bit product of a shift to the left reaches 2^31 and wraps to a
      negative rate: exponent word 16414 with all top bits set gives -65536. */
  lemma SampleRateOverflows()
    ensures SampleRate(UnitExponent + 16, 0xFFFF) == -0x1_0000
  {
    Pow2Values();
    assert ShiftCount(16) == 16;
    assert ToInt32(0xFFFF) == 0xFFFF;
    assert ToInt32(0xFFFF * 0x1_0000) == -0x1_0000;
  }

  /** Reference meaning of a positive finite normal extended number with
      biased exponent `exponent` and 64-bit significand `significand` (explicit
      integer bit): significand * 2^(exponent - 16383 - 63). */
  function ExtendedValue(exponent: nat, significand: nat): real
    requires exponent < 0x7FFF
  {
    var e := exponent - ExponentBias - 63;
    if e >= 0 then (significand * Pow2(e)) as real
    else significand as real / Pow2(-e) as real
  }

  /** For an exponent word at most 31 below 16398 (a value below 2^16), the
      rule is exact up to rounding down: it yields the floor of the true value,
      whatever the 48 significand bits it does not read. */
  lemma SampleRateIsFloorOfExtended(exponentWord: nat, significand: nat)
    requires UnitExponent - 32 < exponentWord <= UnitExponent
    requires significand < TwoTo64
    ensures significand / TwoTo48 < 0x1_0000
    ensures var r := SampleRate(exponentWord, significand / TwoTo48);
      r as real <= ExtendedValue(exponentWord, significand) < (r + 1) as real
  {
    var high := TopSixteen(significand);
    var k := UnitExponent - exponentWord;
    var r := SampleRate(exponentWord, high);
    SampleRateFloor(exponentWord, high);
    Pow2Add(k, 48);
    Pow2Values();
    FloorCompose(significand, high, r, Pow2(k), TwoTo48);
    ExtendedValueScaledDown(exponentWord, significand, k + 48);
    RealQuotientBounds(significand, Pow2(k + 48), r);
  }

  /** Above that range the rule is no longer the floor: a left shift drops
      significand bits that belong to the integer part. 96001 Hz, stored
      normalised, is read as 96000. */
  lemma SampleRateNotFloorAboveRange()
    ensures SampleRate(0x400F, 0xBB80) == 96000
    ensures ExtendedValue(0x400F, 0xBB80 * TwoTo48 + 0x8000 * 0x1_0000_0000) == 96001.0
  {
    var significand := 0xBB80 * TwoTo48 + 0x8000 * 0x1_0000_0000;
    Pow2Values();
    Pow2Add(47, 1);
    assert Pow2(1) == 2;
    SampleRateLeftShift(0x400F, 0xBB80);
    assert significand == 96001 * Pow2(47);
    ExtendedValueScaledDown(0x400F, significand, 47);
    RealQuotientExact(significand, Pow2(47), 96001);
  }

  /** Below that range the shift count wraps modulo 32: at word 16366 the rule
      shifts by 0 and reads the top 16 bits unchanged, while the value of any
      significand, at most 2^64 / 2^80, is below 1. */
  lemma SampleRateNotFloorBelowRange(significand: nat)
    requires 0x8000 * TwoTo48 <= significand < TwoTo64
    ensures SampleRate(UnitExponent - 32, significand / TwoTo48) >= 0x8000
    ensures ExtendedValue(UnitExponent - 32, significand) < 1.0
  {
    var high := TopSixteen(significand);
    SampleRateShiftWraps(UnitExponent - 32, high);
    SampleRateUnshifted(UnitExponent, high);
    BelowOne(UnitExponent - 32, significand);
  }

  /** At exponent word 16366 every significand is worth less than 1. */
  lemma BelowOne(exponentWord: nat, significand: nat)
    requires exponentWord == UnitExponent - 32 && significand < TwoTo64
    ensures ExtendedValue(exponentWord, significand) < 1.0
  {
    var n := ExponentBias + 63 - exponentWord;
    Pow2Values();
    Pow2Add(16, 48);
    Pow2Monotone(64, n);
    ExtendedValueScaledDown(exponentWord, significand, n);
    RealQuotientBounds(significand, Pow2(n), 0);
  }

  /** The top 16 of 64 significand bits. */
  lemma TopSixteen(significand: nat) returns (high: nat)
    requires significand < TwoTo64
    ensures high == significand / TwoTo48 && high < 0x1_0000
    ensures high * TwoTo48 <= significand < (high + 1) * TwoTo48
  {
    Pow2Add(16, 48);
    Pow2Values();
    high := significand / TwoTo48;
  }

  /** With a shift in (-32, 0] the rule rounds the top bits down by 2^-shift. */
  lemma SampleRateFloor(exponentWord: nat, mantissaHigh: nat)
    requires UnitExponent - 32 < exponentWord <= UnitExponent && mantissaHigh < 0x1_0000
    ensures var r, d := SampleRate(exponentWord, mantissaHigh), Pow2(UnitExponent - exponentWord);
      r * d <= mantissaHigh < (r + 1) * d
  {
    if exponentWord == UnitExponent {
      SampleRateUnshifted(exponentWord, mantissaHigh);
    } else {
      var shift := exponentWord - UnitExponent;
      ShiftRightFloors(mantissaHigh, Abs(shift));
    }
  }

  /** Rounding down twice, by `a` and then by `b`, is rounding down by a * b. */
  lemma FloorCompose(x: int, y: int, q: int, a: int, b: int)
    requires a > 0 && b > 0
    requires q * a <= y < (q + 1) * a
    requires y * b <= x < (y + 1) * b
    ensures q * (a * b) <= x < (q + 1) * (a * b)
  {
    MulMonotone(q * a, y, b);
    MulMonotone(y + 1, (q + 1) * a, b);
  }

  lemma ExtendedValueScaledDown(exponent: nat, significand: nat, n: nat)
    requires exponent < 0x7FFF && exponent == ExponentBias + 63 - n && n > 0
    ensures ExtendedValue(exponent, significand) == significand as real / Pow2(n) as real
  {
  }

  lemma MulAssociates(a: int, b: int, c: int)
    ensures a * (b * c) == (a * b) * c
  {
  }

  lemma RealQuotientBounds(x: int, d: int, q: int)
    requires d > 0 && q * d <= x < (q + 1) * d
    ensures q as real <= x as real / d as real < (q + 1) as real
  {
  }

  lemma RealQuotientExact(x: int, d: int, q: int)
    requires d > 0 && x == q * d
    ensures x as real / d as real == q as real
  {
  }

  /** When the 48 unread significand bits are zero and a left shift stays below
      2^31, the rule gives the exact value of the number. */
  lemma SampleRateExactForWholeValues(exponentWord: nat, significand: nat)
    requires UnitExponent <= exponentWord < UnitExponent + 32
    requires significand < TwoTo64 && significand % TwoTo48 == 0
    requires (significand / TwoTo48) * Pow2(exponentWord - UnitExponent) < TwoTo31
    ensures significand / TwoTo48 < 0x1_0000
    ensures SampleRate(exponentWord, significand / TwoTo48) as real == ExtendedValue(exponentWord, significand)
  {
    var high := TopSixteen(significand);
    var shift := exponentWord - UnitExponent;
    if shift == 0 {
      SampleRateUnshifted(exponentWord, high);
    } else {
      SampleRateLeftShift(exponentWord, high);
    }
    assert significand == high * TwoTo48;
    Pow2Values();
    Pow2Add(shift, 48 - shift);
    var d := Pow2(48 - shift);
    assert TwoTo48 == Pow2(shift) * d;
    MulAssociates(high, Pow2(shift), d);
    ExtendedValueScaledDown(exponentWord, significand, 48 - shift);
    RealQuotientExact(significand, d, high * Pow2(shift));
  }

  /** Normalises a nonzero 16-bit value the way an extended number stores it:
      doubled until its top bit is set, returning the scaled value and the
      number of doublings. */
  function Normalize(m: nat): (res: (nat, nat))
    requires 0 < m < 0x1_0000
    ensures 0x8000 <= res.0 < 0x1_0000 && res.1 < 16
    ensures res.0 == m * Pow2(res.1)
    decreases 0x1_0000 - m
  {
    if m >= 0x8000 then (m, 0)
    else
      var (m', k) := Normalize(2 * m);
      assert m' == m * Pow2(k + 1);
      assert k + 1 < 16 by {
        if k + 1 >= 16 {
          Pow2Monotone(16, k + 1);
          Pow2Values();
          MulMonotone(1, m, Pow2(k + 1));
        }
      }
      (m', k + 1)
  }

  /** The exponent word and top 16 significand bits an extended number holds
      for a whole rate below 2^16 (zero has both fields zero). Decoding them
      with the rule gives the rate back, and they are the exact encoding: the
      remaining 48 significand bits are zero. */
  function EncodeRate(rate: nat): (fields: (nat, nat))
    requires rate < 0x1_0000
    ensures fields.0 < 0x7FFF && fields.1 < 0x1_0000
    ensures rate > 0 ==> fields.1 >= 0x8000
    ensures SampleRate(fields.0, fields.1) == rate
    ensures ExtendedValue(fields.0, fields.1 * TwoTo48) == rate as real
  {
    if rate == 0 then
      ExtendedValueScaledDown(0, 0, ExponentBias + 63);
      (0, 0)
    else
      var (m, k) := Normalize(rate);
      NormalizedDecodes(rate, m, k);
      (UnitExponent - k, m)
  }

  lemma NormalizedDecodes(rate: nat, m: nat, k: nat)
    requires 0 < rate < 0x1_0000 && 0x8000 <= m < 0x1_0000 && k < 16
    requires m == rate * Pow2(k)
    ensures SampleRate(UnitExponent - k, m) == rate
    ensures ExtendedValue(UnitExponent - k, m * TwoTo48) == rate as real
  {
    var word := UnitExponent - k;
    if k == 0 {
      SampleRateUnshifted(word, m);
    } else {
      SampleRateRightShift(word, m);
      FloorUnique(m, Pow2(k), rate);
    }
    Pow2Add(k, 48);
    Pow2Values();
    MulAssociates(rate, Pow2(k), TwoTo48);
    ExtendedValueScaledDown(word, m * TwoTo48, k + 48);
    RealQuotientExact(m * TwoTo48, Pow2(k + 48), rate);
  }
}
