/** The finality test voted / total >= 2 / 3 in binary64 arithmetic: a quotient of integers rounded
    once with roundTiesToEven, section 4.3.1 of IEEE 754-2019. Exponents are unbounded. */
module FloatThreshold {
  import opened Arithmetic

  /** mantissa * 2^exponent */
  datatype Float = Float(mantissa: nat, exponent: int)

  const TWO52 := 0x10_0000_0000_0000
  const TWO53 := 0x20_0000_0000_0000
  const TWO54 := 0x40_0000_0000_0000

  function RoundHalfEven(a: nat, b: pos): (m: nat)
    ensures 2 * a - b <= 2 * (m * b) <= 2 * a + b
    ensures 2 * (m * b) == 2 * a + b || 2 * (m * b) == 2 * a - b ==> m % 2 == 0
  {
    var q, r := a / b, a % b;
    DivModForm(a, b);
    assert (q + 1) * b == q * b + b;
    if 2 * r < b then q
    else if b < 2 * r then q + 1
    else if q % 2 == 0 then q else q + 1
  }

  /** a / b scaled by powers of two until 53 bits are left of the point, then rounded. */
  function Normalize(a: pos, b: pos, e: int): Float
    decreases if a < TWO52 * b then TWO52 * b - a else if TWO53 * b <= a then a - TWO53 * b + 1 else 0
  {
    if a < TWO52 * b then Normalize(2 * a, b, e - 1)
    else if TWO53 * b <= a then Normalize(a, 2 * b, e + 1)
    else Float(RoundHalfEven(a, b), e)
  }

  /** The true division of two integers */
  function Divide(a: nat, b: pos): Float {
    if a == 0 then Float(0, 0) else Normalize(a, b, 0)
  }

  predicate AtLeast(x: Float, y: Float) {
    if x.exponent >= y.exponent then x.mantissa * Pow(2, x.exponent - y.exponent) >= y.mantissa
    else x.mantissa >= y.mantissa * Pow(2, y.exponent - x.exponent)
  }

  const FINALITY_THRESHOLD := Divide(2, 3)

  predicate MeetsThreshold(voted: nat, total: pos) {
    AtLeast(Divide(voted, total), FINALITY_THRESHOLD)
  }

  // ----- Divide rounds to nearest -----

  /** m is a / b rounded to an integer of 53 bits, ties to even. */
  ghost predicate Nearest(a: nat, b: pos, m: nat) {
    TWO52 * b <= a < TWO53 * b && m == RoundHalfEven(a, b)
  }

  lemma {:induction false} PowPair(n: nat)
    ensures Pow(2, n + 1) == 2 * Pow(2, n)
  {}

  /** a * 2^k */
  function Scale(a: pos, k: nat): pos {
    MulMonotone(1, a, 1, Pow(2, k));
    a * Pow(2, k)
  }

  lemma ScaleDouble(a: pos, k: nat)
    ensures Scale(a, k + 1) == Scale(2 * a, k)
  {
    PowPair(k);
    assert a * (2 * Pow(2, k)) == 2 * a * Pow(2, k);
  }

  /** Scaling up: the result is a * 2^k / b rounded, where the exponent went down by k. */
  lemma {:induction false} NormalizeDown(a: pos, b: pos, e: int)
    requires a < TWO53 * b
    ensures var f := Normalize(a, b, e);
      f.exponent <= e && Nearest(Scale(a, e - f.exponent), b, f.mantissa)
    decreases TWO53 * b - a
  {
    var f := Normalize(a, b, e);
    if a < TWO52 * b {
      NormalizeDown(2 * a, b, e - 1);
      ScaleDouble(a, e - 1 - f.exponent);
    } else {
      assert Pow(2, 0) == 1;
    }
  }

  /** Scaling down: the result is a / (b * 2^k) rounded, where the exponent went up by k. */
  lemma {:induction false} NormalizeUp(a: pos, b: pos, e: int)
    requires TWO52 * b <= a
    ensures var f := Normalize(a, b, e);
      e <= f.exponent && Nearest(a, Scale(b, f.exponent - e), f.mantissa)
    decreases a - TWO52 * b
  {
    var f := Normalize(a, b, e);
    if TWO53 * b <= a {
      NormalizeUp(a, 2 * b, e + 1);
      ScaleDouble(b, f.exponent - e - 1);
    } else {
      assert Pow(2, 0) == 1;
    }
  }

  /** The division is correctly rounded: the mantissa is the nearest one at the result's exponent. */
  lemma DivideNearest(a: pos, b: pos)
    ensures var f := Divide(a, b);
      if f.exponent <= 0 then Nearest(Scale(a, -f.exponent), b, f.mantissa)
      else Nearest(a, Scale(b, f.exponent), f.mantissa)
  {
    if a < TWO53 * b {
      NormalizeDown(a, b, 0);
    } else {
      NormalizeUp(a, b, 0);
    }
    if Divide(a, b).exponent == 0 {
      assert Pow(2, 0) == 1;
    }
  }

  lemma PowExact()
    ensures Pow(2, 52) == TWO52 && Pow(2, 53) == TWO53 && Pow(2, 54) == TWO54
  {
    assert Pow(2, 13) == 8192;
    PowAdd(2, 13, 13);
    PowAdd(2, 26, 26);
    PowPair(52);
    PowPair(53);
  }

  lemma RoundedRange(a: nat, b: pos)
    requires TWO52 * b <= a < TWO53 * b
    ensures TWO52 <= RoundHalfEven(a, b) <= TWO53
  {
    var m := RoundHalfEven(a, b);
    if m < TWO52 {
      MulMonotone(m, TWO52 - 1, b, b);
    } else if TWO53 < m {
      MulMonotone(TWO53 + 1, m, b, b);
    }
  }

  lemma ScaleMonotone(a: pos, j: nat, k: nat)
    requires j <= k
    ensures Scale(a, j) <= Scale(a, k)
  {
    PowMonotone(2, j, k);
    MulMonotone(a, a, Pow(2, j), Pow(2, k));
  }

  lemma ScaleExact(a: pos)
    ensures Scale(a, 0) == a && Scale(a, 52) == a * TWO52 && Scale(a, 53) == a * TWO53 && Scale(a, 54) == a * TWO54
  {
    PowExact();
    assert Pow(2, 0) == 1;
  }

  /** The exponent tells quotients below 1/2, from 1/2 to 1, and from 1 on apart. */
  lemma ExponentOf(a: pos, b: pos)
    ensures var e := Divide(a, b).exponent;
      if 2 * a < b then e <= -54 else if a < b then e == -53 else -52 <= e
  {
    var e := Divide(a, b).exponent;
    DivideNearest(a, b);
    ScaleExact(a);
    if e <= 0 {
      if -e <= 52 {
        ScaleMonotone(a, -e, 52);
      } else if 54 <= -e {
        ScaleMonotone(a, 54, -e);
      }
    } else {
      ScaleExact(b);
      ScaleMonotone(b, 0, e);
    }
  }

  lemma MantissaRange(a: pos, b: pos)
    ensures TWO52 <= Divide(a, b).mantissa <= TWO53
  {
    var e := Divide(a, b).exponent;
    DivideNearest(a, b);
    if e <= 0 {
      RoundedRange(Scale(a, -e), b);
    } else {
      RoundedRange(a, Scale(b, e));
    }
  }

  /** A quotient in [1/2, 1) is rounded at the scale 2^53. */
  lemma HalfToOne(a: pos, b: pos)
    requires b <= 2 * a < 2 * b
    ensures Divide(a, b) == Float(RoundHalfEven(a * TWO53, b), -53)
  {
    ExponentOf(a, b);
    DivideNearest(a, b);
    ScaleExact(a);
  }

  /** The rounded 2/3 is a third of a unit below 2/3. */
  const TWO_THIRDS := 6004799503160661

  lemma ThresholdValue()
    ensures FINALITY_THRESHOLD == Float(TWO_THIRDS, -53)
    ensures 3 * TWO_THIRDS == TWO54 - 1
  {
    HalfToOne(2, 3);
    assert RoundHalfEven(2 * TWO53, 3) == TWO_THIRDS;
  }

  /** Rounding reaches an odd m exactly above the midpoint below m. */
  lemma RoundsUpTo(a: nat, b: pos, m: nat)
    requires m % 2 == 1
    ensures m <= RoundHalfEven(a, b) <==> (2 * m - 1) * b < 2 * a
  {
    HalfUnitBelow(a, b, m, RoundHalfEven(a, b));
  }

  /** One step of a product */
  lemma NextProduct(m: int, b: int)
    ensures (m + 1) * b == m * b + b && (2 * m - 1) * b == 2 * (m * b) - b
  {}

  lemma HalfUnitBelow(a: nat, b: pos, m: nat, r: nat)
    requires m % 2 == 1
    requires 2 * a - b <= 2 * (r * b) <= 2 * a + b
    requires 2 * (r * b) == 2 * a + b || 2 * (r * b) == 2 * a - b ==> r % 2 == 0
    ensures m <= r <==> (2 * m - 1) * b < 2 * a
  {
    NextProduct(m, b);
    if m < r {
      MulMonotone(m + 1, r, b, b);
    } else if r < m {
      NextProduct(m - 1, b);
      if r < m - 1 {
        NextProduct(m - 2, b);
        MulMonotone(r, m - 2, b, b);
      }
    }
  }

  /** Two thirds, less 5 parts in 3 * 2^54 of the total, are exceeded. */
  predicate Decides(voted: int, total: int) {
    TWO54 * (2 * total - 3 * voted) < 5 * total
  }

  /** What the rounded comparison decides, for every pair of integers. */
  lemma ThresholdDecides(voted: nat, total: pos)
    ensures MeetsThreshold(voted, total) <==> Decides(voted, total)
  {
    ThresholdValue();
    PowExact();
    if voted == 0 {
    } else if 2 * voted < total {
      ExponentOf(voted, total);
      MantissaRange(voted, total);
      var f := Divide(voted, total);
      PowMonotone(2, 1, -53 - f.exponent);
      MulMonotone(TWO_THIRDS, TWO_THIRDS, 2, Pow(2, -53 - f.exponent));
    } else if total <= voted {
      ExponentOf(voted, total);
      MantissaRange(voted, total);
      var f := Divide(voted, total);
      PowMonotone(2, 1, f.exponent + 53);
      MulMonotone(TWO52, f.mantissa, 2, Pow(2, f.exponent + 53));
    } else {
      HalfToOne(voted, total);
      RoundsUpTo(voted * TWO53, total, TWO_THIRDS);
      assert Pow(2, 0) == 1;
    }
  }

  lemma DecidesExactly(voted: int, total: int)
    requires 0 <= 5 * total <= TWO54
    ensures Decides(voted, total) ==> 3 * voted >= 2 * total
    ensures 0 < total && 3 * voted >= 2 * total ==> Decides(voted, total)
  {}

  /** Up to a total of 2^54 / 5 the test is exact; 21 million coins are 2.1 * 10^15 satoshis. */
  lemma ThresholdExact(voted: nat, total: pos)
    requires 5 * total <= TWO54
    ensures MeetsThreshold(voted, total) <==> 3 * voted >= 2 * total
  {
    ThresholdDecides(voted, total);
    DecidesExactly(voted, total);
  }

  /** The bound is sharp: two above it a vote below two thirds passes. */
  lemma ThresholdInexactAbove()
    ensures var total, voted := 3602879701896398, 2401919801264265;
      TWO54 < 5 * total && 3 * voted < 2 * total && MeetsThreshold(voted, total)
  {
    ThresholdDecides(2401919801264265, 3602879701896398);
  }
}
