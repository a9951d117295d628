/** The affine curve y^2 = x^3 + 7 over a prime field: point addition and negation. */
module EllipticCurve {
  import opened Arithmetic
  import opened PrimeField

  /** Python's None is the point at infinity. */
  datatype Point = Infinity | Affine(x: nat, y: nat)

  const A := 0
  const B := 7

  /** The left side of the curve equation test. */
  function Equation(x: int, y: int): int {
    y * y - x * x * x - A * x - B
  }

  predicate OnCurve(p: int, q: Point) {
    match q
    case Infinity => true
    case Affine(x, y) => x < p && y < p && Equation(x, y) % p == 0
  }

  function Slope(p: int, x1: int, y1: int, x2: int, y2: int): int
    requires 2 <= p
  {
    if x1 == x2 then (3 * x1 * x1 + A) * ModInverse(2 * y1, p) % p
    else (y2 - y1) * ModInverse(x2 - x1, p) % p
  }

  /** The third point of the line with the given slope through (x1, y1) and x2, mirrored. */
  function ThirdPoint(p: int, m: int, x1: int, y1: int, x2: int): Point
    requires 2 <= p
  {
    var x3 := (m * m - x1 - x2) % p;
    var y3 := (m * (x1 - x3) - y1) % p;
    Affine(x3, y3)
  }

  function PointAdd(p: int, q1: Point, q2: Point): Point
    requires 2 <= p
  {
    match (q1, q2)
    case (Infinity, _) => q2
    case (Affine(_, _), Infinity) => q1
    case (Affine(x1, y1), Affine(x2, y2)) =>
      if x1 == x2 && y1 != y2 then Infinity
      else if x1 == x2 && y1 == 0 then Infinity
      else ThirdPoint(p, Slope(p, x1, y1, x2, y2), x1, y1, x2)
  }

  function PointNeg(p: int, q: Point): Point
    requires 2 <= p
  {
    if q.Infinity? then Infinity else Affine(q.x, (-(q.y as int)) % p)
  }

  // ----- Closure -----

  /** The cofactor of (X - x1) in the intersection of the curve with the line through (x1, y1). */
  function Cofactor(m: int, x1: int, y1: int, x: int): int {
    x * x + x * x1 + x1 * x1 - 2 * (y1 * m) - m * m * (x - x1)
  }

  lemma LineIdentity(m: int, x1: int, y1: int, x: int)
    ensures Equation(x, m * (x1 - x) - y1) == Equation(x1, y1) - (x - x1) * Cofactor(m, x1, y1, x)
  {
    var d := x - x1;
    var y := m * (x1 - x) - y1;
    assert y == -(y1 + m * d) by { assert m * (x1 - x) == -(m * d); }
    assert y * y == y1 * y1 + 2 * (y1 * m) * d + (m * m * d) * d by {
      assert y * y == (y1 + m * d) * (y1 + m * d);
      assert (y1 + m * d) * (y1 + m * d) == y1 * y1 + 2 * (y1 * (m * d)) + (m * d) * (m * d);
      assert y1 * (m * d) == (y1 * m) * d;
      assert (m * d) * (m * d) == (m * m * d) * d;
    }
    assert x * x * x - x1 * x1 * x1 == d * (x * x + x * x1 + x1 * x1);
    var s := x * x + x * x1 + x1 * x1;
    assert d * (s - 2 * (y1 * m) - m * m * d) == d * s - 2 * (y1 * m) * d - (m * m * d) * d;
  }

  lemma CofactorRoot(m: int, x1: int, y1: int, x2: int)
    ensures Cofactor(m, x1, y1, m * m - x1 - x2) == Cofactor(m, x1, y1, x2)
  {
    var x := m * m - x1 - x2;
    assert Cofactor(m, x1, y1, x) - Cofactor(m, x1, y1, x2) == (x - x2) * (x + x2 + x1 - m * m) by {
      assert m * m * (x - x1) - m * m * (x2 - x1) == m * m * (x - x2);
      assert x * x - x2 * x2 == (x - x2) * (x + x2);
      assert x * x1 - x2 * x1 == (x - x2) * x1;
      assert (x - x2) * (x + x2 + x1 - m * m) == (x - x2) * (x + x2) + (x - x2) * x1 - (x - x2) * (m * m);
    }
    assert x + x2 + x1 - m * m == 0;
  }

  lemma EquationCong(p: int, x: int, x': int, y: int, y': int)
    requires 0 < p && x % p == x' % p && y % p == y' % p
    ensures Equation(x, y) % p == Equation(x', y') % p
  {
    CongMul(y, y', y, y', p);
    CongMul(x, x', x, x', p);
    CongMul(x * x, x' * x', x, x', p);
    CongSub(y * y, y' * y', x * x * x, x' * x' * x', p);
    CongSub(y * y - x * x * x, y' * y' - x' * x' * x', B, B, p);
  }

  /** Any line that meets the curve at (x1, y1) and again at x2 gives a curve point. */
  lemma ThirdPointOnCurve(p: int, m: int, x1: int, y1: int, x2: int)
    requires 2 <= p
    requires Equation(x1, y1) % p == 0 && Cofactor(m, x1, y1, x2) % p == 0
    ensures OnCurve(p, ThirdPoint(p, m, x1, y1, x2))
  {
    var x := m * m - x1 - x2;
    var y := m * (x1 - x) - y1;
    LineIdentity(m, x1, y1, x);
    CofactorRoot(m, x1, y1, x2);
    CongMul(x - x1, x - x1, Cofactor(m, x1, y1, x), 0, p);
    CongSub(Equation(x1, y1), 0, (x - x1) * Cofactor(m, x1, y1, x), 0, p);
    assert Equation(x, y) % p == 0;
    var x3 := x % p;
    ModMod(x, p);
    CongSub(x1, x1, x3, x, p);
    CongMul(m, m, x1 - x3, x1 - x, p);
    CongSub(m * (x1 - x3), m * (x1 - x), y1, y1, p);
    var y3 := (m * (x1 - x3) - y1) % p;
    ModMod(m * (x1 - x3) - y1, p);
    EquationCong(p, x3, x, y3, y);
  }

  lemma DifferenceNonzero(p: int, a: int, b: int)
    requires 0 <= a < p && 0 <= b < p && a != b
    ensures (a - b) % p != 0
  {
    if (a - b) % p == 0 {
      CongMeansDivides(a, b, p);
      CongSmall(a, b, p);
    }
  }

  lemma DoubleNonzero(p: int, y: int)
    requires IsPrime(p) && p != 2 && 0 < y < p
    ensures (2 * y) % p != 0
  {
    if (2 * y) % p == 0 {
      NoZeroDivisors(p, 2, y);
      ModSmall(2, p);
      ModSmall(y, p);
    }
  }

  /** The chord through two points with different x. */
  lemma SlopeOfChord(p: int, x1: int, y1: int, x2: int, y2: int)
    requires IsPrime(p) && 0 <= x1 < p && 0 <= x2 < p && x1 != x2
    ensures (Slope(p, x1, y1, x2, y2) * (x2 - x1)) % p == (y2 - y1) % p
  {
    DifferenceNonzero(p, x2, x1);
    InverseCancels(x2 - x1, y2 - y1, p);
    var w := (y2 - y1) * ModInverse(x2 - x1, p);
    ModMod(w, p);
    CongMul(w % p, w, x2 - x1, x2 - x1, p);
  }

  lemma ChordCofactor(p: int, m: int, x1: int, y1: int, x2: int, y2: int)
    requires IsPrime(p) && (x2 - x1) % p != 0
    requires Equation(x1, y1) % p == 0 && Equation(x2, y2) % p == 0
    requires (m * (x2 - x1)) % p == (y2 - y1) % p
    ensures Cofactor(m, x1, y1, x2) % p == 0
  {
    var d, t := x2 - x1, m * (x2 - x1);
    LineIdentity(m, x1, y1, x2);
    var y := m * (x1 - x2) - y1;
    assert y == -t - y1 by { assert m * (x1 - x2) == -t; }
    CongSub(-y1, -y1, t, y2 - y1, p);
    EquationCong(p, x2, x2, y, -y2);
    assert Equation(x2, -y2) == Equation(x2, y2);
    CongSub(Equation(x1, y1), 0, Equation(x2, y), 0, p);
    assert d * Cofactor(m, x1, y1, x2) == Equation(x1, y1) - Equation(x2, y);
    NoZeroDivisors(p, d, Cofactor(m, x1, y1, x2));
  }

  /** The tangent in a point with y != 0 */
  lemma SlopeOfTangent(p: int, x: int, y: int)
    requires IsPrime(p) && p != 2 && 0 < y < p
    ensures (Slope(p, x, y, x, y) * (2 * y)) % p == (3 * x * x) % p
  {
    var c := 3 * x * x + A;
    DoubleNonzero(p, y);
    InverseCancels(2 * y, c, p);
    var w := c * ModInverse(2 * y, p);
    ModMod(w, p);
    CongMul(w % p, w, 2 * y, 2 * y, p);
  }

  lemma TangentCofactor(p: int, x: int, y: int)
    requires IsPrime(p) && p != 2 && 0 < y < p
    ensures Cofactor(Slope(p, x, y, x, y), x, y, x) % p == 0
  {
    var m := Slope(p, x, y, x, y);
    var c := 3 * x * x;
    SlopeOfTangent(p, x, y);
    CongMeansDivides(c, m * (2 * y), p);
    assert Cofactor(m, x, y, x) == c - m * (2 * y) by {
      assert m * m * (x - x) == 0;
      assert m * (2 * y) == 2 * (y * m);
      assert 3 * x * x == 3 * (x * x);
    }
  }

  /** Section 2.2.1 of SEC 1: the sum of two curve points is a curve point. */
  lemma AddOnCurve(p: int, q1: Point, q2: Point)
    requires IsPrime(p) && p != 2 && OnCurve(p, q1) && OnCurve(p, q2)
    ensures OnCurve(p, PointAdd(p, q1, q2))
  {
    if q1.Affine? && q2.Affine? {
      var x1, y1, x2, y2 := q1.x, q1.y, q2.x, q2.y;
      if x1 != x2 {
        var m := Slope(p, x1, y1, x2, y2);
        SlopeOfChord(p, x1, y1, x2, y2);
        DifferenceNonzero(p, x2, x1);
        ChordCofactor(p, m, x1, y1, x2, y2);
        ThirdPointOnCurve(p, m, x1, y1, x2);
      } else if y1 == y2 && y1 != 0 {
        TangentCofactor(p, x1, y1);
        ThirdPointOnCurve(p, Slope(p, x1, y1, x2, y2), x1, y1, x2);
      }
    }
  }

  /** The third point, cleared of the division by dx in the slope dy / dx */
  ghost predicate Solves(p: int, x1: int, y1: int, x2: int, dx: int, dy: int, q: Point)
    requires 0 < p
  {
    && q.Affine? && q.x < p && q.y < p
    && ((q.x + x1 + x2) * (dx * dx)) % p == (dy * dy) % p
    && ((q.y + y1) * dx) % p == (dy * (x1 - q.x)) % p
  }

  lemma ThirdAbscissa(p: int, m: int, x1: int, x2: int, x3: int, dx: int, dy: int)
    requires 0 < p && (m * dx) % p == dy % p && x3 == (m * m - x1 - x2) % p
    ensures ((x3 + x1 + x2) * (dx * dx)) % p == (dy * dy) % p
  {
    ModMod(m * m - x1 - x2, p);
    CongAdd(x3, m * m - x1 - x2, x1 + x2, x1 + x2, p);
    CongMul(x3 + x1 + x2, m * m, dx * dx, dx * dx, p);
    CongMul(m * dx, dy, m * dx, dy, p);
    assert (m * m) * (dx * dx) == (m * dx) * (m * dx);
  }

  lemma ThirdOrdinate(p: int, m: int, x1: int, y1: int, x3: int, y3: int, dx: int, dy: int)
    requires 0 < p && (m * dx) % p == dy % p && y3 == (m * (x1 - x3) - y1) % p
    ensures ((y3 + y1) * dx) % p == (dy * (x1 - x3)) % p
  {
    ModMod(m * (x1 - x3) - y1, p);
    CongAdd(y3, m * (x1 - x3) - y1, y1, y1, p);
    CongMul(y3 + y1, m * (x1 - x3), dx, dx, p);
    CongMul(m * dx, dy, x1 - x3, x1 - x3, p);
    assert m * (x1 - x3) * dx == m * dx * (x1 - x3);
  }

  lemma ThirdPointSolves(p: int, m: int, x1: int, y1: int, x2: int, dx: int, dy: int)
    requires 2 <= p && (m * dx) % p == dy % p
    ensures Solves(p, x1, y1, x2, dx, dy, ThirdPoint(p, m, x1, y1, x2))
  {
    var q := ThirdPoint(p, m, x1, y1, x2);
    ThirdAbscissa(p, m, x1, x2, q.x, dx, dy);
    ThirdOrdinate(p, m, x1, y1, q.x, q.y, dx, dy);
  }

  /** Section 2.2.1 of SEC 1 without division: infinity is neutral, opposite points cancel, and otherwise the sum is the
      mirrored third point of the chord, or of the tangent. */
  lemma {:induction false} SumExactly(p: int, q1: Point, q2: Point)
    requires IsPrime(p) && p != 2 && OnCurve(p, q1) && OnCurve(p, q2)
    ensures q1 == Infinity ==> PointAdd(p, q1, q2) == q2
    ensures q2 == Infinity ==> PointAdd(p, q1, q2) == q1
    ensures q1.Affine? && q2.Affine? && q1.x != q2.x ==>
              Solves(p, q1.x, q1.y, q2.x, q2.x - q1.x, q2.y - q1.y, PointAdd(p, q1, q2))
    ensures q1.Affine? && q1 == q2 && q1.y != 0 ==>
              Solves(p, q1.x, q1.y, q1.x, 2 * q1.y, 3 * q1.x * q1.x, PointAdd(p, q1, q2))
    ensures q1.Affine? && q2.Affine? && q1.x == q2.x && (q1.y != q2.y || q1.y == 0) ==>
              PointAdd(p, q1, q2) == Infinity
  {
    if q1.Affine? && q2.Affine? {
      if q1.x != q2.x {
        SlopeOfChord(p, q1.x, q1.y, q2.x, q2.y);
        ThirdPointSolves(p, Slope(p, q1.x, q1.y, q2.x, q2.y), q1.x, q1.y, q2.x, q2.x - q1.x, q2.y - q1.y);
      } else if q1 == q2 && q1.y != 0 {
        SlopeOfTangent(p, q1.x, q1.y);
        ThirdPointSolves(p, Slope(p, q1.x, q1.y, q1.x, q1.y), q1.x, q1.y, q1.x, 2 * q1.y, 3 * q1.x * q1.x);
      }
    }
  }

  lemma NegOnCurve(p: int, q: Point)
    requires 2 <= p && OnCurve(p, q)
    ensures OnCurve(p, PointNeg(p, q))
  {
    if q.Affine? {
      NegEquation(p, q.x, q.y);
    }
  }

  lemma NegEquation(p: int, x: int, y: int)
    requires 2 <= p
    ensures Equation(x, (-y) % p) % p == Equation(x, y) % p
  {
    ModMod(-y, p);
    var z := (-y) % p;
    CongMul(z, -y, z, -y, p);
    assert (-y) * (-y) == y * y;
    CongSub(z * z, y * y, x * x * x, x * x * x, p);
    CongSub(z * z - x * x * x, y * y - x * x * x, B, B, p);
  }

  /** The sum does not depend on the order: both slopes solve the same congruence. */
  lemma AddCommutes(p: int, q1: Point, q2: Point)
    requires IsPrime(p) && p != 2 && OnCurve(p, q1) && OnCurve(p, q2)
    ensures PointAdd(p, q1, q2) == PointAdd(p, q2, q1)
  {
    if q1.Affine? && q2.Affine? && q1.x != q2.x {
      var x1, y1, x2, y2 := q1.x, q1.y, q2.x, q2.y;
      var m, m' := Slope(p, x1, y1, x2, y2), Slope(p, x2, y2, x1, y1);
      SlopeOfChord(p, x1, y1, x2, y2);
      SlopeOfChord(p, x2, y2, x1, y1);
      CongSub(0, 0, m' * (x1 - x2), y1 - y2, p);
      assert -(m' * (x1 - x2)) == (x2 - x1) * m' && m * (x2 - x1) == (x2 - x1) * m;
      DifferenceNonzero(p, x2, x1);
      Cancel(p, x2 - x1, m, m');
      CongSmall(m, m', p);
      var x3 := (m * m - x1 - x2) % p;
      assert m * (x1 - x3) - y1 == (m * (x2 - x3) - y2) + ((y2 - y1) - m * (x2 - x1)) by {
        assert m * (x2 - x3) - m * (x1 - x3) == m * (x2 - x1);
      }
      CongMeansDivides(y2 - y1, m * (x2 - x1), p);
      CongAdd(m * (x2 - x3) - y2, m * (x2 - x3) - y2, (y2 - y1) - m * (x2 - x1), 0, p);
    }
  }

  lemma AddNegation(p: int, q: Point)
    requires IsPrime(p) && p != 2 && OnCurve(p, q)
    ensures PointAdd(p, q, PointNeg(p, q)) == Infinity
  {
    if q.Affine? {
      NegatedY(p, q.y);
      assert p % 2 != 0;
    }
  }

  lemma NegatedY(p: int, y: int)
    requires 2 <= p && 0 <= y < p
    ensures (-y) % p == if y == 0 then 0 else p - y
  {
    if y == 0 {
      ModSmall(0, p);
    } else {
      DivModUnique(-y, p, -1, p - y);
    }
  }
}
