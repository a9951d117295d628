/** Integer arithmetic shared by the field, the radix conversions and the difficulty encoding. */
module Arithmetic {
  type pos = n: int | 0 < n witness 1

  function Pow(b: int, e: nat): (r: int)
    ensures 0 < b ==> 0 < r
  {
    if e == 0 then 1 else b * Pow(b, e - 1)
  }

  lemma {:induction false} PowAdd(b: int, d: nat, e: nat)
    ensures Pow(b, d + e) == Pow(b, d) * Pow(b, e)
  {
    if d == 0 {
    } else {
      PowAdd(b, d - 1, e);
      assert b * (Pow(b, d - 1) * Pow(b, e)) == (b * Pow(b, d - 1)) * Pow(b, e);
    }
  }

  lemma {:induction false} PowMul(b: int, d: nat, e: nat)
    ensures Pow(Pow(b, d), e) == Pow(b, d * e)
  {
    if e == 0 {
      assert d * e == 0;
    } else {
      PowMul(b, d, e - 1);
      assert d * e == d + d * (e - 1);
      PowAdd(b, d, d * (e - 1));
    }
  }

  lemma {:induction false} PowMonotone(b: int, d: nat, e: nat)
    requires 1 <= b && d <= e
    ensures Pow(b, d) <= Pow(b, e)
  {
    if d == e {
    } else {
      PowMonotone(b, d, e - 1);
      MulMonotone(1, b, Pow(b, e - 1), Pow(b, e - 1));
    }
  }

  lemma MulMonotone(a: int, b: int, c: int, d: int)
    requires 0 <= a <= b && 0 <= c <= d
    ensures a * c <= b * d
  {
    assert a * c <= b * c;
    assert b * c <= b * d;
  }

  /** Quotient and remainder are the only pair with a remainder in range. */
  lemma DivModUnique(a: int, m: int, q: int, r: int)
    requires 0 <= r < m && a == q * m + r
    ensures a / m == q && a % m == r
  {
    var q', r' := a / m, a % m;
    assert a == m * q' + r';
    assert (q - q') * m == r' - r;
    if q < q' {
      MulMonotone(1, q' - q, m, m);
    } else if q' < q {
      MulMonotone(1, q - q', m, m);
    }
  }

  lemma DivModForm(a: int, m: int)
    requires 0 < m
    ensures a == a / m * m + a % m && 0 <= a % m < m
    ensures 0 <= a ==> 0 <= a / m
  {}

  lemma ModSmall(a: int, m: int)
    requires 0 <= a < m
    ensures a % m == a && a / m == 0
  {
    DivModUnique(a, m, 0, a);
  }

  lemma ModOfMultiple(a: int, k: int, m: int)
    requires 0 < m
    ensures (a + k * m) % m == a % m
    ensures (a + k * m) / m == a / m + k
  {
    assert a + k * m == (a / m + k) * m + a % m by {
      assert a == m * (a / m) + a % m;
      assert (a / m + k) * m == m * (a / m) + k * m;
    }
    DivModUnique(a + k * m, m, a / m + k, a % m);
  }

  lemma ModMod(a: int, m: int)
    requires 0 < m
    ensures (a % m) % m == a % m
  {
    ModSmall(a % m, m);
  }

  /** Congruence is compatible with addition, subtraction and multiplication. */
  lemma CongAdd(a: int, a': int, b: int, b': int, m: int)
    requires 0 < m && a % m == a' % m && b % m == b' % m
    ensures (a + b) % m == (a' + b') % m
  {
    AddMod(a, b, m);
    AddMod(a', b', m);
  }

  lemma CongSub(a: int, a': int, b: int, b': int, m: int)
    requires 0 < m && a % m == a' % m && b % m == b' % m
    ensures (a - b) % m == (a' - b') % m
  {
    SubMod(a, b, m);
    SubMod(a', b', m);
  }

  lemma CongMul(a: int, a': int, b: int, b': int, m: int)
    requires 0 < m && a % m == a' % m && b % m == b' % m
    ensures (a * b) % m == (a' * b') % m
  {
    MulMod(a, b, m);
    MulMod(a', b', m);
  }

  lemma AddMod(a: int, b: int, m: int)
    requires 0 < m
    ensures (a + b) % m == (a % m + b % m) % m
  {
    var k := a / m + b / m;
    assert a == m * (a / m) + a % m && b == m * (b / m) + b % m;
    assert k * m == m * (a / m) + m * (b / m);
    ModOfMultiple(a % m + b % m, k, m);
  }

  lemma SubMod(a: int, b: int, m: int)
    requires 0 < m
    ensures (a - b) % m == (a % m - b % m) % m
  {
    var k := a / m - b / m;
    assert a == m * (a / m) + a % m && b == m * (b / m) + b % m;
    assert k * m == m * (a / m) - m * (b / m);
    ModOfMultiple(a % m - b % m, k, m);
  }

  /** A product of two quotient-and-remainder forms */
  lemma Expand(m: int, qa: int, ra: int, qb: int, rb: int)
    ensures (m * qa + ra) * (m * qb + rb) == ra * rb + (qa * (m * qb + rb) + ra * qb) * m
  {
    var b := m * qb + rb;
    assert (m * qa + ra) * b == (qa * b) * m + ra * b;
    assert ra * b == (ra * qb) * m + ra * rb;
  }

  lemma MulMod(a: int, b: int, m: int)
    requires 0 < m
    ensures (a * b) % m == (a % m * (b % m)) % m
  {
    var qa, ra, qb, rb := a / m, a % m, b / m, b % m;
    assert a == m * qa + ra && b == m * qb + rb;
    Expand(m, qa, ra, qb, rb);
    ModOfMultiple(ra * rb, qa * b + ra * qb, m);
  }

  lemma {:induction false} PowMod(a: int, e: nat, m: int)
    requires 0 < m
    ensures Pow(a % m, e) % m == Pow(a, e) % m
  {
    if e == 0 {
    } else {
      PowMod(a, e - 1, m);
      ModMod(a, m);
      CongMul(a % m, a, Pow(a % m, e - 1), Pow(a, e - 1), m);
    }
  }

  /** Two residues in range that are congruent are equal. */
  lemma CongSmall(a: int, b: int, m: int)
    requires 0 <= a < m && 0 <= b < m && a % m == b % m
    ensures a == b
  {
    ModSmall(a, m);
    ModSmall(b, m);
  }

  lemma CongMeansDivides(a: int, b: int, m: int)
    requires 0 < m
    ensures a % m == b % m <==> (a - b) % m == 0
  {
    if a % m == b % m {
      CongSub(a, b, b, b, m);
    }
    if (a - b) % m == 0 {
      CongAdd(a - b, 0, b, b, m);
    }
  }

  lemma DivMonotone(a: int, b: int, m: int)
    requires 0 < m && a <= b
    ensures a / m <= b / m
  {
    var qa, qb := a / m, b / m;
    assert a == m * qa + a % m && b == m * qb + b % m;
    if qb < qa {
      MulMonotone(1, qa - qb, m, m);
    }
  }

  lemma DivDiv(a: int, m: int, n: int)
    requires 0 < m && 0 < n
    ensures 0 < m * n && a / (m * n) == (a / m) / n
  {
    MulMonotone(1, m, 1, n);
    var q := (a / m) / n;
    var r := (a / m) % n;
    assert a == m * (a / m) + a % m;
    assert a / m == n * q + r;
    assert m * (n * q + r) == q * (m * n) + m * r;
    var s := m * r + a % m;
    assert a == q * (m * n) + s;
    MulMonotone(m, m, r, n - 1);
    assert m * (n - 1) == m * n - m;
    assert 0 <= m * r;
    DivModUnique(a, m * n, q, s);
  }
}
