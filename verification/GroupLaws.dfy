/** The laws of scalar multiplication, for the records that are groups. */
module GroupLaws {
  import opened Arithmetic
  import opened PrimeField
  import opened EllipticCurve
  import opened CurveGroup
  import ResidueGroup

  /** A lawful record; the residues modulo 3 are one, so the laws are consistent. */
  type Group = c: Curve | c.Lawful()
    ghost witness (ResidueGroup.ResiduesLawful(3); ResidueGroup.Residues(3))

  lemma Assoc(c: Group, a: Point, b: Point, d: Point)
    requires c.on(a) && c.on(b) && c.on(d)
    ensures c.add(c.add(a, b), d) == c.add(a, c.add(b, d))
  {
    assert Chain(a, b, d);
  }

  lemma AddZero(c: Group, a: Point)
    requires c.on(a)
    ensures c.add(a, Infinity) == a && c.add(Infinity, a) == a
  {}

  /** (a + b) + (d + e) == (a + d) + (b + e) */
  lemma Interchange(c: Group, a: Point, b: Point, d: Point, e: Point)
    requires c.on(a) && c.on(b) && c.on(d) && c.on(e)
    ensures c.add(c.add(a, b), c.add(d, e)) == c.add(c.add(a, d), c.add(b, e))
  {
    Assoc(c, a, b, c.add(d, e));
    Assoc(c, b, d, e);
    Assoc(c, d, b, e);
    Assoc(c, a, d, c.add(b, e));
  }

  lemma CancelLeft(c: Group, a: Point, b: Point, d: Point)
    requires c.on(a) && c.on(b) && c.on(d) && c.add(a, b) == c.add(a, d)
    ensures b == d
  {
    Assoc(c, c.neg(a), a, b);
    Assoc(c, c.neg(a), a, d);
    AddZero(c, b);
    AddZero(c, d);
  }

  lemma NegUnique(c: Group, a: Point, b: Point)
    requires c.on(a) && c.on(b) && c.add(a, b) == Infinity
    ensures b == c.neg(a)
  {
    CancelLeft(c, a, b, c.neg(a));
  }

  lemma {:induction false} RepeatAdd(c: Group, j: nat, k: nat, q: Point)
    requires c.on(q)
    ensures c.Repeat(j + k, q) == c.add(c.Repeat(j, q), c.Repeat(k, q))
  {
    RepeatOn(c, j, q);
    if k == 0 {
      AddZero(c, c.Repeat(j, q));
    } else {
      RepeatAdd(c, j, k - 1, q);
      RepeatOn(c, k - 1, q);
      Assoc(c, c.Repeat(j, q), c.Repeat(k - 1, q), q);
    }
  }

  lemma {:induction false} RepeatSum(c: Group, k: nat, a: Point, b: Point)
    requires c.on(a) && c.on(b)
    ensures c.Repeat(k, c.add(a, b)) == c.add(c.Repeat(k, a), c.Repeat(k, b))
  {
    if k == 0 {
      AddZero(c, Infinity);
    } else {
      RepeatSum(c, k - 1, a, b);
      RepeatOn(c, k - 1, a);
      RepeatOn(c, k - 1, b);
      Interchange(c, c.Repeat(k - 1, a), c.Repeat(k - 1, b), a, b);
    }
  }

  lemma {:induction false} RepeatRepeat(c: Group, j: nat, k: nat, q: Point)
    requires c.on(q)
    ensures 0 <= j * k && c.Repeat(j, c.Repeat(k, q)) == c.Repeat(j * k, q)
  {
    if j == 0 {
      assert j * k == 0;
    } else {
      RepeatRepeat(c, j - 1, k, q);
      assert j * k == (j - 1) * k + k;
      RepeatAdd(c, (j - 1) * k, k, q);
    }
  }

  lemma {:induction false} RepeatInfinity(c: Group, k: nat)
    ensures c.Repeat(k, Infinity) == Infinity
  {
    if k == 0 {
    } else {
      RepeatInfinity(c, k - 1);
      AddZero(c, Infinity);
    }
  }

  lemma {:induction false} RepeatMultiple(c: Group, k: nat, d: nat, r: nat, q: Point)
    requires c.on(q) && k == d * c.order + r
    ensures c.Repeat(k, q) == c.Repeat(r, q)
  {
    RepeatRepeat(c, d, c.order, q);
    RepeatInfinity(c, d);
    RepeatAdd(c, d * c.order, r, q);
    RepeatOn(c, r, q);
    AddZero(c, c.Repeat(r, q));
  }

  lemma {:induction false} RepeatIsTimes(c: Group, k: nat, q: Point)
    requires c.on(q)
    ensures c.Repeat(k, q) == c.Times(k, q)
  {
    DivModForm(k, c.order);
    RepeatMultiple(c, k, k / c.order, k % c.order, q);
  }

  // ----- Times is linear over the integers -----

  lemma TimesOn(c: Group, k: int, q: Point)
    requires c.on(q)
    ensures c.on(c.Times(k, q))
  {
    RepeatOn(c, k % c.order, q);
  }

  lemma TimesCong(c: Group, j: int, k: int, q: Point)
    requires j % c.order == k % c.order
    ensures c.Times(j, q) == c.Times(k, q)
  {}

  lemma TimesZeroOne(c: Group, q: Point)
    requires c.on(q)
    ensures c.Times(0, q) == Infinity && c.Times(1, q) == q
  {
    ModSmall(0, c.order);
    ModSmall(1, c.order);
    assert c.Repeat(1, q) == c.add(c.Repeat(0, q), q);
    AddZero(c, q);
  }

  lemma TimesAdd(c: Group, j: int, k: int, q: Point)
    requires c.on(q)
    ensures c.Times(j + k, q) == c.add(c.Times(j, q), c.Times(k, q))
  {
    var a, b := j % c.order, k % c.order;
    RepeatAdd(c, a, b, q);
    RepeatIsTimes(c, a + b, q);
    AddMod(j, k, c.order);
  }

  lemma TimesSum(c: Group, k: int, a: Point, b: Point)
    requires c.on(a) && c.on(b)
    ensures c.Times(k, c.add(a, b)) == c.add(c.Times(k, a), c.Times(k, b))
  {
    RepeatSum(c, k % c.order, a, b);
  }

  lemma TimesTimes(c: Group, j: int, k: int, q: Point)
    requires c.on(q)
    ensures c.Times(j, c.Times(k, q)) == c.Times(j * k, q)
  {
    var a, b := j % c.order, k % c.order;
    RepeatRepeat(c, a, b, q);
    RepeatIsTimes(c, a * b, q);
    MulMod(j, k, c.order);
  }

  lemma TimesNeg(c: Group, k: int, q: Point)
    requires c.on(q)
    ensures c.Times(-k, q) == c.neg(c.Times(k, q))
  {
    TimesAdd(c, k, -k, q);
    TimesZeroOne(c, q);
    TimesOn(c, k, q);
    TimesOn(c, -k, q);
    NegUnique(c, c.Times(k, q), c.Times(-k, q));
  }

  lemma TimesInfinity(c: Group, k: int)
    ensures c.Times(k, Infinity) == Infinity
  {
    RepeatInfinity(c, k % c.order);
  }

  /** A finite point vanishes at the multiples of the order only. */
  lemma TimesVanishes(c: Group, k: int, q: Point)
    requires c.on(q) && q.Affine?
    ensures c.Times(k, q) == Infinity <==> k % c.order == 0
  {
    TimesZeroOne(c, q);
    if k % c.order == 0 {
      ModSmall(0, c.order);
      TimesCong(c, k, 0, q);
    } else if c.Times(k, q) == Infinity {
      var i := ModInverse(k, c.order);
      InverseMultiplies(k, c.order);
      assert i * k == k * i;
      TimesTimes(c, i, k, q);
      TimesInfinity(c, i);
      ModSmall(1, c.order);
      TimesCong(c, i * k, 1, q);
    }
  }

  lemma TimesInjective(c: Group, j: int, k: int, q: Point)
    requires c.on(q) && q.Affine?
    ensures c.Times(j, q) == c.Times(k, q) <==> j % c.order == k % c.order
  {
    if c.Times(j, q) == c.Times(k, q) {
      TimesNeg(c, k, q);
      TimesOn(c, k, q);
      TimesAdd(c, j, -k, q);
      TimesVanishes(c, j - k, q);
      CongMeansDivides(j, k, c.order);
    }
  }

  lemma {:induction false} DoubleAndAddIsRepeat(c: Group, scalar: nat, result: Point, addend: Point)
    requires c.on(result) && c.on(addend)
    ensures c.DoubleAndAdd(scalar, result, addend) == c.add(result, c.Repeat(scalar, addend))
  {
    if scalar == 0 {
      AddZero(c, result);
    } else {
      var half := scalar / 2;
      var twice := c.add(addend, addend);
      RepeatSum(c, half, addend, addend);
      RepeatAdd(c, half, half, addend);
      RepeatOn(c, half, twice);
      if scalar % 2 == 1 {
        DoubleAndAddIsRepeat(c, half, c.add(result, addend), twice);
        RepeatAdd(c, 1, half + half, addend);
        TimesZeroOne(c, addend);
        ModSmall(1, c.order);
        Assoc(c, result, addend, c.Repeat(half, twice));
      } else {
        DoubleAndAddIsRepeat(c, half, result, twice);
      }
    }
  }

  /** Double-and-add is repeated addition, for every integer scalar. */
  lemma MulIsTimes(c: Group, scalar: int, q: Point)
    requires c.on(q)
    ensures c.Mul(scalar, q) == c.Times(scalar, q)
    ensures c.on(c.Mul(scalar, q))
  {
    TimesOn(c, scalar, q);
    if scalar == 0 {
      TimesZeroOne(c, q);
    } else if q == Infinity {
      TimesInfinity(c, scalar);
    } else {
      DoubleAndAddIsRepeat(c, scalar % c.order, Infinity, q);
      AddZero(c, c.Times(scalar, q));
    }
  }
}
