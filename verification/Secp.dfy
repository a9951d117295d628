/** The affine formulas as a group record, and the numbers of secp256k1. */
module Secp {
  import opened Arithmetic
  import opened Bytes
  import opened PrimeField
  import opened EllipticCurve
  import opened Compression
  import opened CurveGroup

  const P := 0xFFFFFFFFFFFFFFFFFFFFFFFFFFFFFFFFFFFFFFFFFFFFFFFFFFFFFFFEFFFFFC2F
  const N := 0xFFFFFFFFFFFFFFFFFFFFFFFFFFFFFFFEBAAEDCE6AF48A03BBFD25E8CD0364141
  const GX := 0x79BE667EF9DCBBAC55A06295CE870B07029BFCDB2DCE28D959F2815B16F81798
  const GY := 0x483ADA7726A3C4655DA4FBFC0E1108A8FD17B448A68554199C47D08FFB10D4B8

  /** The operations of the program over the field of p elements. */
  function Weierstrass(p: int, order: pos, g: Point, h: Point): Curve
    requires 2 <= p
  {
    Curve(
      order, g, h,
      (a, b) => PointAdd(p, a, b),
      a => PointNeg(p, a),
      a => OnCurve(p, a),
      a => PointToBytes(a),
      b => BytesToPoint(p, b))
  }

  lemma WeierstrassClosed(p: int, order: pos, g: Point, h: Point)
    requires IsPrime(p) && p != 2
    ensures Weierstrass(p, order, g, h).Closed()
  {
    var c := Weierstrass(p, order, g, h);
    forall a, b | c.on(a) && c.on(b)
      ensures c.on(c.add(a, b))
    {
      AddOnCurve(p, a, b);
    }
  }

  /** Every point the double-and-add loop passes through is on the curve and reduced. */
  lemma {:induction false} MulStaysOnCurve(p: int, order: pos, g: Point, h: Point, scalar: int, q: Point)
    requires IsPrime(p) && p != 2 && OnCurve(p, q)
    ensures var c := Weierstrass(p, order, g, h);
      && OnCurve(p, c.Mul(scalar, q))
      && forall s :: s in LoopStates(c, scalar % order, Infinity, q) ==> OnCurve(p, s.0) && OnCurve(p, s.1)
  {
    WeierstrassClosed(p, order, g, h);
    var c := Weierstrass(p, order, g, h);
    LoopStatesOn(c, scalar % order, Infinity, q);
    forall s | s in LoopStates(c, scalar % order, Infinity, q)
      ensures OnCurve(p, s.0) && OnCurve(p, s.1)
    {
      assert c.on(s.0) && c.on(s.1);
    }
    assert c.on(c.Mul(scalar, q));
  }

  /** A point with y = 0 is its own negation, so repeated addition alternates. */
  lemma {:induction false} OrderTwoAlternates(c: Curve, q: Point, j: nat)
    requires c.add(q, q) == Infinity && c.add(Infinity, q) == q
    ensures c.Repeat(2 * j, q) == Infinity && c.Repeat(2 * j + 1, q) == q
  {
    if j == 0 {
      assert c.Repeat(1, q) == c.add(c.Repeat(0, q), q);
    } else {
      OrderTwoAlternates(c, q, j - 1);
      assert c.Repeat(2 * j, q) == c.add(c.Repeat(2 * j - 1, q), q);
    }
  }

  lemma {:induction false} OddRepeat(c: Curve, q: Point, k: nat)
    requires c.add(q, q) == Infinity && c.add(Infinity, q) == q && k % 2 == 1
    ensures c.Repeat(k, q) == q
  {
    OrderTwoAlternates(c, q, k / 2);
    assert k == 2 * (k / 2) + 1;
  }

  /** In a group of odd order no curve point has y = 0. */
  lemma OrdinateNonzero(p: int, order: pos, g: Point, h: Point, q: Point)
    requires 2 <= p && order % 2 == 1 && Weierstrass(p, order, g, h).HasOrder()
    requires q.Affine? && OnCurve(p, q)
    ensures q.y != 0
  {
    var c := Weierstrass(p, order, g, h);
    assert c.on(q) && c.Repeat(order, q) == Infinity;
    if q.y == 0 {
      OddRepeat(c, q, order);
    }
  }

  lemma DecodesOnCurve(p: int, order: pos, g: Point, h: Point, raw: seq<byte>)
    requires CompressionField(p) && order % 2 == 1
    requires Weierstrass(p, order, g, h).HasOrder()
    ensures OnCurve(p, BytesToPoint(p, raw))
  {
    var q := BytesToPoint(p, raw);
    if q.Affine? {
      DecodedOnCurve(p, raw);
      if OnCurve(p, Affine(q.x, 0)) {
        OrdinateNonzero(p, order, g, h, Affine(q.x, 0));
      }
    }
  }

  lemma WeierstrassEncodes(p: int, order: pos, g: Point, h: Point)
    requires CompressionField(p) && order % 2 == 1
    requires Weierstrass(p, order, g, h).HasOrder()
    ensures Weierstrass(p, order, g, h).Encodes()
  {
    var c := Weierstrass(p, order, g, h);
    forall q | c.on(q) && q.Affine?
      ensures c.decode(c.encode(q)) == q
    {
      DecodeEncode(p, q);
    }
    forall b: seq<byte>
      ensures c.on(c.decode(b))
    {
      DecodesOnCurve(p, order, g, h, b);
    }
  }

  lemma WeierstrassCommutative(p: int, order: pos, g: Point, h: Point)
    requires IsPrime(p) && p != 2
    ensures Weierstrass(p, order, g, h).Commutative()
  {
    var c := Weierstrass(p, order, g, h);
    forall a, b | c.on(a) && c.on(b)
      ensures c.add(a, b) == c.add(b, a)
    {
      AddCommutes(p, a, b);
    }
  }

  lemma WeierstrassInverses(p: int, order: pos, g: Point, h: Point)
    requires IsPrime(p) && p != 2
    ensures Weierstrass(p, order, g, h).HasInverses()
  {
    var c := Weierstrass(p, order, g, h);
    forall a | c.on(a)
      ensures c.on(c.neg(a)) && c.add(a, c.neg(a)) == Infinity
    {
      NegOnCurve(p, a);
      AddNegation(p, a);
    }
  }

  /** The formulas satisfy every group law but the two that are premises: associativity and the order. */
  lemma WeierstrassLawful(p: int, order: pos, g: Point, h: Point)
    requires CompressionField(p) && IsPrime(order) && order != 2
    requires g.Affine? && h.Affine? && OnCurve(p, g) && OnCurve(p, h)
    requires Weierstrass(p, order, g, h).Associative() && Weierstrass(p, order, g, h).HasOrder()
    ensures Weierstrass(p, order, g, h).Lawful()
  {
    WeierstrassClosed(p, order, g, h);
    assert order % 2 != 0;
    WeierstrassEncodes(p, order, g, h);
    WeierstrassCommutative(p, order, g, h);
    WeierstrassInverses(p, order, g, h);
  }

  /** The constants of the program: the field admits compression and G is on the curve. */
  lemma Secp256k1Numbers()
    ensures P % 4 == 3 && P < Pow(256, FIELD_BYTES) && N < P
    ensures OnCurve(P, Affine(GX, GY))
  {
    assert Pow(256, 4) == 0x1_0000_0000 by {
      assert Pow(256, 1) == 256 && Pow(256, 2) == 65536;
    }
    PowAdd(256, 4, 4);
    PowAdd(256, 8, 8);
    PowAdd(256, 16, 16);
  }
}
