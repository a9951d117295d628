/** The group the protocols compute in. The operations are a record, so that their laws are used
    only where they are named; module Secp instantiates the record with the affine formulas. */
module CurveGroup {
  import opened Arithmetic
  import opened Bytes
  import opened PrimeField
  import opened EllipticCurve

  datatype Curve = Curve(
    order: pos,
    g: Point,
    h: Point,
    add: (Point, Point) -> Point,
    neg: Point -> Point,
    on: Point -> bool,
    encode: Point -> seq<byte>,
    decode: seq<byte> -> Point)
  {
    /** point + point + ... + point, k times */
    function Repeat(k: nat, q: Point): Point {
      if k == 0 then Infinity else add(Repeat(k - 1, q), q)
    }

    /** Repeated addition for every integer, through its residue */
    function Times(k: int, q: Point): Point {
      Repeat(k % order, q)
    }

    /** The state of the double-and-add loop, run to its end */
    function DoubleAndAdd(scalar: nat, result: Point, addend: Point): Point {
      if scalar == 0 then result
      else DoubleAndAdd(scalar / 2, if scalar % 2 == 1 then add(result, addend) else result, add(addend, addend))
    }

    function Mul(scalar: int, q: Point): Point {
      if scalar == 0 || q == Infinity then Infinity else DoubleAndAdd(scalar % order, Infinity, q)
    }

    ghost predicate Closed() {
      && on(Infinity)
      && (forall a, b {:trigger add(a, b)} :: on(a) && on(b) ==> on(add(a, b)))
    }

    ghost predicate Associative() {
      forall a, b, d {:trigger Chain(a, b, d)} ::
        on(a) && on(b) && on(d) ==> add(add(a, b), d) == add(a, add(b, d))
    }

    /** Every point has the order of the group (cofactor 1). */
    ghost predicate HasOrder() {
      forall q {:trigger Repeat(order, q)} :: on(q) ==> Repeat(order, q) == Infinity
    }

    ghost predicate Encodes() {
      && (forall q {:trigger encode(q)} :: on(q) && q.Affine? ==> decode(encode(q)) == q)
      && (forall b {:trigger decode(b)} :: on(decode(b)))
    }

    ghost predicate Commutative() {
      forall a, b {:trigger add(a, b)} :: on(a) && on(b) ==> add(a, b) == add(b, a)
    }

    ghost predicate HasIdentity() {
      forall a {:trigger add(Infinity, a)} :: on(a) ==> add(Infinity, a) == a
    }

    /** A point and its negation cancel and share their x. */
    ghost predicate HasInverses() {
      && (forall a {:trigger neg(a)} :: on(a) ==> on(neg(a)) && add(a, neg(a)) == Infinity)
      && (forall a {:trigger neg(a)} :: on(a) && a.Affine? ==> neg(a).Affine? && neg(a).x == a.x)
    }

    /** A commutative group of odd prime order with two finite generators and a point encoding. */
    ghost predicate Lawful() {
      && IsPrime(order) && order != 2
      && g.Affine? && h.Affine? && on(g) && on(h)
      && Closed() && Associative() && HasOrder() && Encodes()
      && Commutative() && HasIdentity() && HasInverses()
    }
  }

  /** Names the three points an associativity step is about. */
  ghost predicate Chain(a: Point, b: Point, d: Point) { true }

  lemma {:induction false} RepeatOn(c: Curve, k: nat, q: Point)
    requires c.Closed() && c.on(q)
    ensures c.on(c.Repeat(k, q))
  {
    if k == 0 {
    } else {
      RepeatOn(c, k - 1, q);
    }
  }

  /** Every (result, addend) pair the double-and-add loop passes through. */
  ghost function LoopStates(c: Curve, scalar: nat, result: Point, addend: Point): seq<(Point, Point)> {
    [(result, addend)] +
    if scalar == 0 then []
    else LoopStates(c, scalar / 2, if scalar % 2 == 1 then c.add(result, addend) else result, c.add(addend, addend))
  }

  lemma {:induction false} LoopStatesOn(c: Curve, scalar: nat, result: Point, addend: Point)
    requires c.Closed() && c.on(result) && c.on(addend)
    ensures forall s :: s in LoopStates(c, scalar, result, addend) ==> c.on(s.0) && c.on(s.1)
    ensures c.on(c.DoubleAndAdd(scalar, result, addend))
  {
    if scalar == 0 {
    } else if scalar % 2 == 1 {
      LoopStatesOn(c, scalar / 2, c.add(result, addend), c.add(addend, addend));
    } else {
      LoopStatesOn(c, scalar / 2, result, c.add(addend, addend));
    }
  }

  /** The loop of _point_mul. */
  method PointMul(c: Curve, scalar: int, point: Point) returns (result: Point)
    ensures result == c.Mul(scalar, point)
    ensures c.Closed() && c.on(point) ==> c.on(result)
  {
    if scalar == 0 || point == Infinity {
      return Infinity;
    }
    var k := scalar % c.order;
    result := Infinity;
    var addend := point;
    while k != 0
      invariant 0 <= k
      invariant c.DoubleAndAdd(k, result, addend) == c.Mul(scalar, point)
      invariant c.Closed() && c.on(point) ==> c.on(result) && c.on(addend)
      decreases k
    {
      if k % 2 == 1 {
        result := c.add(result, addend);
      }
      addend := c.add(addend, addend);
      k := k / 2;
    }
  }
}
