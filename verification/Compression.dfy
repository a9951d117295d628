/** The 33-byte compressed form of a curve point and its decoder. */
module Compression {
  import opened Arithmetic
  import opened Bytes
  import opened PrimeField
  import opened EllipticCurve

  const FIELD_BYTES := 32

  function PointToBytes(q: Point): (b: seq<byte>)
    ensures |b| == 33 && (q == Infinity <==> b[0] == 0) && (q == Infinity ==> forall i :: 0 <= i < 33 ==> b[i] == 0)
  {
    match q
    case Infinity => seq(33, _ => 0)
    case Affine(x, y) => [if y % 2 == 0 then 2 else 3] + ToBig(x, FIELD_BYTES)
  }

  /** The right side x^3 + 7 as the decoder computes it. */
  function RightSide(p: int, x: int): int
    requires 2 <= p
  {
    (ModPow(x, 3, p) + B) % p
  }

  /** The square root by exponentiation, right only when the argument is a square. */
  function Root(p: int, square: int): (y: int)
    requires 2 <= p
    ensures 0 <= y < p
  {
    ModPow(square, (p + 1) / 4, p)
  }

  /** The point with the given x and parity of y; Infinity when x is on no curve point. */
  function LiftX(p: int, x: nat, even: bool): Point
    requires 2 <= p
  {
    var square := RightSide(p, x);
    var y := Root(p, square);
    if (y * y) % p != square then Infinity
    else if (y % 2 == 0) != even then Affine(x, p - y)
    else Affine(x, y)
  }

  /** The decoder; Infinity is its None, which it also returns for malformed input. */
  function BytesToPoint(p: int, raw: seq<byte>): Point
    requires 2 <= p
  {
    if |raw| != 33 || (raw[0] != 2 && raw[0] != 3) then Infinity
    else if FromBig(raw[1..]) >= p then Infinity
    else LiftX(p, FromBig(raw[1..]), raw[0] == 2)
  }

  /** The primes for which the square root exponent is right and x fits its 32 bytes. */
  ghost predicate CompressionField(p: int) {
    IsPrime(p) && p % 4 == 3 && p <= Pow(256, FIELD_BYTES)
  }

  lemma {:induction false} Cube(x: int)
    ensures Pow(x, 3) == x * x * x
  {
    assert Pow(x, 1) == x;
    assert Pow(x, 2) == x * x;
    assert x * (x * x) == x * x * x;
  }

  lemma RightSideMeetsEquation(p: int, x: int, y: int)
    requires 2 <= p && 0 <= x < p
    ensures (y * y) % p == RightSide(p, x) <==> Equation(x, y) % p == 0
  {
    var power, square := Pow(x, 3), y * y;
    Cube(x);
    ModMod(power, p);
    CongAdd(power % p, power, B, B, p);
    CongMeansDivides(square, power + B, p);
  }

  lemma OppositeParity(p: int, y: int)
    requires p % 4 == 3
    ensures (p - y) % 2 == 0 <==> y % 2 != 0
  {
    DivModForm(p, 4);
    DivModForm(y, 2);
    DivModUnique(p - y, 2, 2 * (p / 4) + 1 - y / 2, 1 - y % 2);
  }

  lemma RootMatches(p: int, square: int, y: int)
    requires IsPrime(p) && p % 4 == 3 && 0 <= y < p && square == (y * y) % p
    ensures var root := Root(p, square);
      && 0 <= root < p
      && (root * root) % p == square
      && (root == y || root == p - y)
  {
    ModMod(y * y, p);
    RootOfSquare(square, y, p);
    RootsAreOpposite(y, Root(p, square), p);
  }

  /** The candidate root is one of the two values of y, whenever there is one. */
  lemma LiftXFinds(p: int, x: nat, y: nat)
    requires IsPrime(p) && p % 4 == 3 && OnCurve(p, Affine(x, y))
    ensures LiftX(p, x, y % 2 == 0) == Affine(x, y)
    ensures forall even :: LiftX(p, x, even).Affine?
  {
    RightSideMeetsEquation(p, x, y);
    RootMatches(p, RightSide(p, x), y);
    OppositeParity(p, y);
  }

  /** A lifted point is on the curve and reduced, except that a root 0 asked to be odd becomes p. */
  lemma LiftXOnCurve(p: int, x: nat, even: bool)
    requires IsPrime(p) && p % 4 == 3 && x < p && LiftX(p, x, even).Affine?
    ensures var q := LiftX(p, x, even);
      && q.x == x
      && (q.y % 2 == 0 <==> even)
      && (OnCurve(p, q) <==> q.y != p)
      && (q.y == p ==> OnCurve(p, Affine(x, 0)))
  {
    var q := LiftX(p, x, even);
    var y := Root(p, RightSide(p, x));
    RightSideMeetsEquation(p, x, y);
    OppositeOnCurve(p, x, y);
    OppositeParity(p, y);
  }

  lemma OppositeOnCurve(p: int, x: nat, y: nat)
    requires 2 <= p && OnCurve(p, Affine(x, y))
    ensures OnCurve(p, Affine(x, p - y)) <==> y != 0
  {
    if y != 0 {
      NegatedY(p, y);
      NegOnCurve(p, Affine(x, y));
    }
  }

  /** Section 2.3.4 of SEC 1 inverts section 2.3.3: every finite reduced curve point survives. */
  lemma DecodeEncode(p: int, q: Point)
    requires CompressionField(p) && q.Affine? && OnCurve(p, q)
    ensures BytesToPoint(p, PointToBytes(q)) == q
  {
    var b := PointToBytes(q);
    assert b[1..] == ToBig(q.x, FIELD_BYTES);
    FromToBig(q.x, FIELD_BYTES);
    LiftXFinds(p, q.x, q.y);
  }

  /** Decoding never merges two encodings: a decoded point encodes to the bytes it came from. */
  lemma EncodeDecode(p: int, raw: seq<byte>)
    requires CompressionField(p) && BytesToPoint(p, raw).Affine?
    ensures PointToBytes(BytesToPoint(p, raw)) == raw
  {
    LiftXOnCurve(p, FromBig(raw[1..]), raw[0] == 2);
    ToFromBig(raw[1..]);
    assert raw == [raw[0]] + raw[1..];
  }

  /** The decoder yields a reduced curve point, except for a root 0 asked for with the odd prefix. */
  lemma DecodedOnCurve(p: int, raw: seq<byte>)
    requires CompressionField(p) && BytesToPoint(p, raw).Affine?
    ensures var q := BytesToPoint(p, raw);
      && (OnCurve(p, q) <==> q.y != p)
      && (q.y == p ==> OnCurve(p, Affine(q.x, 0)))
  {
    LiftXOnCurve(p, FromBig(raw[1..]), raw[0] == 2);
  }

  /** Some curve point has this x. */
  ghost predicate HasPoint(p: int, x: nat) {
    exists y: nat :: OnCurve(p, Affine(x, y))
  }

  lemma LiftXComplete(p: int, x: nat, even: bool)
    requires IsPrime(p) && p % 4 == 3 && x < p
    ensures LiftX(p, x, even).Affine? <==> HasPoint(p, x)
  {
    if HasPoint(p, x) {
      var y: nat :| OnCurve(p, Affine(x, y));
      LiftXFinds(p, x, y);
    }
    if LiftX(p, x, even).Affine? {
      LiftXOnCurve(p, x, even);
      var q := LiftX(p, x, even);
      assert OnCurve(p, Affine(x, if q.y == p then 0 else q.y));
    }
  }

  /** The decoder finds a point for exactly those well-formed encodings whose x is on the curve. */
  lemma DecodeComplete(p: int, raw: seq<byte>)
    requires CompressionField(p)
    ensures BytesToPoint(p, raw).Affine? <==>
      |raw| == 33 && raw[0] in {2, 3} && HasPoint(p, FromBig(raw[1..]))
  {
    if |raw| == 33 && FromBig(raw[1..]) < p {
      LiftXComplete(p, FromBig(raw[1..]), raw[0] == 2);
    }
  }
}
