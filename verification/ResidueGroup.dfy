/** A model of the group laws for every odd prime order: residues, dressed as points so that a
    residue and its negation share their x. It shows that Curve.Lawful is consistent. */
module ResidueGroup {
  import opened Arithmetic
  import opened Bytes
  import opened PrimeField
  import opened EllipticCurve
  import opened CurveGroup

  function ToPoint(k: nat, n: pos): Point {
    if k == 0 || n <= k then Infinity
    else if 2 * k < n then Affine(k, 0)
    else Affine(n - k, 1)
  }

  function Index(q: Point, n: pos): nat {
    if q == Infinity || n <= q.x then 0
    else if q.y == 0 then q.x
    else n - q.x
  }

  predicate IsResidue(q: Point, n: pos) {
    q == ToPoint(Index(q, n), n)
  }

  /** x in unary, then y */
  function Encode(q: Point): seq<byte> {
    if q == Infinity then [] else seq(q.x, _ => 0) + [q.y % 256]
  }

  function Decode(b: seq<byte>, n: pos): Point {
    if b == [] then Infinity
    else
      var q := Affine(|b| - 1, b[|b| - 1]);
      if IsResidue(q, n) then q else Infinity
  }

  function Residues(n: pos): Curve {
    Curve(
      n, ToPoint(1, n), ToPoint(2 % n, n),
      (a, b) => Sum(a, b, n),
      a => ToPoint((n - Index(a, n)) % n, n),
      a => IsResidue(a, n),
      a => Encode(a),
      b => Decode(b, n))
  }

  lemma IndexToPoint(k: nat, n: pos)
    requires k < n
    ensures Index(ToPoint(k, n), n) == k && IsResidue(ToPoint(k, n), n)
  {}

  function Sum(a: Point, b: Point, n: pos): Point {
    ToPoint((Index(a, n) + Index(b, n)) % n, n)
  }

  lemma ResidueSum(a: Point, b: Point, n: pos)
    requires IsResidue(a, n) && IsResidue(b, n)
    ensures IsResidue(Sum(a, b, n), n) && Index(Sum(a, b, n), n) == (Index(a, n) + Index(b, n)) % n
  {
    IndexToPoint((Index(a, n) + Index(b, n)) % n, n);
  }

  lemma AddModAssociates(i: int, j: int, k: int, n: pos)
    ensures ((i + j) % n + k) % n == (i + (j + k) % n) % n
  {
    ModMod(i + j, n);
    ModMod(j + k, n);
    CongAdd((i + j) % n, i + j, k, k, n);
    CongAdd(i, i, (j + k) % n, j + k, n);
  }

  lemma SumOfPoints(i: nat, j: nat, n: pos)
    requires i < n && j < n
    ensures Sum(ToPoint(i, n), ToPoint(j, n), n) == ToPoint((i + j) % n, n)
  {
    IndexToPoint(i, n);
    IndexToPoint(j, n);
  }

  lemma PointsAssociate(i: nat, j: nat, k: nat, n: pos)
    requires i < n && j < n && k < n
    ensures Sum(Sum(ToPoint(i, n), ToPoint(j, n), n), ToPoint(k, n), n)
         == Sum(ToPoint(i, n), Sum(ToPoint(j, n), ToPoint(k, n), n), n)
  {
    SumOfPoints(i, j, n);
    SumOfPoints((i + j) % n, k, n);
    SumOfPoints(j, k, n);
    SumOfPoints(i, (j + k) % n, n);
    AddModAssociates(i, j, k, n);
  }

  lemma IndexInRange(a: Point, n: pos)
    requires IsResidue(a, n)
    ensures Index(a, n) < n
  {}

  lemma ResidueAssociates(a: Point, b: Point, d: Point, n: pos)
    requires IsResidue(a, n) && IsResidue(b, n) && IsResidue(d, n)
    ensures Sum(Sum(a, b, n), d, n) == Sum(a, Sum(b, d, n), n)
  {
    IndexInRange(a, n);
    IndexInRange(b, n);
    IndexInRange(d, n);
    PointsAssociate(Index(a, n), Index(b, n), Index(d, n), n);
  }

  /** One more summand */
  lemma NextMultiple(k: nat, i: nat, n: pos)
    ensures ((k * i) % n + i) % n == ((k + 1) * i) % n
  {
    assert (k + 1) * i == k * i + i;
    ModMod(k * i, n);
    CongAdd((k * i) % n, k * i, i, i, n);
  }

  lemma PointPlus(k: nat, i: nat, n: pos)
    requires i < n
    ensures Sum(ToPoint((k * i) % n, n), ToPoint(i, n), n) == ToPoint(((k + 1) * i) % n, n)
  {
    SumOfPoints((k * i) % n, i, n);
    NextMultiple(k, i, n);
  }

  lemma {:induction false} PointRepeat(i: nat, k: nat, n: pos)
    requires i < n
    ensures Residues(n).Repeat(k, ToPoint(i, n)) == ToPoint((k * i) % n, n)
  {
    if k == 0 {
      assert k * i == 0;
      ModSmall(0, n);
    } else {
      PointRepeat(i, k - 1, n);
      PointPlus(k - 1, i, n);
    }
  }

  lemma {:induction false} ResidueRepeat(q: Point, k: nat, n: pos)
    requires IsResidue(q, n)
    ensures Residues(n).Repeat(k, q) == ToPoint((k * Index(q, n)) % n, n)
  {
    IndexInRange(q, n);
    PointRepeat(Index(q, n), k, n);
  }

  lemma {:induction false} ResidueOrder(q: Point, n: pos)
    requires IsResidue(q, n)
    ensures Residues(n).Repeat(n, q) == Infinity
  {
    ResidueRepeat(q, n, n);
    ModOfMultiple(0, Index(q, n), n);
    ModSmall(0, n);
    assert n * Index(q, n) == 0 + Index(q, n) * n;
  }

  lemma ResidueNegation(a: Point, n: pos)
    requires IsResidue(a, n) && n % 2 == 1
    ensures var c := Residues(n);
      && c.on(c.neg(a)) && c.add(a, c.neg(a)) == Infinity
      && (a.Affine? ==> c.neg(a).Affine? && c.neg(a).x == a.x)
  {
    var i := Index(a, n);
    if i == 0 {
      ModOfMultiple(0, 1, n);
      ModSmall(0, n);
    } else {
      ModSmall(n - i, n);
      IndexToPoint(n - i, n);
      ModOfMultiple(0, 1, n);
      ModSmall(0, n);
    }
  }

  lemma ResiduesClosed(n: pos)
    ensures Residues(n).Closed() && Residues(n).Commutative()
  {
    var c := Residues(n);
    forall a, b | c.on(a) && c.on(b)
      ensures c.on(c.add(a, b)) && c.add(a, b) == c.add(b, a)
    {
      ResidueSum(a, b, n);
    }
  }

  lemma ResiduesAssociative(n: pos)
    ensures Residues(n).Associative()
  {
    var c := Residues(n);
    forall a, b, d | c.on(a) && c.on(b) && c.on(d)
      ensures c.add(c.add(a, b), d) == c.add(a, c.add(b, d))
    {
      ResidueAssociates(a, b, d, n);
    }
  }

  lemma ResiduesHaveIdentity(n: pos)
    ensures Residues(n).HasIdentity()
  {
    var c := Residues(n);
    forall a | c.on(a)
      ensures c.add(Infinity, a) == a
    {
      ModSmall(Index(a, n), n);
    }
  }

  lemma ResiduesHaveInverses(n: pos)
    requires n % 2 == 1
    ensures Residues(n).HasInverses()
  {
    var c := Residues(n);
    forall a | c.on(a)
      ensures c.on(c.neg(a)) && c.add(a, c.neg(a)) == Infinity
      ensures a.Affine? ==> c.neg(a).Affine? && c.neg(a).x == a.x
    {
      ResidueNegation(a, n);
    }
  }

  lemma EncodeRoundTrip(q: Point, n: pos)
    requires IsResidue(q, n)
    ensures Decode(Encode(q), n) == q
  {
    if q.Affine? {
      assert q.y < 2;
      var b := Encode(q);
      assert |b| == q.x + 1 && b[q.x] == q.y;
    }
  }

  lemma ResiduesEncode(n: pos)
    ensures Residues(n).Encodes()
  {
    var c := Residues(n);
    forall q | c.on(q) && q.Affine?
      ensures c.decode(c.encode(q)) == q
    {
      EncodeRoundTrip(q, n);
    }
  }

  /** The laws hold in the residues modulo any odd prime. */
  lemma ResiduesLawful(n: pos)
    requires IsPrime(n) && n != 2
    ensures Residues(n).Lawful()
  {
    assert n % 2 != 0;
    ModSmall(2, n);
    ResiduesClosed(n);
    ResiduesAssociative(n);
    ResiduesHaveIdentity(n);
    ResiduesHaveInverses(n);
    ResiduesEncode(n);
    var c := Residues(n);
    forall q | c.on(q)
      ensures c.Repeat(c.order, q) == Infinity
    {
      ResidueOrder(q, n);
    }
  }
}
