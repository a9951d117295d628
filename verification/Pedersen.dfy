/** Pedersen commitments r * g + v * h. */
module Pedersen {
  import opened Bytes
  import opened EllipticCurve
  import opened CurveGroup
  import opened GroupLaws
  import opened Wrappers

  datatype Commitment = Commitment(blinding: int, amount: int, encoded: seq<byte>)

  function Commit(c: Curve, blinding: int, amount: int): Point {
    c.add(c.Mul(blinding, c.g), c.Mul(amount, c.h))
  }

  /** PedersenCommitment.create with the blinding factor given; it raises at infinity. */
  function Create(c: Curve, amount: int, blinding: int): Result<Commitment> {
    var point := Commit(c, blinding, amount);
    if point == Infinity then Failure else Success(Commitment(blinding, amount, c.encode(point)))
  }

  /** The default blinding factor: random bytes reduced, with 0 replaced. */
  function DrawnScalar(c: Curve, random: nat): (r: int)
    requires 2 <= c.order
    ensures 1 <= r < c.order
    ensures r == random % c.order || (r == 1 && random % c.order == 0)
  {
    if random % c.order == 0 then 1 else random % c.order
  }

  /** PedersenCommitment.verify */
  predicate Opens(c: Curve, com: Commitment) {
    var expected := Commit(c, com.blinding, com.amount);
    var actual := c.decode(com.encoded);
    actual != Infinity && expected != Infinity && actual == expected
  }

  lemma CommitIsTimes(c: Group, r: int, v: int)
    ensures Commit(c, r, v) == c.add(c.Times(r, c.g), c.Times(v, c.h))
    ensures c.on(Commit(c, r, v)) && c.on(c.Times(r, c.g)) && c.on(c.Times(v, c.h))
  {
    MulIsTimes(c, r, c.g);
    MulIsTimes(c, v, c.h);
  }

  /** A created commitment opens, and only residues of its pair enter. */
  lemma CreatedOpens(c: Group, amount: int, blinding: int)
    ensures Create(c, amount, blinding).Success? ==> Opens(c, Create(c, amount, blinding).value)
    ensures Create(c, amount, blinding).Success? <==> c.add(c.Times(blinding, c.g), c.Times(amount, c.h)) != Infinity
  {
    CommitIsTimes(c, blinding, amount);
  }

  /** The opening of a commitment is checked against r * G + v * H. */
  lemma OpensExactly(c: Group, com: Commitment)
    ensures Opens(c, com) <==>
      && c.decode(com.encoded) != Infinity
      && c.decode(com.encoded) == c.add(c.Times(com.blinding, c.g), c.Times(com.amount, c.h))
  {
    CommitIsTimes(c, com.blinding, com.amount);
  }

  lemma CommitCong(c: Group, r: int, r': int, v: int, v': int)
    requires r % c.order == r' % c.order && v % c.order == v' % c.order
    ensures Commit(c, r, v) == Commit(c, r', v')
  {
    CommitIsTimes(c, r, v);
    CommitIsTimes(c, r', v');
  }

  /** Commitments add. */
  lemma CommitAdd(c: Group, r: int, v: int, r': int, v': int)
    ensures c.add(Commit(c, r, v), Commit(c, r', v')) == Commit(c, r + r', v + v')
  {
    CommitIsTimes(c, r, v);
    CommitIsTimes(c, r', v');
    CommitIsTimes(c, r + r', v + v');
    Interchange(c, c.Times(r, c.g), c.Times(v, c.h), c.Times(r', c.g), c.Times(v', c.h));
    TimesAdd(c, r, r', c.g);
    TimesAdd(c, v, v', c.h);
  }

  /** Commitments scale. */
  lemma CommitScale(c: Group, k: int, r: int, v: int)
    ensures c.Times(k, Commit(c, r, v)) == Commit(c, k * r, k * v)
  {
    CommitIsTimes(c, r, v);
    CommitIsTimes(c, k * r, k * v);
    TimesSum(c, k, c.Times(r, c.g), c.Times(v, c.h));
    TimesTimes(c, k, r, c.g);
    TimesTimes(c, k, v, c.h);
  }

  lemma CommitNeg(c: Group, r: int, v: int)
    ensures c.neg(Commit(c, r, v)) == Commit(c, -r, -v)
  {
    CommitIsTimes(c, r, v);
    CommitScale(c, -1, r, v);
    TimesNeg(c, 1, Commit(c, r, v));
    TimesZeroOne(c, Commit(c, r, v));
    assert -1 * r == -r && -1 * v == -v;
  }

  /** Commitments subtract. */
  lemma CommitSub(c: Group, r: int, v: int, r': int, v': int, rest: int)
    requires rest == v - v'
    ensures c.add(Commit(c, r, v), c.neg(Commit(c, r', v'))) == Commit(c, r - r', rest)
  {
    CommitNeg(c, r', v');
    CommitAdd(c, r, v, -r', -v');
  }

  lemma CommitParts(c: Group, r: int, v: int)
    ensures Commit(c, r, 0) == c.Mul(r, c.g) == c.Times(r, c.g)
    ensures Commit(c, 0, v) == c.Mul(v, c.h) == c.Times(v, c.h)
  {
    CommitIsTimes(c, r, 0);
    CommitIsTimes(c, 0, v);
    MulIsTimes(c, r, c.g);
    MulIsTimes(c, v, c.h);
    AddZero(c, c.Times(r, c.g));
    AddZero(c, c.Times(v, c.h));
  }

  /** Under one blinding, commitments are equal exactly when the amounts agree modulo the order. */
  lemma CommitSeparates(c: Group, r: int, v: int, v': int)
    ensures Commit(c, r, v) == Commit(c, r, v') <==> v % c.order == v' % c.order
  {
    CommitIsTimes(c, r, v);
    CommitIsTimes(c, r, v');
    TimesInjective(c, v, v', c.h);
    if Commit(c, r, v) == Commit(c, r, v') {
      CancelLeft(c, c.Times(r, c.g), c.Times(v, c.h), c.Times(v', c.h));
    }
  }
}
