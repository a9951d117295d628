/** The bit-decomposition range proof: one commitment and one Schnorr response for each bit. */
module RangeProof {
  import opened Arithmetic
  import opened Bytes
  import opened PrimeField
  import opened EllipticCurve
  import opened CurveGroup
  import opened GroupLaws
  import opened Pedersen
  import opened Wrappers

  const RANGE_PROOF_BITS := 64

  datatype BitProof = BitProof(
    commitment: seq<byte>, bitValue: int, nonceR: seq<byte>, challenge: int, response: int)

  datatype RangeProofData = RangeProofData(
    valueCommitment: seq<byte>, bitCommitments: seq<seq<byte>>, bitProofs: seq<BitProof>,
    bitBlindings: seq<int>, totalBlinding: int)

  /** SHA-256 of the commitment, the nonce point and the bit index, as a number */
  type ChallengeHash = (seq<byte>, seq<byte>, nat) -> nat

  // ----- Numbers -----

  function Bit(value: nat, i: nat): (b: int)
    ensures b == 0 || b == 1
  {
    value / Pow(2, i) % 2
  }

  /** sum of xs[i] * 2^i over i < k */
  function WeightedSum(xs: seq<int>, k: nat): int
    requires k <= |xs|
  {
    if k == 0 then 0 else WeightedSum(xs, k - 1) + Pow(2, k - 1) * xs[k - 1]
  }

  function Bits(value: nat, n: nat): seq<int> {
    seq(n, i requires 0 <= i < n => Bit(value, i))
  }

  lemma {:induction false} WeightedSumPrefix(xs: seq<int>, ys: seq<int>, k: nat)
    requires k <= |xs| && k <= |ys| && xs[..k] == ys[..k]
    ensures WeightedSum(xs, k) == WeightedSum(ys, k)
  {
    if k == 0 {
    } else {
      assert xs[k - 1] == xs[..k][k - 1] == ys[..k][k - 1] == ys[k - 1];
      assert xs[..k - 1] == xs[..k][..k - 1] == ys[..k][..k - 1] == ys[..k - 1];
      WeightedSumPrefix(xs, ys, k - 1);
    }
  }

  lemma {:induction false} BitsSum(value: nat, n: nat, k: nat)
    requires k <= n
    ensures WeightedSum(Bits(value, n), k) == value % Pow(2, k)
  {
    if k == 0 {
    } else {
      BitsSum(value, n, k - 1);
      ModDouble(value, Pow(2, k - 1));
    }
  }

  /** The next binary digit extends the remainder. */
  lemma ModDouble(a: nat, m: nat)
    requires 0 < m
    ensures a % (2 * m) == a % m + m * (a / m % 2)
  {
    var q, b := a / m / 2, a / m % 2;
    var r := a % m + m * b;
    DivModForm(a, m);
    assert a / m == 2 * q + b;
    assert (2 * q + b) * m == q * (2 * m) + m * b;
    MulMonotone(m, m, b, 1);
    DivModUnique(a, 2 * m, q, r);
  }

  /** Sums of bits fill the range [0, 2^k). */
  lemma {:induction false} ZeroOneSum(xs: seq<int>, k: nat)
    requires k <= |xs| && forall i :: 0 <= i < k ==> xs[i] == 0 || xs[i] == 1
    ensures 0 <= WeightedSum(xs, k) < Pow(2, k)
  {
    if k == 0 {
    } else {
      ZeroOneSum(xs, k - 1);
      assert Pow(2, k) == 2 * Pow(2, k - 1);
    }
  }

  // ----- Creating -----

  /** The drawn blindings, with the last one solved for so that the weighted sum is the total. */
  function Blindings(c: Curve, n: nat, total: int, random: seq<nat>): (b: seq<int>)
    requires 2 <= c.order && 1 <= n == |random|
    ensures |b| == n
  {
    var drawn := seq(n, i requires 0 <= i < n => random[i] % c.order);
    var running := WeightedSum(drawn, n - 1) % c.order;
    drawn[n - 1 := ((total - running) * ModInverse(ModPow(2, n - 1, c.order), c.order)) % c.order]
  }

  lemma {:induction false} PowerOfTwoInvertible(m: int, k: nat)
    requires IsPrime(m) && m != 2
    ensures Pow(2, k) % m != 0
  {
    if k == 0 {
      ModSmall(1, m);
    } else {
      PowerOfTwoInvertible(m, k - 1);
      if Pow(2, k) % m == 0 {
        NoZeroDivisors(m, 2, Pow(2, k - 1));
        ModSmall(2, m);
      }
    }
  }

  lemma {:induction false} BlindingsSum(c: Curve, n: nat, total: int, random: seq<nat>)
    requires IsPrime(c.order) && c.order != 2 && 1 <= n == |random|
    ensures WeightedSum(Blindings(c, n, total, random), n) % c.order == total % c.order
  {
    var m := c.order;
    var b := Blindings(c, n, total, random);
    var drawn := seq(n, i requires 0 <= i < n => random[i] % m);
    WeightedSumPrefix(b, drawn, n - 1);
    var sum := WeightedSum(drawn, n - 1);
    var running := sum % m;
    ModMod(sum, m);
    var w, p := Pow(2, n - 1), ModPow(2, n - 1, m);
    PowerOfTwoInvertible(m, n - 1);
    ModMod(w, m);
    var d := total - running;
    InverseCancels(p, d, m);
    var x := d * ModInverse(p, m);
    ModMod(x, m);
    CongMul(w, p, x % m, x, m);
    assert p * x == x * p;
    CongAdd(sum, running, w * (x % m), d, m);
  }

  /** All blindings but the last are as drawn. */
  lemma BlindingsAreDrawn(c: Curve, n: nat, total: int, random: seq<nat>, i: nat)
    requires 2 <= c.order && 1 <= n == |random| && i < n - 1
    ensures Blindings(c, n, total, random)[i] == random[i] % c.order
  {}

  /** The commitment and the Schnorr proof of one bit. */
  function HonestBit(c: Curve, i: nat, bit: int, blinding: int, random: nat, hash: ChallengeHash): BitProof
    requires 2 <= c.order
  {
    var commitment := c.encode(Commit(c, blinding, bit));
    var k := DrawnScalar(c, random);
    var nonceR := c.encode(c.Mul(k, c.g));
    var e := hash(commitment, nonceR, i) % c.order;
    BitProof(commitment, bit, nonceR, e, (k + e * blinding) % c.order)
  }

  /** What a successful create returns. */
  ghost predicate Honest(c: Curve, n: nat, value: nat, total: int, random: seq<nat>, nonces: seq<nat>,
                         hash: ChallengeHash, proof: RangeProofData)
    requires 2 <= c.order && 1 <= n == |random| == |nonces|
  {
    && proof.totalBlinding == total
    && proof.bitBlindings == Blindings(c, n, total, random)
    && proof.valueCommitment == c.encode(Commit(c, total, value))
    && |proof.bitProofs| == |proof.bitCommitments| == n
    && forall i :: 0 <= i < n ==>
        && proof.bitProofs[i] == HonestBit(c, i, Bit(value, i), proof.bitBlindings[i], nonces[i], hash)
        && proof.bitCommitments[i] == proof.bitProofs[i].commitment
  }

  /** The inputs for which no commitment is the point at infinity. */
  ghost predicate AllFinite(c: Curve, n: nat, value: nat, total: int, random: seq<nat>)
    requires 2 <= c.order && 1 <= n == |random|
  {
    && Commit(c, total, value).Affine?
    && forall i :: 0 <= i < n ==> Commit(c, Blindings(c, n, total, random)[i], Bit(value, i)).Affine?
  }

  /** RangeProof.create for any number of bits, the random draws being parameters. */
  method CreateProof(c: Curve, n: nat, value: int, total: int, random: seq<nat>, nonces: seq<nat>, hash: ChallengeHash)
    returns (r: Result<RangeProofData>)
    requires 2 <= c.order && 1 <= n == |random| == |nonces|
    ensures r.Success? <==> 0 <= value < Pow(2, n) && AllFinite(c, n, value, total, random)
    ensures r.Success? ==> Honest(c, n, value, total, random, nonces, hash, r.value)
  {
    if value < 0 || value >= Pow(2, n) {
      return Failure;
    }
    var blindings := Blindings(c, n, total, random);
    var commitments: seq<seq<byte>> := [];
    for i := 0 to n
      invariant |commitments| == i
      invariant forall j :: 0 <= j < i ==> Commit(c, blindings[j], Bit(value, j)).Affine?
      invariant forall j :: 0 <= j < i ==> commitments[j] == c.encode(Commit(c, blindings[j], Bit(value, j)))
    {
      var commitment := Create(c, Bit(value, i), blindings[i]);
      if commitment.Failure? {
        return Failure;
      }
      commitments := commitments + [commitment.value.encoded];
    }
    var proofs: seq<BitProof> := [];
    for i := 0 to n
      invariant |proofs| == i
      invariant forall j :: 0 <= j < i ==> proofs[j] == HonestBit(c, j, Bit(value, j), blindings[j], nonces[j], hash)
    {
      var k := DrawnScalar(c, nonces[i]);
      var nonceR := c.encode(c.Mul(k, c.g));
      var e := hash(commitments[i], nonceR, i) % c.order;
      var s := (k + e * blindings[i]) % c.order;
      proofs := proofs + [BitProof(commitments[i], Bit(value, i), nonceR, e, s)];
    }
    var whole := Create(c, value, total);
    if whole.Failure? {
      return Failure;
    }
    return Success(RangeProofData(whole.value.encoded, commitments, proofs, blindings, total));
  }

  // ----- Verifying -----

  /** C - b * h, as the verifier forms it */
  function Unshift(c: Curve, commitment: Point, bit: int): Point {
    var shift := c.Mul(bit, c.h);
    if shift != Infinity then c.add(commitment, c.neg(shift)) else commitment
  }

  predicate BitAccepts(c: Curve, b: BitProof) {
    var commitment, nonce := c.decode(b.commitment), c.decode(b.nonceR);
    && commitment != Infinity && nonce != Infinity
    && c.Mul(b.response, c.g) == c.add(nonce, c.Mul(b.challenge, Unshift(c, commitment, b.bitValue)))
  }

  /** The sum of 2^i times the i-th bit commitment, over i < k */
  function ScaledTotal(c: Curve, proofs: seq<BitProof>, k: nat): Point
    requires k <= |proofs|
  {
    if k == 0 then Infinity
    else c.add(ScaledTotal(c, proofs, k - 1), c.Mul(Pow(2, k - 1), c.decode(proofs[k - 1].commitment)))
  }

  predicate Accepts(c: Curve, proof: RangeProofData) {
    && (forall i :: 0 <= i < |proof.bitProofs| ==> BitAccepts(c, proof.bitProofs[i]))
    && c.decode(proof.valueCommitment) != Infinity
    && ScaledTotal(c, proof.bitProofs, |proof.bitProofs|) == c.decode(proof.valueCommitment)
  }

  /** RangeProof.verify */
  method VerifyProof(c: Curve, proof: RangeProofData) returns (ok: bool)
    ensures ok == Accepts(c, proof)
  {
    for i := 0 to |proof.bitProofs|
      invariant forall j :: 0 <= j < i ==> BitAccepts(c, proof.bitProofs[j])
    {
      var b := proof.bitProofs[i];
      var commitment, nonce := c.decode(b.commitment), c.decode(b.nonceR);
      if commitment == Infinity || nonce == Infinity {
        return false;
      }
      var shift := c.Mul(b.bitValue, c.h);
      var unshifted := if shift != Infinity then c.add(commitment, c.neg(shift)) else commitment;
      var left := c.Mul(b.response, c.g);
      var right := c.add(nonce, c.Mul(b.challenge, unshifted));
      if left != right {
        return false;
      }
    }
    var total := Infinity;
    for i := 0 to |proof.bitProofs|
      invariant total == ScaledTotal(c, proof.bitProofs, i)
    {
      var commitment := c.decode(proof.bitProofs[i].commitment);
      assert BitAccepts(c, proof.bitProofs[i]);
      if commitment == Infinity {
        assert false; // the first loop has decoded every commitment
        return false;
      }
      var scaled := c.Mul(Pow(2, i), commitment);
      total := c.add(total, scaled);
    }
    var expected := c.decode(proof.valueCommitment);
    if expected == Infinity {
      return false;
    }
    return total == expected;
  }

  // ----- Completeness -----

  lemma UnshiftOfCommit(c: Group, r: int, bit: int)
    ensures Unshift(c, Commit(c, r, bit), bit) == c.Times(r, c.g)
  {
    CommitParts(c, r, bit);
    var shift := c.Mul(bit, c.h);
    if shift != Infinity {
      CommitNeg(c, 0, bit);
      CommitAdd(c, r, bit, 0, -bit);
    } else {
      CommitIsTimes(c, r, bit);
      AddZero(c, c.Times(r, c.g));
    }
  }

  /** s * G = R + e * (C - b * H), for a finite commitment */
  lemma HonestBitAccepts(c: Group, i: nat, bit: int, blinding: int, random: nat, hash: ChallengeHash)
    requires Commit(c, blinding, bit).Affine?
    ensures BitAccepts(c, HonestBit(c, i, bit, blinding, random, hash))
    ensures c.decode(HonestBit(c, i, bit, blinding, random, hash).commitment) == Commit(c, blinding, bit)
    ensures c.decode(HonestBit(c, i, bit, blinding, random, hash).nonceR) == c.Times(DrawnScalar(c, random), c.g)
    ensures 0 <= HonestBit(c, i, bit, blinding, random, hash).response < c.order
  {
    var b := HonestBit(c, i, bit, blinding, random, hash);
    var k, e := DrawnScalar(c, random), b.challenge;
    CommitIsTimes(c, blinding, bit);
    ModSmall(k, c.order);
    MulIsTimes(c, k, c.g);
    TimesVanishes(c, k, c.g);
    UnshiftOfCommit(c, blinding, bit);
    MulIsTimes(c, e, c.Times(blinding, c.g));
    TimesTimes(c, e, blinding, c.g);
    TimesAdd(c, k, e * blinding, c.g);
    MulIsTimes(c, b.response, c.g);
    ModMod(k + e * blinding, c.order);
    TimesCong(c, b.response, k + e * blinding, c.g);
  }

  /** A commitment at weight w, added to another */
  lemma AddScaled(c: Group, x: int, v: int, w: int, r: int, b: int)
    ensures c.add(Commit(c, x, v), c.Mul(w, Commit(c, r, b))) == Commit(c, x + w * r, v + w * b)
  {
    CommitIsTimes(c, r, b);
    MulIsTimes(c, w, Commit(c, r, b));
    CommitScale(c, w, r, b);
    CommitAdd(c, x, v, w * r, w * b);
  }

  lemma {:induction false} CommitToNothing(c: Group)
    ensures Commit(c, 0, 0) == Infinity
  {
    CommitParts(c, 0, 0);
    TimesZeroOne(c, c.g);
  }

  lemma {:induction false} ScaledOneMore(c: Group, proofs: seq<BitProof>, rs: seq<int>, bits: seq<int>, k: nat)
    requires 0 < k <= |proofs| && k <= |rs| && k <= |bits|
    requires c.decode(proofs[k - 1].commitment) == Commit(c, rs[k - 1], bits[k - 1])
    requires ScaledTotal(c, proofs, k - 1) == Commit(c, WeightedSum(rs, k - 1), WeightedSum(bits, k - 1))
    ensures ScaledTotal(c, proofs, k) == Commit(c, WeightedSum(rs, k), WeightedSum(bits, k))
  {
    AddScaled(c, WeightedSum(rs, k - 1), WeightedSum(bits, k - 1), Pow(2, k - 1), rs[k - 1], bits[k - 1]);
  }

  /** Commitments to xs and bits at weights 2^i add up to one commitment to both weighted sums. */
  lemma {:induction false} ScaledTotalIsCommit(c: Group, proofs: seq<BitProof>, rs: seq<int>, bits: seq<int>, k: nat)
    requires k <= |proofs| && k <= |rs| && k <= |bits|
    requires forall i {:trigger proofs[i]} :: 0 <= i < k ==> c.decode(proofs[i].commitment) == Commit(c, rs[i], bits[i])
    ensures ScaledTotal(c, proofs, k) == Commit(c, WeightedSum(rs, k), WeightedSum(bits, k))
  {
    if k == 0 {
      CommitToNothing(c);
    } else {
      ScaledTotalIsCommit(c, proofs, rs, bits, k - 1);
      ScaledOneMore(c, proofs, rs, bits, k);
    }
  }

  /** Honest responses to any claimed bit values are accepted, whatever they are and however many: only the
      weighted sums have to agree with the value commitment, modulo the order. */
  lemma {:induction false} ClaimsAccepted(c: Group, proof: RangeProofData, bits: seq<int>, rs: seq<int>,
        nonces: seq<nat>, hash: ChallengeHash, value: int, total: int)
    requires |proof.bitProofs| == |bits| == |rs| == |nonces|
    requires forall i :: 0 <= i < |bits| ==>
      && Commit(c, rs[i], bits[i]).Affine?
      && proof.bitProofs[i] == HonestBit(c, i, bits[i], rs[i], nonces[i], hash)
    requires Commit(c, total, value).Affine? && proof.valueCommitment == c.encode(Commit(c, total, value))
    requires WeightedSum(rs, |rs|) % c.order == total % c.order
    requires WeightedSum(bits, |bits|) % c.order == value % c.order
    ensures Accepts(c, proof)
  {
    var n := |bits|;
    forall i | 0 <= i < n
      ensures BitAccepts(c, proof.bitProofs[i])
      ensures c.decode(proof.bitProofs[i].commitment) == Commit(c, rs[i], bits[i])
    {
      HonestBitAccepts(c, i, bits[i], rs[i], nonces[i], hash);
    }
    ScaledTotalIsCommit(c, proof.bitProofs, rs, bits, n);
    CommitCong(c, WeightedSum(rs, n), total, WeightedSum(bits, n), value);
    CommitIsTimes(c, total, value);
  }

  /** Every proof that create returns is accepted by verify. */
  lemma {:induction false} Completeness(c: Group, n: nat, value: nat, total: int, random: seq<nat>, nonces: seq<nat>,
        hash: ChallengeHash, proof: RangeProofData)
    requires 1 <= n == |random| == |nonces| && value < Pow(2, n)
    requires AllFinite(c, n, value, total, random)
    requires Honest(c, n, value, total, random, nonces, hash, proof)
    ensures Accepts(c, proof)
  {
    BlindingsSum(c, n, total, random);
    BitsSum(value, n, n);
    ModSmall(value, Pow(2, n));
    ClaimsAccepted(c, proof, Bits(value, n), proof.bitBlindings, nonces, hash, value, total);
  }

  /** create followed by verify, at the program's 64 bits */
  method CreateThenVerify(c: Group, value: int, total: int, random: seq<nat>, nonces: seq<nat>, hash: ChallengeHash)
    returns (created: bool, verified: bool)
    requires |random| == |nonces| == 64
    ensures created ==> verified
  {
    var r := CreateProof(c, RANGE_PROOF_BITS, value, total, random, nonces, hash);
    if r.Failure? {
      return false, false;
    }
    Completeness(c, RANGE_PROOF_BITS, value, total, random, nonces, hash, r.value);
    verified := VerifyProof(c, r.value);
    return true, verified;
  }

  // ----- Extraction -----

  /** Two proofs with the same commitments, nonces and claimed bits, answering different challenges. */
  ghost predicate Forked(c: Curve, a: RangeProofData, b: RangeProofData) {
    && |a.bitProofs| == |b.bitProofs|
    && a.valueCommitment == b.valueCommitment
    && forall i :: 0 <= i < |a.bitProofs| ==>
        var x, y := a.bitProofs[i], b.bitProofs[i];
        && x.commitment == y.commitment && x.nonceR == y.nonceR && x.bitValue == y.bitValue
        && x.challenge % c.order != y.challenge % c.order
  }

  /** (s - s') / (e - e') */
  function ExtractBlinding(c: Curve, x: BitProof, y: BitProof): int
    requires 2 <= c.order
  {
    (x.response - y.response) * ModInverse(x.challenge - y.challenge, c.order)
  }

  function ExtractBlindings(c: Curve, a: RangeProofData, b: RangeProofData): seq<int>
    requires 2 <= c.order && |a.bitProofs| == |b.bitProofs|
  {
    seq(|a.bitProofs|, i requires 0 <= i < |a.bitProofs| => ExtractBlinding(c, a.bitProofs[i], b.bitProofs[i]))
  }

  function BitValues(proofs: seq<BitProof>): seq<int> {
    seq(|proofs|, i requires 0 <= i < |proofs| => proofs[i].bitValue)
  }

  /** From s * G = R + e * X and s' * G = R + e' * X: X = ((s - s') / (e - e')) * G. */
  lemma SchnorrExtract(c: Group, nonce: Point, x: Point, s: int, s': int, e: int, e': int)
    requires c.on(nonce) && c.on(x) && e % c.order != e' % c.order
    requires c.Times(s, c.g) == c.add(nonce, c.Times(e, x))
    requires c.Times(s', c.g) == c.add(nonce, c.Times(e', x))
    ensures x == c.Times((s - s') * ModInverse(e - e', c.order), c.g)
  {
    var d, i := e - e', ModInverse(e - e', c.order);
    // (s - s') * G = (e - e') * X
    TimesOn(c, e, x);
    TimesOn(c, e', x);
    TimesOn(c, d, x);
    TimesOn(c, s - s', c.g);
    TimesOn(c, s', c.g);
    TimesAdd(c, s', s - s', c.g);
    TimesAdd(c, e', d, x);
    Assoc(c, nonce, c.Times(e', x), c.Times(d, x));
    CancelLeft(c, c.Times(s', c.g), c.Times(s - s', c.g), c.Times(d, x));
    // multiply by the inverse
    CongMeansDivides(e, e', c.order);
    InverseMultiplies(d, c.order);
    ModSmall(1, c.order);
    TimesTimes(c, i, s - s', c.g);
    TimesTimes(c, i, d, x);
    assert i * d == d * i && i * (s - s') == (s - s') * i;
    TimesCong(c, i * d, 1, x);
    TimesZeroOne(c, x);
  }

  /** One forked bit opens its commitment to the claimed bit. */
  lemma BitExtract(c: Group, x: BitProof, y: BitProof)
    requires BitAccepts(c, x) && BitAccepts(c, y)
    requires x.commitment == y.commitment && x.nonceR == y.nonceR && x.bitValue == y.bitValue
    requires x.challenge % c.order != y.challenge % c.order
    ensures c.decode(x.commitment) == Commit(c, ExtractBlinding(c, x, y), x.bitValue)
  {
    var commitment, nonce := c.decode(x.commitment), c.decode(x.nonceR);
    var u := Unshift(c, commitment, x.bitValue);
    var shift := c.Mul(x.bitValue, c.h);
    MulIsTimes(c, x.bitValue, c.h);
    MulIsTimes(c, x.response, c.g);
    MulIsTimes(c, y.response, c.g);
    MulIsTimes(c, x.challenge, u);
    MulIsTimes(c, y.challenge, u);
    SchnorrExtract(c, nonce, u, x.response, y.response, x.challenge, y.challenge);
    var r := ExtractBlinding(c, x, y);
    CommitIsTimes(c, r, x.bitValue);
    AddZero(c, commitment);
    if shift != Infinity {
      Assoc(c, commitment, c.neg(shift), shift);
    }
  }

  /** What the claimed bits of a proof add up to; verify checks neither their values nor their number. */
  function ClaimedTotal(proof: RangeProofData): int {
    WeightedSum(BitValues(proof.bitProofs), |proof.bitProofs|)
  }

  /** The check that verify leaves out */
  predicate AreBits(proof: RangeProofData) {
    forall i :: 0 <= i < |proof.bitProofs| ==> proof.bitProofs[i].bitValue == 0 || proof.bitProofs[i].bitValue == 1
  }

  function ExtractedBlinding(c: Curve, a: RangeProofData, b: RangeProofData): int
    requires 2 <= c.order && |a.bitProofs| == |b.bitProofs|
  {
    WeightedSum(ExtractBlindings(c, a, b), |a.bitProofs|)
  }

  /** Two accepted forked proofs yield an opening of the value commitment to the claimed total, which is in
      range when the claimed bits are bits. */
  lemma Extraction(c: Group, a: RangeProofData, b: RangeProofData)
    requires Accepts(c, a) && Accepts(c, b) && Forked(c, a, b)
    ensures c.decode(a.valueCommitment) == Commit(c, ExtractedBlinding(c, a, b), ClaimedTotal(a))
    ensures AreBits(a) ==> 0 <= ClaimedTotal(a) < Pow(2, |a.bitProofs|)
  {
    var n := |a.bitProofs|;
    var rs, bits := ExtractBlindings(c, a, b), BitValues(a.bitProofs);
    forall i | 0 <= i < n
      ensures c.decode(a.bitProofs[i].commitment) == Commit(c, rs[i], bits[i])
    {
      BitExtract(c, a.bitProofs[i], b.bitProofs[i]);
    }
    ScaledTotalIsCommit(c, a.bitProofs, rs, bits, n);
    if AreBits(a) {
      ZeroOneSum(bits, n);
    }
  }

  /** For two forked proofs, the value commitment opens to some value of at most m bits exactly when the claimed
      total, reduced modulo the order, is one. One proof alone shows nothing (ChallengeBinding.ProvableExactly). */
  lemma {:induction false} RangeExactly(c: Group, a: RangeProofData, b: RangeProofData, m: nat)
    requires Accepts(c, a) && Accepts(c, b) && Forked(c, a, b)
    ensures (exists v {:trigger Commit(c, ExtractedBlinding(c, a, b), v)} ::
               0 <= v < Pow(2, m) && c.decode(a.valueCommitment) == Commit(c, ExtractedBlinding(c, a, b), v))
       <==> ClaimedTotal(a) % c.order < Pow(2, m)
  {
    var r, total := ExtractedBlinding(c, a, b), ClaimedTotal(a);
    Extraction(c, a, b);
    if total % c.order < Pow(2, m) {
      ModMod(total, c.order);
      CommitCong(c, r, r, total, total % c.order);
    }
    forall v | 0 <= v < Pow(2, m) && c.decode(a.valueCommitment) == Commit(c, r, v)
      ensures total % c.order < Pow(2, m)
    {
      CommitSeparates(c, r, v, total);
      ResidueAtMost(v, c.order);
    }
  }

  lemma ResidueAtMost(v: nat, m: int)
    requires 0 < m
    ensures v % m <= v
  {
    DivModForm(v, m);
    MulMonotone(0, v / m, m, m);
  }

  // ----- Proofs of values out of range -----

  lemma {:induction false} SumOfEqual(xs: seq<int>, k: nat, y: int)
    requires 1 <= k <= |xs| && forall i :: 1 <= i < k ==> xs[i] == y
    ensures WeightedSum(xs, k) == xs[0] + y * (Pow(2, k) - 2)
  {
    if k == 1 {
      assert WeightedSum(xs, 0) == 0 && Pow(2, 1) == 2;
    } else {
      SumOfEqual(xs, k - 1, y);
      var w := Pow(2, k - 1);
      assert y * (w - 2) + w * y == y * (2 * w - 2);
    }
  }

  /** The whole value claimed as the first bit, then n - 1 zeros under blindings of one */
  function Forgery(c: Curve, n: nat, value: int, total: int, nonces: seq<nat>, hash: ChallengeHash): RangeProofData
    requires 2 <= c.order && 1 <= n == |nonces|
  {
    var first := total - (Pow(2, n) - 2);
    var proofs := seq(n, i requires 0 <= i < n =>
      HonestBit(c, i, if i == 0 then value else 0, if i == 0 then first else 1, nonces[i], hash));
    RangeProofData(c.encode(Commit(c, total, value)), [], proofs, [], total)
  }

  /** For every integer, negative or of any size, and any number of entries, 64 included, verify accepts a proof
      with hashed challenges; only a claimed bit is none. Module ChallengeBinding has such proofs with true bits. */
  lemma {:induction false} AnyValueAccepted(c: Group, n: nat, value: int, total: int, nonces: seq<nat>,
        hash: ChallengeHash)
    requires 1 <= n == |nonces|
    requires Commit(c, total, value).Affine? && Commit(c, total - (Pow(2, n) - 2), value).Affine?
    ensures Accepts(c, Forgery(c, n, value, total, nonces, hash))
    ensures ClaimedTotal(Forgery(c, n, value, total, nonces, hash)) == value
  {
    var first := total - (Pow(2, n) - 2);
    var bits := seq(n, i requires 0 <= i < n => if i == 0 then value else 0);
    var rs := seq(n, i requires 0 <= i < n => if i == 0 then first else 1);
    var proof := Forgery(c, n, value, total, nonces, hash);
    SumOfEqual(bits, n, 0);
    SumOfEqual(rs, n, 1);
    CommitParts(c, 1, 0);
    TimesZeroOne(c, c.g);
    ClaimsAccepted(c, proof, bits, rs, nonces, hash, value, total);
    assert BitValues(proof.bitProofs) == bits;
  }
}
