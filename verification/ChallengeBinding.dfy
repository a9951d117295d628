/** The challenges of a range proof. The verifier takes them from the proof and never hashes them again: what it
    then accepts, and what it would show if it did. */
module ChallengeBinding {
  import opened Arithmetic
  import opened Bytes
  import opened PrimeField
  import opened EllipticCurve
  import opened CurveGroup
  import opened GroupLaws
  import opened Pedersen
  import opened RangeProof

  // ----- Challenges that are chosen -----

  lemma UnshiftOn(c: Group, commitment: Point, bit: int)
    requires c.on(commitment)
    ensures c.on(Unshift(c, commitment, bit))
  {
    MulIsTimes(c, bit, c.h);
  }

  /** With a challenge of zero modulo the order, neither the commitment nor the claimed bit enters the equation. */
  lemma ZeroChallengeAccepts(c: Group, b: BitProof)
    requires b.challenge % c.order == 0
    ensures BitAccepts(c, b) <==>
      && c.decode(b.commitment) != Infinity && c.decode(b.nonceR) != Infinity
      && c.Mul(b.response, c.g) == c.decode(b.nonceR)
  {
    var u := Unshift(c, c.decode(b.commitment), b.bitValue);
    UnshiftOn(c, c.decode(b.commitment), b.bitValue);
    MulIsTimes(c, b.challenge, u);
    ModSmall(0, c.order);
    TimesCong(c, b.challenge, 0, u);
    TimesZeroOne(c, u);
    AddZero(c, c.decode(b.nonceR));
  }

  /** Challenge 0, nonce G and response 1, for any commitment and any claimed bit */
  function Detached(c: Curve, commitment: Point, bit: int): BitProof {
    BitProof(c.encode(commitment), bit, c.encode(c.g), 0, 1)
  }

  lemma DetachedAccepts(c: Group, commitment: Point, bit: int)
    requires c.on(commitment) && commitment != Infinity
    ensures BitAccepts(c, Detached(c, commitment, bit))
    ensures c.decode(Detached(c, commitment, bit).commitment) == commitment
  {
    ModSmall(0, c.order);
    MulIsTimes(c, 1, c.g);
    TimesZeroOne(c, c.g);
    ZeroChallengeAccepts(c, Detached(c, commitment, bit));
  }

  // ----- Commitments that add up to a given point -----

  /** What is left of a point for the first commitment when the others, up to weight 2^(n - 1), are to q */
  function FirstOf(c: Curve, total: Point, n: nat, q: Point): Point {
    c.add(total, c.Times(2 - Pow(2, n), q))
  }

  lemma {:induction false} FirstOfOn(c: Group, total: Point, n: nat, q: Point)
    requires c.on(total) && c.on(q)
    ensures c.on(FirstOf(c, total, n, q))
    ensures c.add(FirstOf(c, total, n, q), c.Times(Pow(2, n) - 2, q)) == total
  {
    var d := Pow(2, n) - 2;
    TimesOn(c, d, q);
    TimesOn(c, -d, q);
    Assoc(c, total, c.Times(-d, q), c.Times(d, q));
    TimesAdd(c, -d, d, q);
    TimesZeroOne(c, q);
    AddZero(c, total);
  }

  lemma TwiceIsFinite(c: Group)
    ensures c.on(c.Times(2, c.g)) && c.Times(2, c.g) != Infinity
  {
    TimesOn(c, 2, c.g);
    TimesVanishes(c, 2, c.g);
    assert c.order > 2;
    ModSmall(2, c.order);
  }

  /** G, or 2 * G where with G nothing would be left for the first */
  function Filler(c: Curve, total: Point, n: nat): Point {
    if FirstOf(c, total, n, c.g) != Infinity then c.g else c.Times(2, c.g)
  }

  lemma FillerWorks(c: Group, total: Point, n: nat)
    requires c.on(total) && total != Infinity
    ensures var q := Filler(c, total, n);
      c.on(q) && q != Infinity && c.on(FirstOf(c, total, n, q)) && FirstOf(c, total, n, q) != Infinity
  {
    var q, d := c.Times(2, c.g), Pow(2, n) - 2;
    TwiceIsFinite(c);
    FirstOfOn(c, total, n, c.g);
    FirstOfOn(c, total, n, q);
    if FirstOf(c, total, n, c.g) == Infinity && FirstOf(c, total, n, q) == Infinity {
      // d * G and 2 * d * G are both the total, which is then zero
      TimesOn(c, d, c.g);
      TimesOn(c, d, q);
      AddZero(c, c.Times(d, c.g));
      AddZero(c, c.Times(d, q));
      TimesSumOfTwo(c, d);
      CancelLeft(c, total, total, Infinity);
    }
  }

  lemma TimesSumOfTwo(c: Group, d: int)
    ensures c.Times(d, c.Times(2, c.g)) == c.add(c.Times(d, c.g), c.Times(d, c.g))
  {
    TimesTimes(c, d, 2, c.g);
    TimesAdd(c, d, d, c.g);
    assert d * 2 == d + d;
  }

  /** The first k scaled commitments of entries to first, q, q, ... */
  ghost predicate FilledTotal(c: Curve, proofs: seq<BitProof>, first: Point, q: Point, k: nat)
    requires k <= |proofs|
  {
    ScaledTotal(c, proofs, k) == c.add(first, c.Times(Pow(2, k) - 2, q))
  }

  lemma {:induction false} FirstScaled(c: Group, proofs: seq<BitProof>, first: Point, q: Point)
    requires 1 <= |proofs| && c.on(first) && c.on(q) && c.decode(proofs[0].commitment) == first
    ensures FilledTotal(c, proofs, first, q, 1)
  {
    assert ScaledTotal(c, proofs, 0) == Infinity && Pow(2, 0) == 1 && Pow(2, 1) == 2;
    MulIsTimes(c, 1, first);
    TimesZeroOne(c, first);
    TimesZeroOne(c, q);
    AddZero(c, first);
  }

  lemma NextScaled(c: Group, first: Point, q: Point, w: int)
    requires c.on(first) && c.on(q)
    ensures c.add(c.add(first, c.Times(w - 2, q)), c.Mul(w, q)) == c.add(first, c.Times(2 * w - 2, q))
  {
    MulIsTimes(c, w, q);
    TimesOn(c, w - 2, q);
    Assoc(c, first, c.Times(w - 2, q), c.Times(w, q));
    TimesAdd(c, w - 2, w, q);
  }

  lemma {:induction false} FillerOneMore(c: Group, proofs: seq<BitProof>, first: Point, q: Point, k: nat)
    requires 1 <= k < |proofs| && c.on(first) && c.on(q) && c.decode(proofs[k].commitment) == q
    requires FilledTotal(c, proofs, first, q, k)
    ensures FilledTotal(c, proofs, first, q, k + 1)
  {
    NextScaled(c, first, q, Pow(2, k));
  }

  lemma {:induction false} ScaledTotalOfFiller(c: Group, proofs: seq<BitProof>, first: Point, q: Point)
    requires 1 <= |proofs| && c.on(first) && c.on(q) && c.decode(proofs[0].commitment) == first
    requires forall i {:trigger proofs[i]} :: 1 <= i < |proofs| ==> c.decode(proofs[i].commitment) == q
    ensures FilledTotal(c, proofs, first, q, |proofs|)
  {
    FirstScaled(c, proofs, first, q);
    for k := 1 to |proofs|
      invariant FilledTotal(c, proofs, first, q, k)
    {
      FillerOneMore(c, proofs, first, q, k);
    }
  }

  /** Detached entries with the given claimed bits whose commitments add up to a given point */
  function DetachedProofs(c: Curve, total: Point, bits: seq<int>): seq<BitProof> {
    var q := Filler(c, total, |bits|);
    seq(|bits|, i requires 0 <= i < |bits| =>
      Detached(c, if i == 0 then FirstOf(c, total, |bits|, q) else q, bits[i]))
  }

  function DetachedProof(c: Curve, valueCommitment: seq<byte>, bits: seq<int>): RangeProofData {
    RangeProofData(valueCommitment, [], DetachedProofs(c, c.decode(valueCommitment), bits), [], 0)
  }

  /** Whatever the value commitment is to, and whether or not anyone knows it, verify accepts a proof for it with
      any claimed bits. */
  lemma {:induction false} DetachedProofAccepted(c: Group, valueCommitment: seq<byte>, bits: seq<int>)
    requires bits != [] && c.decode(valueCommitment) != Infinity
    ensures Accepts(c, DetachedProof(c, valueCommitment, bits))
    ensures BitValues(DetachedProof(c, valueCommitment, bits).bitProofs) == bits
  {
    var total, n := c.decode(valueCommitment), |bits|;
    var q := Filler(c, total, n);
    var first, proofs := FirstOf(c, total, n, q), DetachedProofs(c, total, bits);
    FillerWorks(c, total, n);
    forall i | 0 <= i < n
      ensures BitAccepts(c, proofs[i]) && c.decode(proofs[i].commitment) == if i == 0 then first else q
    {
      DetachedAccepts(c, if i == 0 then first else q, bits[i]);
    }
    ScaledTotalOfFiller(c, proofs, first, q);
    FirstOfOn(c, total, n, q);
  }

  /** Some accepted proof has this value commitment and these claimed bits. */
  ghost predicate Provable(c: Curve, valueCommitment: seq<byte>, bits: seq<int>) {
    exists proof {:trigger Accepts(c, proof)} ::
      Accepts(c, proof) && proof.valueCommitment == valueCommitment && BitValues(proof.bitProofs) == bits
  }

  /** Exactly what acceptance of one proof says: there is an entry, and the value commitment decodes. Neither the
      claimed bits nor the committed value matter. */
  lemma {:induction false} ProvableExactly(c: Group, valueCommitment: seq<byte>, bits: seq<int>)
    ensures Provable(c, valueCommitment, bits) <==> bits != [] && c.decode(valueCommitment) != Infinity
  {
    if bits != [] && c.decode(valueCommitment) != Infinity {
      DetachedProofAccepted(c, valueCommitment, bits);
      assert Accepts(c, DetachedProof(c, valueCommitment, bits));
    }
    forall proof {:trigger Accepts(c, proof)}
      | Accepts(c, proof) && proof.valueCommitment == valueCommitment && BitValues(proof.bitProofs) == bits
      ensures bits != []
    {
      assert |proof.bitProofs| == |bits|;
      assert ScaledTotal(c, proof.bitProofs, 0) == Infinity;
    }
  }

  /** So every integer has an accepted proof whose claimed bits are bits, in any number, and add up to a value in
      range: -1 and 2^64 among them. */
  lemma {:induction false} BitsShowNothing(c: Group, value: int, total: int, bits: seq<int>)
    requires Commit(c, total, value).Affine?
    requires bits != [] && forall i :: 0 <= i < |bits| ==> bits[i] == 0 || bits[i] == 1
    ensures var proof := DetachedProof(c, c.encode(Commit(c, total, value)), bits);
      && Accepts(c, proof) && c.decode(proof.valueCommitment) == Commit(c, total, value)
      && |proof.bitProofs| == |bits| && AreBits(proof) && 0 <= ClaimedTotal(proof) < Pow(2, |bits|)
  {
    CommitIsTimes(c, total, value);
    DetachedProofAccepted(c, c.encode(Commit(c, total, value)), bits);
    ZeroOneSum(bits, |bits|);
  }

  // ----- Challenges that are hashed -----

  /** The challenges are the hashes the prover makes: the check that verify leaves out. */
  predicate Bound(c: Curve, proof: RangeProofData, hash: ChallengeHash) {
    forall i {:trigger proof.bitProofs[i]} :: 0 <= i < |proof.bitProofs| ==>
      var b := proof.bitProofs[i]; b.challenge == hash(b.commitment, b.nonceR, i) % c.order
  }

  /** verify with all that it leaves out: the hashes, the claimed bits, and their number */
  predicate StrictlyAccepts(c: Curve, proof: RangeProofData, n: nat, hash: ChallengeHash) {
    Accepts(c, proof) && Bound(c, proof, hash) && AreBits(proof) && |proof.bitProofs| == n
  }

  /** Created proofs pass the stricter check. */
  lemma {:induction false} StrictCompleteness(c: Group, n: nat, value: nat, total: int, random: seq<nat>,
        nonces: seq<nat>, hash: ChallengeHash, proof: RangeProofData)
    requires 1 <= n == |random| == |nonces| && value < Pow(2, n)
    requires AllFinite(c, n, value, total, random) && Honest(c, n, value, total, random, nonces, hash, proof)
    ensures StrictlyAccepts(c, proof, n, hash)
  {
    Completeness(c, n, value, total, random, nonces, hash, proof);
  }

  /** One prover's commitments, nonces and claimed bits, answering two hash functions */
  ghost predicate SameQueries(a: RangeProofData, b: RangeProofData) {
    && a.valueCommitment == b.valueCommitment && |a.bitProofs| == |b.bitProofs|
    && forall i {:trigger a.bitProofs[i]} :: 0 <= i < |a.bitProofs| ==>
        var x, y := a.bitProofs[i], b.bitProofs[i];
        x.commitment == y.commitment && x.nonceR == y.nonceR && x.bitValue == y.bitValue
  }

  /** The hash functions differ, modulo the order, at each point that the proof queries. */
  ghost predicate DifferAt(c: Curve, proof: RangeProofData, hash: ChallengeHash, other: ChallengeHash) {
    forall i {:trigger proof.bitProofs[i]} :: 0 <= i < |proof.bitProofs| ==>
      var b := proof.bitProofs[i];
      hash(b.commitment, b.nonceR, i) % c.order != other(b.commitment, b.nonceR, i) % c.order
  }

  /** What the stricter check shows: who passes it under two hash functions opens the value commitment to a value
      in range. */
  lemma {:induction false} StrictSoundness(c: Group, n: nat, a: RangeProofData, b: RangeProofData,
        hash: ChallengeHash, other: ChallengeHash)
    requires StrictlyAccepts(c, a, n, hash) && StrictlyAccepts(c, b, n, other)
    requires SameQueries(a, b) && DifferAt(c, a, hash, other)
    ensures c.decode(a.valueCommitment) == Commit(c, ExtractedBlinding(c, a, b), ClaimedTotal(a))
    ensures 0 <= ClaimedTotal(a) < Pow(2, n)
  {
    forall i | 0 <= i < |a.bitProofs|
      ensures a.bitProofs[i].challenge % c.order != b.bitProofs[i].challenge % c.order
    {
      var x := a.bitProofs[i];
      var y := b.bitProofs[i];
      ModMod(hash(x.commitment, x.nonceR, i), c.order);
      ModMod(other(x.commitment, x.nonceR, i), c.order);
    }
    assert Forked(c, a, b);
    Extraction(c, a, b);
  }
}
