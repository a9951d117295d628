/** Confidential transactions: building one from output amounts, and the balance check. */
module ConfidentialTx {
  import opened Arithmetic
  import opened Bytes
  import opened PrimeField
  import opened EllipticCurve
  import opened CurveGroup
  import opened GroupLaws
  import opened Pedersen
  import opened RangeProof
  import opened Wrappers
  import Ecdsa

  datatype InputRef = InputRef(txid: seq<byte>, vout: nat, blinding: int)
  datatype OutputSpec = OutputSpec(amount: int, script: seq<byte>)
  datatype CTOutput = CTOutput(commitment: seq<byte>, rangeProof: RangeProofData, script: seq<byte>)

  /** The signature on the commitments: with the sender's key, with the excess, or none for an excess of zero */
  datatype ExcessSignature =
    | WithKey(signature: Ecdsa.Signature)
    | WithExcess(nonceR: seq<byte>, challenge: int, response: int)
    | Absent

  datatype CTTransaction = CTTransaction(
    inputs: seq<InputRef>, outputs: seq<CTOutput>, fee: int, feeCommitment: seq<byte>,
    excessSignature: ExcessSignature)

  /** The sender's key, zero for none, and what is drawn: the two nonces of a signature with it, or random bytes */
  datatype Signer = Signer(privateKey: int, nonce: int, retry: int, random: nat)

  /** SHA-256 of the commitments, and of the nonce point, the excess point and that digest as a number */
  datatype ExcessHash = ExcessHash(message: (seq<seq<byte>>, seq<byte>) -> seq<byte>,
                                   challenge: (seq<byte>, seq<byte>, seq<byte>) -> nat)

  /** The random bytes drawn for one output: its blinding, its bit blindings and its nonces. */
  datatype Draw = Draw(blinding: nat, bits: seq<nat>, nonces: seq<nat>)

  function SumOf(xs: seq<int>): int {
    if xs == [] then 0 else SumOf(xs[..|xs| - 1]) + xs[|xs| - 1]
  }

  function InputBlindings(inputs: seq<InputRef>): seq<int> {
    seq(|inputs|, i requires 0 <= i < |inputs| => inputs[i].blinding)
  }

  function Amounts(specs: seq<OutputSpec>): seq<int> {
    seq(|specs|, i requires 0 <= i < |specs| => specs[i].amount)
  }

  predicate WellDrawn(draw: Draw) {
    |draw.bits| == |draw.nonces| == RANGE_PROOF_BITS
  }

  /** The output amounts for which build_ct_output does not raise. */
  ghost predicate Buildable(c: Curve, spec: OutputSpec, draw: Draw)
    requires 2 <= c.order && WellDrawn(draw)
  {
    && 0 <= spec.amount < Pow(2, RANGE_PROOF_BITS)
    && AllFinite(c, RANGE_PROOF_BITS, spec.amount, DrawnScalar(c, draw.blinding), draw.bits)
  }

  /** An output as build_ct_output leaves it. */
  ghost predicate Built(c: Curve, spec: OutputSpec, draw: Draw, hash: ChallengeHash, output: CTOutput)
    requires 2 <= c.order && WellDrawn(draw) && 0 <= spec.amount
  {
    var blinding := DrawnScalar(c, draw.blinding);
    && output.commitment == c.encode(Commit(c, blinding, spec.amount))
    && output.script == spec.script
    && Honest(c, RANGE_PROOF_BITS, spec.amount, blinding, draw.bits, draw.nonces, hash, output.rangeProof)
  }

  method BuildOutput(c: Curve, spec: OutputSpec, draw: Draw, hash: ChallengeHash)
    returns (r: Result<CTOutput>, blinding: int)
    requires 2 <= c.order && WellDrawn(draw)
    ensures r.Success? <==> Buildable(c, spec, draw)
    ensures r.Success? ==> Built(c, spec, draw, hash, r.value)
    ensures blinding == DrawnScalar(c, draw.blinding)
  {
    blinding := DrawnScalar(c, draw.blinding);
    var commitment := Create(c, spec.amount, blinding);
    if commitment.Failure? {
      return Failure, blinding;
    }
    var proof := CreateProof(c, RANGE_PROOF_BITS, spec.amount, blinding, draw.bits, draw.nonces, hash);
    if proof.Failure? {
      return Failure, blinding;
    }
    r := Success(CTOutput(commitment.value.encoded, proof.value, spec.script));
  }

  /** The input blindings less the output blindings */
  function Excess(c: Curve, inputs: seq<int>, outputs: seq<int>): int {
    (SumOf(inputs) % c.order - SumOf(outputs) % c.order) % c.order
  }

  lemma {:induction false} ExcessCong(c: Curve, inputs: seq<int>, outputs: seq<int>)
    ensures Excess(c, inputs, outputs) % c.order == (SumOf(inputs) - SumOf(outputs)) % c.order
  {
    SubMod(SumOf(inputs), SumOf(outputs), c.order);
    ModMod(SumOf(inputs) % c.order - SumOf(outputs) % c.order, c.order);
  }

  lemma {:induction false} CommitExcess(c: Group, inputs: seq<int>, outputs: seq<int>, v: int)
    ensures Commit(c, SumOf(inputs) - SumOf(outputs), v) == Commit(c, Excess(c, inputs, outputs), v)
  {
    ExcessCong(c, inputs, outputs);
    CommitCong(c, SumOf(inputs) - SumOf(outputs), Excess(c, inputs, outputs), v, v);
  }

  predicate WellSigned(c: Curve, signer: Signer) {
    1 <= signer.nonce < c.order && 1 <= signer.retry < c.order
  }

  /** The key the program asserts: absent, or in range */
  predicate KeyInRange(c: Curve, signer: Signer) {
    0 <= signer.privateKey < c.order
  }

  function SignExcess(c: Group, excess: int, message: seq<byte>, signer: Signer, hash: ExcessHash): ExcessSignature
    requires WellSigned(c, signer) && KeyInRange(c, signer)
  {
    if signer.privateKey != 0 then
      WithKey(Ecdsa.Sign(c, signer.privateKey, message, signer.nonce, signer.retry))
    else if excess != 0 then
      var k := DrawnScalar(c, signer.random);
      var nonceR := c.encode(c.Mul(k, c.g));
      var e := hash.challenge(nonceR, c.encode(c.Mul(excess, c.g)), message) % c.order;
      WithExcess(nonceR, e, (k + e * excess) % c.order)
    else Absent
  }

  /** The three signatures: with the key it verifies under that key, unless r or s came out as 0; without one, the
      challenge is the hash of a drawn nonce point, the excess point and the message; without either there is none. */
  lemma {:induction false} SignatureMade(c: Group, excess: int, message: seq<byte>, signer: Signer, hash: ExcessHash)
    requires WellSigned(c, signer) && KeyInRange(c, signer)
    ensures var sig := SignExcess(c, excess, message, signer, hash);
      && (sig.WithKey? <==> signer.privateKey != 0)
      && (sig.WithExcess? <==> signer.privateKey == 0 && excess != 0)
      && (sig.WithKey? ==>
            && sig.signature.r == Ecdsa.NonceR(c, Ecdsa.UsedNonce(c, signer.nonce, signer.retry))
            && (sig.signature.r != 0 && sig.signature.s != 0 ==>
                  Ecdsa.Verify(c, c.Mul(signer.privateKey, c.g), message, sig.signature)))
      && (sig.WithExcess? ==>
            && c.decode(sig.nonceR) == c.Times(DrawnScalar(c, signer.random), c.g)
            && sig.challenge == hash.challenge(sig.nonceR, c.encode(c.Times(excess, c.g)), message) % c.order
            && 0 <= sig.response < c.order)
  {
    if signer.privateKey != 0 {
      Ecdsa.SignedVerifies(c, signer.privateKey, message, signer.nonce, signer.retry);
      Ecdsa.SignedEquation(c, signer.privateKey, message, signer.nonce, signer.retry);
    } else if excess != 0 {
      Ecdsa.FiniteMultiple(c, DrawnScalar(c, signer.random));
      MulIsTimes(c, excess, c.g);
    }
  }

  /** build_ct_transaction */
  method BuildTransaction(c: Group, inputs: seq<InputRef>, specs: seq<OutputSpec>, fee: int, signer: Signer,
                          draws: seq<Draw>, hash: ChallengeHash, excessHash: ExcessHash)
    returns (r: Result<CTTransaction>, blindings: seq<int>, excess: int)
    requires |draws| == |specs| && WellSigned(c, signer)
    requires forall i :: 0 <= i < |draws| ==> WellDrawn(draws[i])
    ensures r.Success? <==>
      && (forall i :: 0 <= i < |specs| ==> Buildable(c, specs[i], draws[i]))
      && Commit(c, 0, fee).Affine? && KeyInRange(c, signer)
    ensures r.Success? ==>
      && r.value.inputs == inputs && r.value.fee == fee
      && CommitsTo(c, r.value, blindings, Amounts(specs))
      && |r.value.outputs| == |blindings| == |specs|
      && (forall i :: 0 <= i < |specs| ==>
            && blindings[i] == DrawnScalar(c, draws[i].blinding)
            && Built(c, specs[i], draws[i], hash, r.value.outputs[i]))
      && excess == Excess(c, InputBlindings(inputs), blindings)
      && r.value.excessSignature == SignExcess(c, excess,
           excessHash.message(OutputCommitments(r.value), r.value.feeCommitment), signer, excessHash)
  {
    var outputs: seq<CTOutput> := [];
    blindings, excess := [], 0;
    for i := 0 to |specs|
      invariant |outputs| == |blindings| == i
      invariant forall j :: 0 <= j < i ==> Buildable(c, specs[j], draws[j])
      invariant forall j :: 0 <= j < i ==> blindings[j] == DrawnScalar(c, draws[j].blinding)
      invariant forall j :: 0 <= j < i ==> Built(c, specs[j], draws[j], hash, outputs[j])
    {
      var output, blinding := BuildOutput(c, specs[i], draws[i], hash);
      if output.Failure? {
        return Failure, blindings, 0;
      }
      outputs := outputs + [output.value];
      blindings := blindings + [blinding];
    }
    var feeCommitment := Create(c, fee, 0);
    if feeCommitment.Failure? || !KeyInRange(c, signer) {
      return Failure, blindings, 0;
    }
    excess := Excess(c, InputBlindings(inputs), blindings);
    var unsigned := CTTransaction(inputs, outputs, fee, feeCommitment.value.encoded, Absent);
    var message := excessHash.message(OutputCommitments(unsigned), unsigned.feeCommitment);
    var signed := unsigned.(excessSignature := SignExcess(c, excess, message, signer, excessHash));
    assert OutputCommitments(signed) == OutputCommitments(unsigned);
    BuiltCommits(c, specs, draws, hash, signed, blindings);
    r := Success(signed);
  }

  // ----- The balance check -----

  datatype Verdict = ZeroExcess | NonzeroExcess | InvalidInput | InvalidOutput | Failed

  predicate Accepted(v: Verdict) {
    v == ZeroExcess || v == NonzeroExcess
  }

  function OutputCommitments(tx: CTTransaction): seq<seq<byte>> {
    seq(|tx.outputs|, i requires 0 <= i < |tx.outputs| => tx.outputs[i].commitment)
  }

  predicate AllDecode(c: Curve, encoded: seq<seq<byte>>) {
    forall i :: 0 <= i < |encoded| ==> c.decode(encoded[i]) != Infinity
  }

  function SumDecoded(c: Curve, encoded: seq<seq<byte>>): Point {
    if encoded == [] then Infinity
    else c.add(SumDecoded(c, encoded[..|encoded| - 1]), c.decode(encoded[|encoded| - 1]))
  }

  /** The output commitments, and the fee commitment when it decodes */
  function OutputTotal(c: Curve, tx: CTTransaction): Point {
    var total := SumDecoded(c, OutputCommitments(tx));
    var fee := c.decode(tx.feeCommitment);
    if fee != Infinity then c.add(total, fee) else total
  }

  /** Which verdict the two sums lead to. */
  ghost predicate IsVerdict(c: Curve, tx: CTTransaction, inputCommitments: seq<seq<byte>>, v: Verdict) {
    && (v == InvalidInput <==> !AllDecode(c, inputCommitments))
    && (v == InvalidOutput <==> AllDecode(c, inputCommitments) && !AllDecode(c, OutputCommitments(tx)))
    && (AllDecode(c, inputCommitments) && AllDecode(c, OutputCommitments(tx)) ==>
          var ins, outs := SumDecoded(c, inputCommitments), OutputTotal(c, tx);
          && (v == ZeroExcess <==> ins == outs)
          && (v == NonzeroExcess <==>
                ins != outs && ins != Infinity && outs != Infinity && c.add(ins, c.neg(outs)) != Infinity))
  }

  /** verify_balance */
  method VerifyBalance(c: Curve, tx: CTTransaction, inputCommitments: seq<seq<byte>>) returns (v: Verdict)
    ensures IsVerdict(c, tx, inputCommitments, v)
  {
    var ins := Infinity;
    for i := 0 to |inputCommitments|
      invariant forall j :: 0 <= j < i ==> c.decode(inputCommitments[j]) != Infinity
      invariant ins == SumDecoded(c, inputCommitments[..i])
    {
      var point := c.decode(inputCommitments[i]);
      if point == Infinity {
        return InvalidInput;
      }
      ins := c.add(ins, point);
      assert inputCommitments[..i + 1][..i] == inputCommitments[..i];
    }
    assert inputCommitments[..|inputCommitments|] == inputCommitments;
    var commitments := OutputCommitments(tx);
    var outs := Infinity;
    for i := 0 to |tx.outputs|
      invariant forall j :: 0 <= j < i ==> c.decode(commitments[j]) != Infinity
      invariant outs == SumDecoded(c, commitments[..i])
    {
      var point := c.decode(tx.outputs[i].commitment);
      assert point == c.decode(commitments[i]);
      if point == Infinity {
        return InvalidOutput;
      }
      outs := c.add(outs, point);
      assert commitments[..i + 1][..i] == commitments[..i];
    }
    assert commitments[..|commitments|] == commitments;
    var fee := c.decode(tx.feeCommitment);
    if fee != Infinity {
      outs := c.add(outs, fee);
    }
    if ins == outs {
      return ZeroExcess;
    }
    var excess := if ins != Infinity && outs != Infinity then c.add(ins, c.neg(outs)) else Infinity;
    return if excess != Infinity then NonzeroExcess else Failed;
  }

  lemma {:induction false} SumDecodedOn(c: Group, encoded: seq<seq<byte>>)
    ensures c.on(SumDecoded(c, encoded))
  {
    if encoded == [] {
    } else {
      SumDecodedOn(c, encoded[..|encoded| - 1]);
    }
  }

  lemma OutputTotalOn(c: Group, tx: CTTransaction)
    ensures c.on(OutputTotal(c, tx))
  {
    SumDecodedOn(c, OutputCommitments(tx));
  }

  lemma DifferentPointsDiffer(c: Group, a: Point, b: Point)
    requires c.on(a) && c.on(b) && c.add(a, c.neg(b)) == Infinity
    ensures a == b
  {
    Assoc(c, a, c.neg(b), b);
    AddZero(c, a);
    AddZero(c, b);
  }

  lemma EachDecodes(c: Curve, tx: CTTransaction)
    ensures AllDecode(c, OutputCommitments(tx)) <==>
              forall i {:trigger tx.outputs[i]} :: 0 <= i < |tx.outputs| ==>
                c.decode(tx.outputs[i].commitment) != Infinity
  {
    var encoded := OutputCommitments(tx);
    assert forall i {:trigger encoded[i]} :: 0 <= i < |encoded| ==> encoded[i] == tx.outputs[i].commitment;
    if AllDecode(c, encoded) {
      forall i {:trigger tx.outputs[i]} | 0 <= i < |tx.outputs|
        ensures c.decode(tx.outputs[i].commitment) != Infinity
      {
        assert c.decode(encoded[i]) != Infinity;
      }
    }
  }

  lemma {:induction false} AcceptedSums(c: Group, tx: CTTransaction, inputCommitments: seq<seq<byte>>, v: Verdict)
    requires IsVerdict(c, tx, inputCommitments, v)
    ensures Accepted(v) <==>
      && AllDecode(c, inputCommitments) && AllDecode(c, OutputCommitments(tx))
      && (SumDecoded(c, inputCommitments) == Infinity <==> OutputTotal(c, tx) == Infinity)
  {
    var ins, outs := SumDecoded(c, inputCommitments), OutputTotal(c, tx);
    SumDecodedOn(c, inputCommitments);
    OutputTotalOn(c, tx);
    if c.add(ins, c.neg(outs)) == Infinity {
      DifferentPointsDiffer(c, ins, outs);
    }
  }

  /** Exactly when the check accepts: everything decodes and the two sums are finite together or
      infinite together. Equality of the amounts is not part of it. */
  lemma {:induction false} AcceptedExactlyWhen(c: Group, tx: CTTransaction, inputCommitments: seq<seq<byte>>,
        v: Verdict)
    requires IsVerdict(c, tx, inputCommitments, v)
    ensures Accepted(v) <==>
      && (forall i :: 0 <= i < |inputCommitments| ==> c.decode(inputCommitments[i]) != Infinity)
      && (forall i {:trigger tx.outputs[i]} :: 0 <= i < |tx.outputs| ==> c.decode(tx.outputs[i].commitment) != Infinity)
      && (SumDecoded(c, inputCommitments) == Infinity <==> OutputTotal(c, tx) == Infinity)
    ensures v == ZeroExcess <==> Accepted(v) && SumDecoded(c, inputCommitments) == OutputTotal(c, tx)
    ensures v == InvalidInput <==> exists i :: 0 <= i < |inputCommitments| && c.decode(inputCommitments[i]) == Infinity
    ensures v == InvalidOutput ==> exists i {:trigger tx.outputs[i]} ::
              0 <= i < |tx.outputs| && c.decode(tx.outputs[i].commitment) == Infinity
  {
    EachDecodes(c, tx);
    AcceptedSums(c, tx, inputCommitments, v);
  }

  /** Commitments to known pairs sum to the commitment of the sums. */
  lemma {:induction false} SumOfCommitments(c: Group, encoded: seq<seq<byte>>, rs: seq<int>, vs: seq<int>)
    requires |encoded| == |rs| == |vs|
    requires forall i :: 0 <= i < |rs| ==> c.decode(encoded[i]) == Commit(c, rs[i], vs[i])
    ensures SumDecoded(c, encoded) == Commit(c, SumOf(rs), SumOf(vs))
  {
    var n := |rs|;
    if n == 0 {
      CommitParts(c, 0, 0);
      TimesZeroOne(c, c.g);
    } else {
      SumOfCommitments(c, encoded[..n - 1], rs[..n - 1], vs[..n - 1]);
      CommitAdd(c, SumOf(rs[..n - 1]), SumOf(vs[..n - 1]), rs[n - 1], vs[n - 1]);
    }
  }

  /** A transaction whose output commitments are to the given blindings and amounts. */
  ghost predicate CommitsTo(c: Curve, tx: CTTransaction, blindings: seq<int>, amounts: seq<int>) {
    && |tx.outputs| == |blindings| == |amounts|
    && (forall i {:trigger tx.outputs[i]} :: 0 <= i < |amounts| ==>
          && Commit(c, blindings[i], amounts[i]).Affine?
          && tx.outputs[i].commitment == c.encode(Commit(c, blindings[i], amounts[i])))
    && Commit(c, 0, tx.fee).Affine? && tx.feeCommitment == c.encode(Commit(c, 0, tx.fee))
  }

  /** BuildTransaction meets CommitsTo. */
  lemma BuiltCommits(c: Curve, specs: seq<OutputSpec>, draws: seq<Draw>, hash: ChallengeHash, tx: CTTransaction,
                     blindings: seq<int>)
    requires 2 <= c.order && |draws| == |specs| == |tx.outputs| == |blindings|
    requires forall i :: 0 <= i < |draws| ==> WellDrawn(draws[i])
    requires forall i :: 0 <= i < |specs| ==>
      && Buildable(c, specs[i], draws[i])
      && blindings[i] == DrawnScalar(c, draws[i].blinding)
      && Built(c, specs[i], draws[i], hash, tx.outputs[i])
    requires Commit(c, 0, tx.fee).Affine? && tx.feeCommitment == c.encode(Commit(c, 0, tx.fee))
    ensures CommitsTo(c, tx, blindings, Amounts(specs))
  {}

  lemma {:induction false} OutputTotalIsCommit(c: Group, tx: CTTransaction, blindings: seq<int>, amounts: seq<int>,
        v: int)
    requires CommitsTo(c, tx, blindings, amounts) && v == SumOf(amounts) + tx.fee
    ensures AllDecode(c, OutputCommitments(tx))
    ensures OutputTotal(c, tx) == Commit(c, SumOf(blindings), v)
  {
    var commitments := OutputCommitments(tx);
    forall i | 0 <= i < |amounts|
      ensures c.decode(commitments[i]) == Commit(c, blindings[i], amounts[i])
    {
      CommitIsTimes(c, blindings[i], amounts[i]);
    }
    SumOfCommitments(c, commitments, blindings, amounts);
    CommitIsTimes(c, 0, tx.fee);
    CommitAdd(c, SumOf(blindings), SumOf(amounts), 0, tx.fee);
  }

  lemma {:induction false} DifferenceOfTotals(c: Group, ins: Point, outs: Point, inBlindings: seq<int>, inAmount: int,
                           blindings: seq<int>, outAmount: int, rest: int)
    requires rest == inAmount - outAmount
    requires ins == Commit(c, SumOf(inBlindings), inAmount) && outs == Commit(c, SumOf(blindings), outAmount)
    ensures c.add(ins, c.neg(outs)) == Commit(c, Excess(c, inBlindings, blindings), rest)
  {
    CommitSub(c, SumOf(inBlindings), inAmount, SumOf(blindings), outAmount, rest);
    CommitExcess(c, inBlindings, blindings, rest);
  }

  /** Every input commitment is a finite commitment to its blinding and amount. */
  ghost predicate InputsCommit(c: Curve, inputCommitments: seq<seq<byte>>, inBlindings: seq<int>, inAmounts: seq<int>) {
    && |inputCommitments| == |inBlindings| == |inAmounts|
    && forall i {:trigger inputCommitments[i]} :: 0 <= i < |inAmounts| ==>
        && Commit(c, inBlindings[i], inAmounts[i]).Affine?
        && inputCommitments[i] == c.encode(Commit(c, inBlindings[i], inAmounts[i]))
  }

  lemma InputsDecode(c: Group, inputCommitments: seq<seq<byte>>, inBlindings: seq<int>, inAmounts: seq<int>)
    requires InputsCommit(c, inputCommitments, inBlindings, inAmounts)
    ensures AllDecode(c, inputCommitments)
    ensures forall i :: 0 <= i < |inAmounts| ==> c.decode(inputCommitments[i]) == Commit(c, inBlindings[i],
        inAmounts[i])
  {
    forall i | 0 <= i < |inAmounts|
      ensures c.decode(inputCommitments[i]) == Commit(c, inBlindings[i], inAmounts[i])
    {
      CommitIsTimes(c, inBlindings[i], inAmounts[i]);
    }
  }

  lemma {:induction false} InputTotalIsCommit(c: Group, inputCommitments: seq<seq<byte>>, inBlindings: seq<int>,
        inAmounts: seq<int>)
    requires InputsCommit(c, inputCommitments, inBlindings, inAmounts)
    ensures SumDecoded(c, inputCommitments) == Commit(c, SumOf(inBlindings), SumOf(inAmounts))
  {
    InputsDecode(c, inputCommitments, inBlindings, inAmounts);
    SumOfCommitments(c, inputCommitments, inBlindings, inAmounts);
  }

  /** The excess identity: inputs minus outputs is excess * G + (inputs - outputs - fee) * H. */
  lemma {:induction false} ExcessIdentity(c: Group, tx: CTTransaction, inputCommitments: seq<seq<byte>>,
        inBlindings: seq<int>, inAmounts: seq<int>, blindings: seq<int>, amounts: seq<int>)
    requires CommitsTo(c, tx, blindings, amounts)
    requires InputsCommit(c, inputCommitments, inBlindings, inAmounts)
    ensures c.add(SumDecoded(c, inputCommitments), c.neg(OutputTotal(c, tx)))
         == Commit(c, Excess(c, inBlindings, blindings), SumOf(inAmounts) - SumOf(amounts) - tx.fee)
  {
    InputTotalIsCommit(c, inputCommitments, inBlindings, inAmounts);
    OutputTotalIsCommit(c, tx, blindings, amounts, SumOf(amounts) + tx.fee);
    DifferenceOfTotals(c, SumDecoded(c, inputCommitments), OutputTotal(c, tx), inBlindings, SumOf(inAmounts), blindings,
                       SumOf(amounts) + tx.fee, SumOf(inAmounts) - SumOf(amounts) - tx.fee);
  }

  /** With balanced amounts the difference of the two sums is excess * G. */
  lemma {:induction false} BalancedDifference(c: Group, tx: CTTransaction, inputCommitments: seq<seq<byte>>,
        inBlindings: seq<int>, inAmounts: seq<int>, blindings: seq<int>, amounts: seq<int>)
    requires CommitsTo(c, tx, blindings, amounts)
    requires InputsCommit(c, inputCommitments, inBlindings, inAmounts)
    requires SumOf(inAmounts) == SumOf(amounts) + tx.fee
    ensures var excess := Excess(c, inBlindings, blindings);
      && c.add(SumDecoded(c, inputCommitments), c.neg(OutputTotal(c, tx))) == c.Times(excess, c.g)
      && (c.Times(excess, c.g) == Infinity <==> excess == 0)
  {
    ExcessIdentity(c, tx, inputCommitments, inBlindings, inAmounts, blindings, amounts);
    var excess := Excess(c, inBlindings, blindings);
    CommitParts(c, excess, 0);
    TimesVanishes(c, excess, c.g);
    ModSmall(excess, c.order);
  }

  /** A balanced transaction with finite sums is accepted: as zero excess exactly when the excess is zero. */
  lemma {:induction false} BalancedIsAccepted(c: Group, tx: CTTransaction, inputCommitments: seq<seq<byte>>,
        inBlindings: seq<int>, inAmounts: seq<int>, blindings: seq<int>, amounts: seq<int>,
        v: Verdict)
    requires CommitsTo(c, tx, blindings, amounts)
    requires InputsCommit(c, inputCommitments, inBlindings, inAmounts)
    requires SumOf(inAmounts) == SumOf(amounts) + tx.fee
    requires SumDecoded(c, inputCommitments) != Infinity && OutputTotal(c, tx) != Infinity
    requires IsVerdict(c, tx, inputCommitments, v)
    ensures v == if Excess(c, inBlindings, blindings) == 0 then ZeroExcess else NonzeroExcess
  {
    var ins, outs := SumDecoded(c, inputCommitments), OutputTotal(c, tx);
    InputsDecode(c, inputCommitments, inBlindings, inAmounts);
    OutputTotalIsCommit(c, tx, blindings, amounts, SumOf(amounts) + tx.fee);
    BalancedDifference(c, tx, inputCommitments, inBlindings, inAmounts, blindings, amounts);
    SumDecodedOn(c, inputCommitments);
    OutputTotalOn(c, tx);
    if c.add(ins, c.neg(outs)) == Infinity {
      DifferentPointsDiffer(c, ins, outs);
    }
  }

  // ----- Amounts that do not balance -----

  /** Whatever the amounts, the check accepts two finite sums. */
  lemma {:induction false} AnyAmountsAccepted(c: Group, tx: CTTransaction, inputCommitments: seq<seq<byte>>,
        inBlindings: seq<int>, inAmounts: seq<int>, blindings: seq<int>, amounts: seq<int>, v: Verdict)
    requires CommitsTo(c, tx, blindings, amounts)
    requires InputsCommit(c, inputCommitments, inBlindings, inAmounts)
    requires SumDecoded(c, inputCommitments) != Infinity && OutputTotal(c, tx) != Infinity
    requires IsVerdict(c, tx, inputCommitments, v)
    ensures Accepted(v)
  {
    InputsDecode(c, inputCommitments, inBlindings, inAmounts);
    OutputTotalIsCommit(c, tx, blindings, amounts, SumOf(amounts) + tx.fee);
    AcceptedSums(c, tx, inputCommitments, v);
  }

  /** One input and one output of nothing, and a fee; of 1 and 2 one gives finite sums in every group. */
  function FeeFromNothing(c: Curve, proof: RangeProofData, fee: int): CTTransaction {
    CTTransaction([], [CTOutput(c.encode(Commit(c, 1, 0)), proof, [])], fee, c.encode(Commit(c, 0, fee)), Absent)
  }

  lemma FeeSums(c: Group, fee: int)
    requires fee == 1 || fee == 2
    ensures Commit(c, 1, 0) == c.g && Commit(c, 0, fee).Affine?
  {
    CommitParts(c, 1, fee);
    TimesZeroOne(c, c.g);
    TimesVanishes(c, fee, c.h);
    assert c.order > 2;
    ModSmall(fee, c.order);
  }

  lemma OneFeeIsFinite(c: Group)
    ensures Commit(c, 1, 1) != Infinity || Commit(c, 1, 2) != Infinity
  {
    CommitSeparates(c, 1, 1, 2);
    assert c.order > 2;
    ModSmall(1, c.order);
    ModSmall(2 % c.order, c.order);
    if 2 < c.order {
      ModSmall(2, c.order);
    }
  }

  /** In every group, a transaction that creates its fee from nothing is accepted. */
  lemma {:induction false} UnbalancedIsAccepted(c: Group, proof: RangeProofData, v: Verdict, fee: int)
    requires fee == if Commit(c, 1, 1) != Infinity then 1 else 2
    requires IsVerdict(c, FeeFromNothing(c, proof, fee), [c.encode(Commit(c, 1, 0))], v)
    ensures CommitsTo(c, FeeFromNothing(c, proof, fee), [1], [0])
    ensures InputsCommit(c, [c.encode(Commit(c, 1, 0))], [1], [0])
    ensures SumOf([0]) < SumOf([0]) + fee && Accepted(v)
  {
    var tx, ins := FeeFromNothing(c, proof, fee), [c.encode(Commit(c, 1, 0))];
    FeeSums(c, fee);
    OneFeeIsFinite(c);
    assert SumOf([0]) == 0 && SumOf([1]) == 1;
    InputTotalIsCommit(c, ins, [1], [0]);
    OutputTotalIsCommit(c, tx, [1], [0], fee);
    AnyAmountsAccepted(c, tx, ins, [1], [0], [1], [0], v);
  }

  // ----- What the excess signature would show -----

  /** The check that the program does not make: s * G = R + e * D, for D the difference of the two sums */
  predicate ExcessVerifies(c: Curve, difference: Point, sig: ExcessSignature)
    requires sig.WithExcess?
  {
    c.Mul(sig.response, c.g) == c.add(c.decode(sig.nonceR), c.Mul(sig.challenge, difference))
  }

  lemma SignedExcess(c: Group, excess: int, rest: int, message: seq<byte>, signer: Signer, hash: ExcessHash)
    requires WellSigned(c, signer) && signer.privateKey == 0 && excess != 0
    ensures var sig := SignExcess(c, excess, message, signer, hash);
      && sig.WithExcess?
      && (ExcessVerifies(c, Commit(c, excess, rest), sig) <==> (sig.challenge * rest) % c.order == 0)
  {
    var sig := SignExcess(c, excess, message, signer, hash);
    var k, e := DrawnScalar(c, signer.random), sig.challenge;
    Ecdsa.FiniteMultiple(c, k);
    CommitParts(c, k, 0);
    CommitIsTimes(c, excess, rest);
    MulIsTimes(c, e, Commit(c, excess, rest));
    CommitScale(c, e, excess, rest);
    CommitAdd(c, k, 0, e * excess, e * rest);
    CommitParts(c, sig.response, 0);
    ModMod(k + e * excess, c.order);
    CommitCong(c, sig.response, k + e * excess, 0, 0);
    CommitSeparates(c, k + e * excess, 0, e * rest);
    ModSmall(0, c.order);
  }

  /** The signature made with the excess of a transaction verifies against its public commitments exactly when
      the amounts balance modulo the order, or the challenge is zero. */
  lemma {:induction false} ExcessSignatureShowsBalance(c: Group, tx: CTTransaction, inputCommitments: seq<seq<byte>>,
        inBlindings: seq<int>, inAmounts: seq<int>, blindings: seq<int>, amounts: seq<int>,
        message: seq<byte>, signer: Signer, hash: ExcessHash)
    requires CommitsTo(c, tx, blindings, amounts)
    requires InputsCommit(c, inputCommitments, inBlindings, inAmounts)
    requires WellSigned(c, signer) && signer.privateKey == 0 && Excess(c, inBlindings, blindings) != 0
    requires tx.excessSignature == SignExcess(c, Excess(c, inBlindings, blindings), message, signer, hash)
    ensures tx.excessSignature.WithExcess?
    ensures ExcessVerifies(c, c.add(SumDecoded(c, inputCommitments), c.neg(OutputTotal(c, tx))), tx.excessSignature)
       <==> || tx.excessSignature.challenge % c.order == 0
            || (SumOf(inAmounts) - SumOf(amounts) - tx.fee) % c.order == 0
  {
    var rest := SumOf(inAmounts) - SumOf(amounts) - tx.fee;
    ExcessIdentity(c, tx, inputCommitments, inBlindings, inAmounts, blindings, amounts);
    SignedExcess(c, Excess(c, inBlindings, blindings), rest, message, signer, hash);
    ProductVanishes(c.order, tx.excessSignature.challenge, rest);
  }

  /** The challenge comes with the signature: one of zero passes for every difference. Signatures with the sender's
      key are not of this form at all, and say nothing about it. */
  lemma {:induction false} AnyDifferenceVerifies(c: Group, difference: Point, response: int)
    requires c.on(difference) && response % c.order != 0
    ensures ExcessVerifies(c, difference, WithExcess(c.encode(c.Mul(response, c.g)), 0, response))
  {
    MulIsTimes(c, response, c.g);
    TimesVanishes(c, response, c.g);
    MulIsTimes(c, 0, difference);
    TimesZeroOne(c, difference);
    AddZero(c, c.Mul(response, c.g));
  }

  /** The logarithm of the difference, from two signatures with one nonce and different challenges */
  function ExtractedExcess(c: Curve, a: ExcessSignature, b: ExcessSignature): int
    requires 2 <= c.order && a.WithExcess? && b.WithExcess?
  {
    (a.response - b.response) * ModInverse(a.challenge - b.challenge, c.order)
  }

  lemma TwoSignaturesExtract(c: Group, difference: Point, a: ExcessSignature, b: ExcessSignature)
    requires c.on(difference) && a.WithExcess? && b.WithExcess?
    requires a.nonceR == b.nonceR && a.challenge % c.order != b.challenge % c.order
    requires ExcessVerifies(c, difference, a) && ExcessVerifies(c, difference, b)
    ensures difference == c.Times(ExtractedExcess(c, a, b), c.g)
  {
    MulIsTimes(c, a.response, c.g);
    MulIsTimes(c, b.response, c.g);
    MulIsTimes(c, a.challenge, difference);
    MulIsTimes(c, b.challenge, difference);
    SchnorrExtract(c, c.decode(a.nonceR), difference, a.response, b.response, a.challenge, b.challenge);
  }

  /** x * G == excess * G + rest * H, solved for H */
  lemma SolvedForH(c: Group, x: int, excess: int, rest: int)
    requires c.Times(x, c.g) == Commit(c, excess, rest) && rest % c.order != 0
    ensures c.h == c.Times(ModInverse(rest, c.order) * (x - excess), c.g)
  {
    var i, d := ModInverse(rest, c.order), x - excess;
    CommitIsTimes(c, excess, rest);
    TimesAdd(c, excess, d, c.g);
    TimesOn(c, d, c.g);
    CancelLeft(c, c.Times(excess, c.g), c.Times(d, c.g), c.Times(rest, c.h));
    TimesTimes(c, i, rest, c.h);
    TimesTimes(c, i, d, c.g);
    InverseMultiplies(rest, c.order);
    assert i * rest == rest * i;
    ModSmall(1, c.order);
    TimesCong(c, i * rest, 1, c.h);
    TimesZeroOne(c, c.h);
  }

  /** Who can answer two challenges on one nonce either has amounts that balance modulo the order or knows the
      logarithm of H to the base G. */
  lemma {:induction false} TwoSignaturesShowBalance(c: Group, tx: CTTransaction, inputCommitments: seq<seq<byte>>,
        inBlindings: seq<int>, inAmounts: seq<int>, blindings: seq<int>, amounts: seq<int>,
        a: ExcessSignature, b: ExcessSignature)
    requires CommitsTo(c, tx, blindings, amounts)
    requires InputsCommit(c, inputCommitments, inBlindings, inAmounts)
    requires a.WithExcess? && b.WithExcess?
    requires a.nonceR == b.nonceR && a.challenge % c.order != b.challenge % c.order
    requires var difference := c.add(SumDecoded(c, inputCommitments), c.neg(OutputTotal(c, tx)));
             ExcessVerifies(c, difference, a) && ExcessVerifies(c, difference, b)
    ensures var rest := SumOf(inAmounts) - SumOf(amounts) - tx.fee;
      || rest % c.order == 0
      || c.h == c.Times(ModInverse(rest, c.order) * (ExtractedExcess(c, a, b) - Excess(c, inBlindings, blindings)), c.g)
  {
    var rest := SumOf(inAmounts) - SumOf(amounts) - tx.fee;
    var excess := Excess(c, inBlindings, blindings);
    ExcessIdentity(c, tx, inputCommitments, inBlindings, inAmounts, blindings, amounts);
    CommitIsTimes(c, excess, rest);
    TwoSignaturesExtract(c, Commit(c, excess, rest), a, b);
    if rest % c.order != 0 {
      SolvedForH(c, ExtractedExcess(c, a, b), excess, rest);
    }
  }

  lemma ProductVanishes(p: int, a: int, b: int)
    requires IsPrime(p)
    ensures (a * b) % p == 0 <==> a % p == 0 || b % p == 0
  {
    if (a * b) % p == 0 {
      if a % p != 0 && b % p != 0 {
        NoZeroDivisors(p, a, b);
      }
    }
    MulMod(a, b, p);
    ModSmall(0, p);
  }
}
