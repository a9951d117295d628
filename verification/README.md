# Bitchchain, verified

A Dafny model of the Bitchchain node's core and proofs about it. Every file holds one module; the modules follow
the components of the program.

- **Curve and privacy layer.** `Wrappers`, `Arithmetic`, `PrimeField`, `Bytes`: results, numbers and bytes.
  `EllipticCurve`, `Compression`: the program's formulas over any odd prime field. `CurveGroup`, `GroupLaws`: a
  commutative group of prime order with generators G and H, and double-and-add in it; `ResidueGroup` is a model of its
  laws and `Secp` ties the formulas to them. `Ecdsa`, `Pedersen`, `RangeProof`, `ConfidentialTx`, `AmountDecoder` are
  stated over any such group; `ChallengeBinding` is about the challenges of range proofs.
- **Chain.** `Transactions`, `Merkle`, `Difficulty`, `Rewards`, `Utxo`, `Chain`. `BlockEffect`: what a block does to
  the unspent outputs, row by row; `BlockValue`: what it adds to their value. `ChainRuns`, `RetargetPeriods` and
  `BlockIdentity` hold the theorems about runs and about what a block hash determines; `Rejections` holds concrete
  blocks.
- **Consensus.** `FloatThreshold`: the finality test in binary64. `Finality`: validator and checkpoint tables as a
  class. `FinalityRuns`: what holds over runs on these tables; `Slashing`: who is slashed. `Consensus`: the object over chain and tables, and runs
  of its calls. `Mining`: coinbase, selection and block templates.
- **Network and wallet.** `StreamReassembly`: the peer loop over any parser; `Framing`: the program's message format.
  `Base58`: addresses.

Loops and objects are methods and classes proved against functions on values; what the program promises is proved
about those functions, over every input and every run. A run of the chain is a sequence of verdicts of block
validation, whatever they are; `Chain.Blockchain.ApplyBlock` says that the object takes exactly such a step.

## What the proofs found

The model keeps the code as it is. Where code and documentation differ, the theorems say when the promise holds:

- Applying a block is called atomic, but the UTXO set commits on its own connection: a rejected block leaves what its
  transactions did (`ChainRuns.AtomicExactly`). A missing input and an amount above 64 bits both lead there, after
  validation has passed (`Rejections.RejectionsKeepReward`). Per-outpoint accounting survives that; the supply bound
  needs every block to be accepted.
- An accepted range proof shows nothing. Verification takes the challenges from the proof and checks neither the claimed
  bits nor their number: every commitment that decodes has an accepted proof with any claimed bits
  (`ChallengeBinding.ProvableExactly`), also one to -1 or 2^64 with 64 true bits (`ChallengeBinding.BitsShowNothing`).
  Creation does hash the challenges. With the hashes, the bits and their number checked, answers under two hash
  functions open the commitment to a value in range (`ChallengeBinding.StrictSoundness`), and created proofs still pass
  (`ChallengeBinding.StrictCompleteness`).
- Validation does not compare the values of inputs and outputs: a transaction without inputs may pay out more than the
  whole supply (`Rejections.MoneyFromNothing`). The supply bounds have the comparison as a premise; what a block adds
  is exactly the difference (`BlockValue.AcceptedAdds`).
- Nor does it compare the bits with the difficulty rule, or the height with the tip (`BlockIdentity.HeightIsFree`), or
  recompute ids that come with the transactions: a block hash then binds the ids and nothing else about them
  (`BlockIdentity.BodiesAreFree`, and `BlockIdentity.HashBindsBodies` for the other case).
- Difficulty is retargeted from the bits of the period before the last, and the first time from the genesis block's
  own easy bits (`RetargetPeriods.RunSkipsPeriod`).
- Encoding a target loses high bits whenever its digit count is odd or its leading digit is above 7; even on schedule
  the initial target more than halves (`Difficulty.LossBelowUnit`, `Difficulty.TopBitLost`).
- The float finality test is two thirds exactly for totals up to 2^54 / 5 satoshis, more than all coins
  (`FloatThreshold.ThresholdDecides`).
- Votes can finalize a hash before its block arrives; the arrival then resets it (`Consensus.ArrivalResets`). Nothing
  else takes finality away, and nothing at all once the block is stored, unless predecessor hashes form a cycle
  (`Consensus.FinalityThroughCall`, `Consensus.FinalOnceStored`).
- The balance check accepts any two finite sums, whatever the amounts (`ConfidentialTx.AnyAmountsAccepted`,
  `ConfidentialTx.UnbalancedIsAccepted`). The signature on the excess is never checked. One made without a sender key
  would show the balance (`ConfidentialTx.ExcessSignatureShowsBalance`), provided its challenge is hashed and not chosen
  (`ConfidentialTx.AnyDifferenceVerifies`, `ConfidentialTx.TwoSignaturesShowBalance`); one with a key says nothing.
- Only a vote for one target from two sources is slashed. Voting for two checkpoints is not, so that two can be final
  with nobody slashed (`FinalityRuns.OneSourceQuorum`, `FinalityRuns.TwoFinalizedNobodySlashed`).
- Templates are said to take transactions by fee rate. Transactions have no fee field, so the order is by what they pay
  out (`Mining.SortedStably`).
- The amount decoder misses the positive multiples of its table size (`AmountDecoder.Decode`).
- Payloads in the last 24 bytes below the maximum parse but cannot be received (`Framing.LargestPayloadsOverflow`);
  below that, a stream is safe in every split under the exact condition of `Framing.BuiltRoomExactly`.
- After one bad magic, length or checksum nothing more arrives on a connection (`Framing.BrokenStreamDeliversNothing`).
- The decoder of addresses ignores 1s in front, so that an address that decodes is never the
  only one of its hash (`Base58.OnesDecodeAlike`).
- Addresses with version byte zero, the default prefix, do not decode to their hash (`Base58.RoundTrip`).

## Model

| member | source | states |
|---|---|---|
| `PrimeField.FermatLittle` | agent/modules/privacy_layer.py:29-30 | For every prime p and every a that p does not divide, a^(p-1) leaves 1; the exponent m - 2 of the modular inverse rests on it. |
| `PrimeField.InverseMultiplies` | agent/modules/privacy_layer.py:29-30 | For every prime modulus, a times its computed inverse is 1, and the inverse is in range. |
| `PrimeField.InverseCancels` | agent/modules/privacy_layer.py:29-30 | Dividing and multiplying back leaves every residue as it was. |
| `PrimeField.RootOfSquare` | agent/modules/privacy_layer.py:93-95 | For p = 3 mod 4 the power (p+1)/4 of a square is a square root of it. |
| `PrimeField.RootsAreOpposite` | agent/modules/privacy_layer.py:96-97 | A square has no roots in range besides y and p - y. |
| `EllipticCurve.AddOnCurve` | agent/modules/privacy_layer.py:33-50 | For every odd prime field, the sum of any two reduced curve points is infinity or a reduced curve point: chord, tangent and opposite points (SEC 1 v2.0, section 2.2.1). |
| `EllipticCurve.AddCommutes` | agent/modules/privacy_layer.py:33-50 | The sum does not depend on the order of the points. |
| `EllipticCurve.AddNegation` | agent/modules/privacy_layer.py:33-70 | A point plus its negation is infinity. |
| `EllipticCurve.NegOnCurve` | agent/modules/privacy_layer.py:67-70 | Negation keeps reduced points on the curve. |
| `EllipticCurve.SumExactly` | agent/modules/privacy_layer.py:33-50 | The sum without division: infinity is neutral, opposite points cancel, and otherwise x3 and y3 solve the equations of the mirrored third point of the chord or the tangent (SEC 1 v2.0, section 2.2.1). |
| `EllipticCurve.LineIdentity` | agent/modules/privacy_layer.py:48-49 | The identity behind the third point: on the line the curve equation factors through x - x1, for all integers. |
| `CurveGroup.PointMul` | agent/modules/privacy_layer.py:53-64 | The double-and-add loop computes the specified multiple for every scalar, and stays on the curve. |
| `CurveGroup.LoopStatesOn` | agent/modules/privacy_layer.py:57-63 | Every intermediate result and addend of the loop is on a closed curve. |
| `Secp.MulStaysOnCurve` | agent/modules/privacy_layer.py:53-64 | On the concrete curve every intermediate result and addend is a reduced curve point, for every scalar. |
| `GroupLaws.DoubleAndAddIsRepeat` | agent/modules/privacy_layer.py:57-64 | From any loop state, double-and-add adds the scalar-fold repetition of the addend. |
| `GroupLaws.MulIsTimes` | agent/modules/privacy_layer.py:53-64 | Multiplication equals repeated addition for every integer scalar, reduced modulo the order or not. |
| `GroupLaws.TimesInjective` | agent/modules/privacy_layer.py:53-64 | Two multiples of a finite point are equal exactly when the scalars agree modulo the prime order. |
| `ResidueGroup.ResiduesLawful` | agent/modules/privacy_layer.py:21-26 | The group laws that the abstract theorems assume have a model for every odd prime order. |
| `Secp.OrdinateNonzero` | agent/modules/privacy_layer.py:41-44 | In a group of odd order no finite curve point has y = 0. |
| `Secp.WeierstrassLawful` | agent/modules/privacy_layer.py:33-98 | The program's formulas satisfy every assumed group law but associativity and the order of points, which stay premises. |
| `Secp.Secp256k1Numbers` | agent/modules/privacy_layer.py:21-26 | The program's P is 3 mod 4 and fits 32 bytes, N is below P, and (Gx, Gy) is a reduced curve point. |
| `Compression.PointToBytes` | agent/modules/privacy_layer.py:73-78 | Every point, infinity included, takes 33 bytes. |
| `Compression.DecodeEncode` | agent/modules/privacy_layer.py:73-98 | For every prime field with P = 3 mod 4, decoding the encoding of a finite reduced curve point gives it back (SEC 1 v2.0, sections 2.3.3 and 2.3.4). |
| `Compression.EncodeDecode` | agent/modules/privacy_layer.py:73-98 | Every string that decodes is the encoding of what it decodes to. |
| `Compression.DecodedOnCurve` | agent/modules/privacy_layer.py:85-98 | A decoded point is a reduced curve point exactly when its y is not P, the one case of a root 0 asked for as odd. |
| `Compression.DecodeComplete` | agent/modules/privacy_layer.py:85-98 | A string decodes exactly when it has 33 bytes, prefix 2 or 3, and an x below P at which the curve has a point. |
| `Ecdsa.UsedNonce` | agent/modules/privacy_layer.py:153-159 | The nonce in use, after the one retry for r = 0, is in 1..N-1. |
| `Ecdsa.CheckPointIsTimes` | agent/modules/privacy_layer.py:171-175 | The point that verification computes is w * (z + r * d) times G, for w the inverse of s. |
| `Ecdsa.NonceRecovered` | agent/modules/privacy_layer.py:160-163 | Whether s or N - s was kept, w * (z + r * d) is the nonce or its negation. |
| `Ecdsa.SameX` | agent/modules/privacy_layer.py:155-178 | The nonce and its negation lead to the same r. |
| `Ecdsa.SignedVerifies` | agent/modules/privacy_layer.py:151-178 | For every key, 32-byte hash and nonces, the signature verifies under the derived key exactly when r and s are not zero, and s is in the lower half (SEC 1 v2.0, sections 4.1.3 and 4.1.4). |
| `Ecdsa.SignedEquation` | agent/modules/privacy_layer.py:151-164 | r is the x of the nonce in use, and s or N - s solves s * k = z + r * d for that nonce. |
| `Ecdsa.VerifiesExactly` | agent/modules/privacy_layer.py:167-178 | For every public key, hash and signature: it verifies exactly when r and s are in range and r is the x of a finite point that s takes to z * G + r * Q. |
| `Ecdsa.VerifiesExactlyForKey` | agent/modules/privacy_layer.py:167-178 | For every private key, hash and signature: it verifies under the derived key exactly when r and s are in range and r is the x of some nonce k with s * k = z + r * d modulo N; every other pair is refused. |
| `Ecdsa.OppositeVerifies` | agent/modules/privacy_layer.py:162-178 | For every public key, exchanging s and N - s never changes the verdict. |
| `Pedersen.DrawnScalar` | agent/modules/privacy_layer.py:211-214 | A drawn blinding factor is in 1..N-1. |
| `Pedersen.CreatedOpens` | agent/modules/privacy_layer.py:210-236 | A commitment that is created opens with its blinding and value. |
| `Pedersen.OpensExactly` | agent/modules/privacy_layer.py:220-236 | An opening is accepted exactly when the commitment decodes to r * G + v * H and is finite. |
| `Pedersen.CommitIsTimes` | agent/modules/privacy_layer.py:215-217 | A commitment is r * G + v * H in repeated additions, for all integers. |
| `Pedersen.CommitAdd` | agent/modules/privacy_layer.py:215-217 | Commitments add in both arguments. |
| `Pedersen.CommitSeparates` | agent/modules/privacy_layer.py:215-217 | Under one blinding two amounts have the same commitment exactly when they agree modulo the order. |
| `RangeProof.BitsSum` | agent/modules/privacy_layer.py:267-268 | The first k weighted bits of a value are the value modulo 2^k. |
| `RangeProof.BlindingsSum` | agent/modules/privacy_layer.py:260-263 | With the last blinding solved for, the weighted blindings add up to the total blinding modulo the order, for any number of bits. |
| `RangeProof.BlindingsAreDrawn` | agent/modules/privacy_layer.py:259-263 | All blindings but the last are the drawn ones modulo the order. |
| `RangeProof.CreateProof` | agent/modules/privacy_layer.py:254-282 | The creation loops return exactly when the value is in range and no commitment is at infinity, and then give the honest proof. |
| `RangeProof.VerifyProof` | agent/modules/privacy_layer.py:285-310 | The two verification loops decide the acceptance predicate. |
| `RangeProof.HonestBitAccepts` | agent/modules/privacy_layer.py:272-301 | Every honest response satisfies s * G = R + e * (C - b * H), and its commitment decodes to itself. |
| `RangeProof.ScaledTotalIsCommit` | agent/modules/privacy_layer.py:302-307 | The scaled commitments add up to the commitment to both weighted sums. |
| `RangeProof.ClaimsAccepted` | agent/modules/privacy_layer.py:270-310 | Honest responses to any claimed bit values, any number of them and any integers, are accepted when the weighted blindings and bits agree with the value commitment modulo the order. |
| `RangeProof.Completeness` | agent/modules/privacy_layer.py:254-310 | For any number of bits, every value in range, every blinding and every randomness, a proof that is created is accepted. |
| `RangeProof.CreateThenVerify` | agent/modules/privacy_layer.py:254-310 | The two methods run one after the other at 64 bits: created implies verified. |
| `RangeProof.SchnorrExtract` | agent/modules/privacy_layer.py:298-301 | Two responses to different challenges with one nonce determine the discrete logarithm. |
| `RangeProof.BitExtract` | agent/modules/privacy_layer.py:286-301 | Two accepted bits that share commitment, nonce and claimed bit, with different challenges, open the commitment to that bit. |
| `RangeProof.Extraction` | agent/modules/privacy_layer.py:285-310 | From two accepted proofs that share all but the challenges, with any claimed bits and any number of them, an opening of the value commitment to the total of the claimed bits is computed; if the claimed bits are 0 or 1, that total is in [0, 2^n). |
| `RangeProof.RangeExactly` | agent/modules/privacy_layer.py:285-310 | For two accepted proofs that share all but the challenges, and any m, the value commitment opens, under the extracted blinding, to a value in [0, 2^m) exactly when the total of the claimed bits is below 2^m modulo the order. |
| `RangeProof.AnyValueAccepted` | agent/modules/privacy_layer.py:270-310 | For every integer, negative or of any size, and any number of entries, 64 included, a proof with hashed challenges is given that verify accepts: its first claimed bit is the value. |
| `ChallengeBinding.ZeroChallengeAccepts` | agent/modules/privacy_layer.py:286-301 | With a challenge of 0 modulo the order an entry is accepted exactly when its commitment and nonce decode and s * G is the nonce, whatever the commitment and the claimed bit. |
| `ChallengeBinding.ProvableExactly` | agent/modules/privacy_layer.py:285-310 | For every value commitment and all claimed bits, some proof with them is accepted exactly when there is at least one bit and the value commitment decodes: one accepted proof shows neither a range nor an opening. |
| `ChallengeBinding.BitsShowNothing` | agent/modules/privacy_layer.py:285-310 | For every integer and all claimed bits that are bits, in any number, an accepted proof with those bits and a commitment to that integer is given. |
| `ChallengeBinding.StrictCompleteness` | agent/modules/privacy_layer.py:254-282 | Created proofs pass the check that verify leaves out: hashed challenges, bits that are bits, and the right number of them. |
| `ChallengeBinding.StrictSoundness` | agent/modules/privacy_layer.py:275-310 | Two proofs on the same commitments, nonces and claimed bits that pass that check, and are accepted, under two hash functions that differ at each point queried, open the value commitment to a value in [0, 2^n). |
| `ConfidentialTx.BuildOutput` | agent/modules/privacy_layer.py:394-398 | An output is built exactly when its value is in range and its commitments are finite, with the commitment and proof it should have. |
| `ConfidentialTx.BuildTransaction` | agent/modules/privacy_layer.py:400-432 | The builder raises exactly on an output that cannot be built, an infinite fee commitment or a key out of range; otherwise its outputs commit to the amounts and drawn blindings, the excess is reduced modulo the order, and the excess is signed with the key, with itself, or not at all. |
| `ConfidentialTx.SignatureMade` | agent/modules/privacy_layer.py:413-427 | With a key the signature verifies under it, unless r or s is 0; without one its challenge is the hash of the drawn nonce point, the excess point and the message; for an excess of 0 without a key there is none. |
| `ConfidentialTx.VerifyBalance` | agent/modules/privacy_layer.py:434-454 | The loops over input and output commitments lead to the specified one of five verdicts. |
| `ConfidentialTx.AcceptedExactlyWhen` | agent/modules/privacy_layer.py:434-454 | The check accepts exactly when all commitments decode and the two sums are both infinite or both finite, as zero excess exactly when they are equal; an input that does not decode is named first. Equal amounts are not required. |
| `ConfidentialTx.SumOfCommitments` | agent/modules/privacy_layer.py:435-445 | Any number of commitments sum to the commitment of the sums. |
| `ConfidentialTx.ExcessIdentity` | agent/modules/privacy_layer.py:408-454 | For any inputs, outputs and fee, inputs minus outputs is excess * G + (inputs - outputs - fee) * H. |
| `ConfidentialTx.BalancedDifference` | agent/modules/privacy_layer.py:408-451 | With balanced amounts the difference is excess * G, and it is infinity exactly when the excess is 0. |
| `ConfidentialTx.BalancedIsAccepted` | agent/modules/privacy_layer.py:434-454 | A balanced transaction with finite sums is accepted, as zero excess exactly when its excess is 0. |
| `ConfidentialTx.AnyAmountsAccepted` | agent/modules/privacy_layer.py:434-454 | For any amounts, balanced or not, a transaction whose two sums are finite is accepted. |
| `ConfidentialTx.UnbalancedIsAccepted` | agent/modules/privacy_layer.py:434-454 | In every group, a concrete transaction that takes its fee from nothing is accepted. |
| `ConfidentialTx.ExcessSignatureShowsBalance` | agent/modules/privacy_layer.py:411-427 | A signature that the builder makes with the excess, without a sender key, satisfies the Schnorr equation on the public commitments exactly when the amounts balance modulo the order or its challenge is 0; the program never checks it. |
| `ConfidentialTx.AnyDifferenceVerifies` | agent/modules/privacy_layer.py:411-427 | With a challenge of 0 chosen by the signer the equation holds for every difference, so that it alone shows nothing. |
| `ConfidentialTx.TwoSignaturesExtract` | agent/modules/privacy_layer.py:418-425 | Two signatures with one nonce and different challenges that satisfy the equation give the logarithm of the difference. |
| `ConfidentialTx.TwoSignaturesShowBalance` | agent/modules/privacy_layer.py:408-425 | Then the amounts balance modulo the order, or the logarithm of H is computed. |
| `AmountDecoder.BuildTable` | agent/modules/privacy_layer.py:326-330 | The table maps exactly the finite multiples of H below the table size to an index of theirs. |
| `AmountDecoder.GiantSteps` | agent/modules/privacy_layer.py:331-346 | Any value found is a right one within the maximum; the sought amount is found exactly when the table size does not divide it. |
| `AmountDecoder.Decode` | agent/modules/privacy_layer.py:316-346 | For a blinding that is not 0 modulo N, a maximum below N and a table no longer than N: never a wrong value, and the hidden amount exactly when it is 0 or not a multiple of the table size. |
| `AmountDecoder.AmountsSeparate` | agent/modules/privacy_layer.py:340-342 | Amounts below the order are told apart by their commitments. |
| `AmountDecoder.HiddenIsUnique` | agent/modules/privacy_layer.py:316-346 | A commitment hides at most one amount under one blinding. |
| `FloatThreshold.RoundHalfEven` | agent/modules/consensus_engine.py:189-190 | Rounding picks a nearest integer, and the even one of two. |
| `FloatThreshold.DivideNearest` | agent/modules/consensus_engine.py:189-190 | The modelled quotient is the correctly rounded one, with a 53-bit mantissa nearest to the exact quotient (roundTiesToEven, section 4.3.1 of IEEE 754-2019). |
| `FloatThreshold.ThresholdValue` | agent/modules/consensus_engine.py:32 | The constant 2 / 3 is (2^54 - 1) / 3 units of 2^-53. |
| `FloatThreshold.ThresholdDecides` | agent/modules/consensus_engine.py:189-190 | For all stakes, the float test holds exactly when 2^54 * (2 * total - 3 * voted) < 5 * total. |
| `FloatThreshold.ThresholdExact` | agent/modules/consensus_engine.py:189-190 | Up to a total of 2^54 / 5 satoshis, above all 21 million coins, that is 3 * voted >= 2 * total. |
| `FloatThreshold.ThresholdInexactAbove` | agent/modules/consensus_engine.py:189-190 | Just above, a vote below two thirds passes: a concrete pair. |
| `Finality.ValidatorRegistry.RegisterValidator` | agent/modules/consensus_engine.py:97-103 | The validator's row is inserted or replaced; nothing else changes. |
| `Finality.ValidatorRegistry.TotalActiveStake` | agent/modules/consensus_engine.py:125-129 | The sum of the stakes of the active, unslashed validators. |
| `Finality.ValidatorRegistry.SlashValidator` | agent/modules/consensus_engine.py:131-135 | The row is marked slashed and inactive; nothing else changes. |
| `Finality.ValidatorRegistry.AddCheckpoint` | agent/modules/consensus_engine.py:137-149 | The checkpoint row is inserted or replaced; nothing else changes. |
| `Finality.ValidatorRegistry.ProcessVote` | agent/modules/consensus_engine.py:168-195 | Both scans, the slash, the count, the float test and the write lead to the specified tables and answer. |
| `Consensus.HybridConsensus.RegisterValidator` | agent/modules/consensus_engine.py:337-348 | A stake below the minimum is refused without effect; any other replaces the row by an active one; the chain is untouched. |
| `Consensus.HybridConsensus.SubmitVote` | agent/modules/consensus_engine.py:322-335 | Only active validators with the minimum stake vote, with their own stake as weight; the answers say whether the vote is taken and whether the target is finalized. |
| `Consensus.HybridConsensus.SubmitBlock` | agent/modules/consensus_engine.py:307-320 | The chain applies the block; if it accepts, a block at a multiple of 100 overwrites its checkpoint row with an empty one; both objects and the answer are as specified, a raising call included. |
| `Consensus.SubmittedExactly` | agent/modules/consensus_engine.py:307-320 | The chain takes its step whatever the verdict, and the tables change only at an accepted block at a multiple of 100, and only its own row. |
| `FinalityRuns.RunConsistent` | agent/modules/consensus_engine.py:168-195 | In every reachable state each checkpoint row has at most one vote per validator and a total that is the sum of the weights. |
| `FinalityRuns.VoteExactly` | agent/modules/consensus_engine.py:168-195 | A validator's first vote for a target: the whole new row field by field, its votes, total, flag and time, with the answer; every other row and all validators stay. |
| `FinalityRuns.NoVoteExactly` | agent/modules/consensus_engine.py:168-186 | A vote that may not be cast changes nothing; a repeated one is not counted and answered with no. |
| `FinalityRuns.OthersExactly` | agent/modules/consensus_engine.py:307-348 | Registrations of 32 coins and more and accepted blocks at multiples of 100 write the rows stated, and all others nothing. |
| `FinalityRuns.FinalityThroughRun` | agent/modules/consensus_engine.py:307-335 | On the tables alone, a finalized checkpoint survives every run without an accepted block of its own hash: later votes, slashes and registrations included. |
| `FinalityRuns.SoleVoterFinalizes` | agent/modules/consensus_engine.py:168-195 | One vote of the only active validator finalizes its target, a checkpoint that is not there included. |
| `Consensus.FinalityThroughCall` | agent/modules/consensus_engine.py:307-348 | A finalized checkpoint survives a call exactly when the call is not the accepted arrival of its own block at a checkpoint height. |
| `Consensus.ArrivalResets` | agent/modules/consensus_engine.py:307-335 | A run from empty tables where it does not: a vote finalizes a hash, then the block with that hash is submitted, passes, is accepted, and takes the finality away. |
| `Consensus.StoredStaysFinal` | agent/modules/consensus_engine.py:307-348 | If predecessor hashes of the submitted headers form no cycle, a finalized checkpoint whose block is stored is final after every run of registrations, votes and blocks. |
| `Consensus.FinalOnceStored` | agent/modules/consensus_engine.py:307-348 | So it is from any point of any run that starts with an empty database. |
| `FinalityRuns.StakeSplits` | agent/modules/consensus_engine.py:125-135 | Without registrations the initial active stake is the present one plus the slashed. |
| `FinalityRuns.QuorumIntersection` | agent/modules/consensus_engine.py:168-195 | From tables without votes, in every run without registrations and for all stakes, any two finalized checkpoints share voters, with 2^54 * (S - 4 * K - 3 * common) < 10 * (S - K) for S the initial active and K the slashed stake. |
| `FinalityRuns.ExactQuorumIntersection` | agent/modules/consensus_engine.py:168-195 | From tables without votes and where the float test is exact: 3 * common >= S - 4 * K, so that without slashing a third of the stake voted for both. |
| `Slashing.EquivocationSlashes` | agent/modules/consensus_engine.py:131-179 | A vote that may be cast, for a target with a vote of the same validator from another source, leaves the checkpoints, sets slashed, clears active, keeps the validator from voting again, and lowers the active stake by its stake. |
| `Slashing.OtherwiseCounts` | agent/modules/consensus_engine.py:174-195 | Without such a vote nobody is slashed, and the rows hold the votes they held and this one. |
| `Slashing.SlashedExactly` | agent/modules/consensus_engine.py:168-195 | From tables without votes, in every run without registrations, a validator that may vote ends slashed and inactive exactly when it votes for one target from two sources without a reset of the target in between; nothing else of its record changes. |
| `FinalityRuns.OneSourceSlashesNobody` | agent/modules/consensus_engine.py:174-179 | From tables without votes, in every run without registrations in which no validator votes for one target from two sources, the validators stay what they were. |
| `FinalityRuns.OneSourceQuorum` | agent/modules/consensus_engine.py:168-195 | In such a run two finalized checkpoints share, up to rounding, a third of all stake in voters, and none of it is slashed. |
| `FinalityRuns.TwoFinalizedNobodySlashed` | agent/modules/consensus_engine.py:168-195 | A validator with all the stake finalizes any two hashes by voting for both, and stays as it was. |
| `FinalityRuns.VotesCount` | agent/modules/consensus_engine.py:168-195 | After any votes with one source per validator and target, each tally is in closed form that of the set of its voters. |
| `FinalityRuns.OrderIndependence` | agent/modules/consensus_engine.py:168-195 | Any order and duplication of the same votes gives the same voters, total and finality, for every checkpoint and all stakes. |
| `Mining.Coinbase` | agent/modules/consensus_engine.py:206-226 | The coinbase is marked as one, has an id, and pays exactly the reward of its height. |
| `Mining.CoinbaseExactly` | agent/modules/consensus_engine.py:206-226 | The coinbase field by field: the input that refers to nothing, the script with the height and the name of the chain, the reward, the script that pays the miner, and the id. |
| `Mining.SortedStably` | agent/modules/consensus_engine.py:237 | The sort of the mempool permutes it, orders it by falling output total, and keeps the order of equal ones. |
| `Mining.SelectTransactions` | agent/modules/consensus_engine.py:234-241 | The selection loop keeps the candidates that still fit when their turn comes. |
| `Mining.SelectionFits` | agent/modules/consensus_engine.py:234-241 | The selection and the assumed coinbase size stay within 4 MiB, and only candidates are selected. |
| `Mining.SelectionIsGreedy` | agent/modules/consensus_engine.py:236-241 | One candidate after others is selected exactly when it fits with those selected before it. |
| `Mining.SelectionIsMaximal` | agent/modules/consensus_engine.py:234-241 | A candidate that is left out does not fit beside the selection. |
| `Mining.BuildBlockTemplate` | agent/modules/consensus_engine.py:228-257 | The template extends the tip with the coinbase of the next height, the transactions selected from the sorted mempool, their Merkle root and the bits the chain asks for; exactly when it raises. |
| `Mining.TemplatePasses` | agent/modules/consensus_engine.py:228-289 | A mined template passes validation on its tip exactly when its hash is below its target, its size within the limit and its time within two hours of the clock. |
| `Mining.PlacedWithoutCoinbase` | agent/modules/blockchain_core.py:335-337 | A block on the tip with its ids and its Merkle root fails without a coinbase in front, whatever else it has. |
| `Mining.TemplatePaysReward` | agent/modules/consensus_engine.py:206-257 | A template from a mempool without coinbases that creates no value is a block of the kind the supply bounds are about. |
| `Utxo.UtxoSet.AddOutputs` | agent/modules/blockchain_core.py:188-195 | The outputs are written as rows in order and committed together; at the first that does not fit 64 bits it raises, and the rows before it stay, uncommitted. |
| `Utxo.UtxoSet.SpendInput` | agent/modules/blockchain_core.py:197-206 | The row is returned, deleted and the deletion committed; a missing one leaves the table; an index above 64 bits raises. |
| `Utxo.UtxoSet.SpendInputs` | agent/modules/blockchain_core.py:352-355 | The inputs are spent up to the first that is missing or raises. |
| `Utxo.UtxoSet.ApplyTransactions` | agent/modules/blockchain_core.py:350-356 | The loop over a block leads to the specified table, committed table and answer, also when it raises half way. |
| `Utxo.BlockSaves` | agent/modules/blockchain_core.py:188-206 | When a block goes through, everything it did to the table is committed. |
| `Utxo.TransactionSaves` | agent/modules/blockchain_core.py:188-206 | Committed after a transaction: all of it when it goes through, and its spends, with all that was pending before them, when it does not. |
| `BlockEffect.SpendsEffect` | agent/modules/blockchain_core.py:352-355 | The spending succeeds exactly when the inputs are distinct and unspent; whether or not it does, the inputs before the first failure are gone and every other row is as it was. |
| `BlockEffect.TransactionEffect` | agent/modules/blockchain_core.py:351-356 | A transaction goes through exactly when it is a coinbase or its inputs are distinct and unspent, and its outputs fit; whether or not it does, every outpoint holds what the part done before the failure creates, consumes or leaves. |
| `BlockEffect.BlockContent` | agent/modules/blockchain_core.py:350-356 | After a block, whether or not it went through, every outpoint holds what the last transaction done that creates or consumes it says, or what the table held. |
| `BlockEffect.BlockAppliesExactly` | agent/modules/blockchain_core.py:350-356 | A block goes through exactly when all its outputs fit and the inputs of every transaction but a coinbase are distinct and, at its turn, in the table or created earlier in the block, and not consumed. |
| `BlockEffect.UnchangedExactly` | agent/modules/blockchain_core.py:350-356 | The table is as it was exactly when every outpoint created or consumed by what was done ends up holding what it held. |
| `Utxo.RowsConserved` | agent/modules/blockchain_core.py:188-206 | For every outpoint and every sequence of row operations: present before plus written equals consumed plus replaced plus present after. |
| `Utxo.ValueConserved` | agent/modules/blockchain_core.py:188-206 | For every sequence of row operations: value before plus value written equals value consumed plus replaced plus value after. |
| `Chain.Blockchain.constructor` | agent/modules/blockchain_core.py:237-245 | An object that opens a database takes the saved tip and the height of its row. |
| `Chain.Blockchain.NameTransactions` | agent/modules/blockchain_core.py:320-322 | Ids are computed for exactly the transactions without one; it raises exactly when one of those cannot be encoded. |
| `Chain.Blockchain.ValidateBlock` | agent/modules/blockchain_core.py:308-340 | The checks in their order give the specified verdict, or raise. |
| `ChainRuns.PassesExactly` | agent/modules/blockchain_core.py:308-340 | For every state, clock and block: the block passes exactly when the header packs, the hash is below coefficient * 256^(exponent - 3), the size within 4 MiB, every unnamed transaction packs, the Merkle root is that of the ids, the time at most two hours ahead, the predecessor the tip if that is stored, and a coinbase first. |
| `ChainRuns.PassedExactly` | agent/modules/blockchain_core.py:308-340 | What a passing block is stored as, and the ids of its transactions: those given, and the hash of the encoding where none is. |
| `ChainRuns.RaisesExactly` | agent/modules/blockchain_core.py:308-345 | The call raises exactly when the header does not pack, or an unnamed transaction does not after the target and size checks. |
| `Chain.Blockchain.ApplyBlock` | agent/modules/blockchain_core.py:342-381 | The tables, the tip and the answer after an accepted, a rejected and a raising call, the effects that a rejected block leaves included. |
| `ChainRuns.TablesExactly` | agent/modules/blockchain_core.py:342-381 | A block that is not accepted leaves the rows, the tip and the height, and one that fails validation everything; an accepted one becomes the tip and the last row, in place of any with its hash. |
| `Chain.Blockchain.GetNextBits` | agent/modules/blockchain_core.py:383-407 | The four cases of the difficulty rule, with the tip's row, the row a period earlier, and the fallback. |
| `ChainRuns.NextBitsExactly` | agent/modules/blockchain_core.py:383-407 | The bits asked for below the first boundary, with a row missing, off the boundaries and at one, in terms of the first row at the height a period below. |
| `ChainRuns.FirstAtExactly` | agent/modules/blockchain_core.py:302-306 | The row read at a height is the first inserted there. |
| `ChainRuns.ConsistentRun` | agent/modules/blockchain_core.py:342-381 | In every reachable state block hashes are distinct and the tip is a stored block at the chain's height. |
| `ChainRuns.RestartRecovers` | agent/modules/blockchain_core.py:275-285 | After every run, reopening the database gives the same blocks, tip and height, and the unspent outputs but for the pending writes of a rejected block. |
| `ChainRuns.AcceptedIsSaved` | agent/modules/blockchain_core.py:347-379 | After an accepted block nothing is pending. |
| `ChainRuns.ValidatedIsSaved` | agent/modules/blockchain_core.py:335-379 | A block that passes starts with a coinbase, and so nothing is pending after one that is accepted. |
| `ChainRuns.PassedExtendsTip` | agent/modules/blockchain_core.py:331-333 | After every run, only blocks whose predecessor is the tip pass validation. |
| `ChainRuns.NoDoubleSpend` | agent/modules/blockchain_core.py:342-381 | In every run, rejected blocks included, each outpoint is consumed at most as often as it was written. |
| `ChainRuns.ValueBounded` | agent/modules/blockchain_core.py:342-381 | In every run of blocks that pay the reward and create no other value, the unspent value is at most the rewards of the blocks that passed validation, accepted or not. |
| `ChainRuns.SupplyBounded` | agent/modules/blockchain_core.py:342-413 | When all of them are accepted, it is at most the rewards up to the tip, and at most 2,099,999,997,690,000 satoshis. |
| `BlockValue.BlockAdds` | agent/modules/blockchain_core.py:350-356 | Every block, whether or not it goes through, changes the value of the unspent outputs by exactly what the part done creates: outputs less the values consumed and replaced, outpoint by outpoint. |
| `BlockValue.AcceptedAdds` | agent/modules/blockchain_core.py:347-381 | An accepted block adds exactly the outputs of all its transactions less the values they consume and replace, and keeps to an allowance such as its reward exactly when that difference does. |
| `BlockValue.SupplyExactly` | agent/modules/blockchain_core.py:342-381 | The value of the unspent outputs after every run, rejected blocks included and with no premise on the blocks, is what its blocks created. |
| `ChainRuns.AcceptedExactly` | agent/modules/blockchain_core.py:347-381 | A block that passes validation is accepted exactly when it is applicable, a condition on the table and the transactions, and its height fits 64 bits. |
| `ChainRuns.AtomicExactly` | agent/modules/blockchain_core.py:347-381 | For every block that passes validation, application is all or nothing exactly when the block is applicable and its height fits, or what is done before the failure leaves no trace on the table. |
| `ChainRuns.FreshAtomicExactly` | agent/modules/blockchain_core.py:347-381 | With a coinbase whose first output is new and not spent in the block, exactly when the block is applicable; that output stays in the table even when the block is rejected. |
| `Rejections.FirstBlockPasses` | agent/modules/blockchain_core.py:308-340 | With a hash of zeros, every block of a coinbase and at least one other transaction, all with ids, passes validation on an empty chain. |
| `Rejections.MoneyFromNothing` | agent/modules/blockchain_core.py:308-381 | On an empty chain a block is accepted that creates any amount of 64 bits without inputs, and with 2^62 more than the whole supply. |
| `Rejections.RejectionsKeepReward` | agent/modules/blockchain_core.py:342-381 | Two concrete blocks that pass validation and are rejected, one for a missing input and one for an amount of 2^63, whose reward stays spendable above the rewards up to the tip. |
| `BlockIdentity.HeaderLayout` | agent/modules/blockchain_core.py:117-124 | The 80 bytes that are hashed: version, previous hash and Merkle root in reverse, timestamp, bits, nonce. |
| `BlockIdentity.HeaderInjective` | agent/modules/blockchain_core.py:117-124 | The hashed encoding of a header determines every field but the height. |
| `BlockIdentity.HashBindsBlock` | agent/modules/blockchain_core.py:308-340 | Without a collision on the strings hashed, two blocks that pass with one hash and one number of transactions have the same header but for the height and the same transaction ids. |
| `BlockIdentity.HashBindsBodies` | agent/modules/blockchain_core.py:308-340 | When, besides, no ids come with the transactions and no two encodings collide, they also have the same inputs, outputs, versions and lock times. |
| `BlockIdentity.BodiesAreFree` | agent/modules/blockchain_core.py:320-324 | When ids come with the transactions, they are not recomputed: a block that passes does so with any other inputs, outputs and amounts under the same ids, and with the same hash. |
| `BlockIdentity.HeightIsFree` | agent/modules/blockchain_core.py:308-340 | A block that passes does so with any height, under one hash. |
| `Rewards.SumByIntervals` | agent/modules/blockchain_core.py:409-413 | The rewards of k intervals and j blocks in closed form, for all k and j. |
| `Rewards.SupplyCapped` | agent/modules/blockchain_core.py:409-413 | All rewards stay within 2,099,999,997,690,000 satoshis, and reach it exactly from height 6,930,000 on. |
| `Difficulty.BelowTargetMeans` | agent/modules/blockchain_core.py:32-35 | Whether the target is an integer or a float, the comparison with a hash is the one with coefficient * 256^(exponent - 3). |
| `Difficulty.TargetFields` | agent/modules/blockchain_core.py:32-35 | In terms of the stored fields the comparison is with c * 256^(e - 3), and bit 23 does not enter it. |
| `Difficulty.ExponentFromDigits` | agent/modules/blockchain_core.py:39-41 | The stored exponent is half the number of hexadecimal digits, cut at 64. |
| `Difficulty.EncoderRaises` | agent/modules/blockchain_core.py:38-43 | Encoding raises exactly for targets of fewer than six digits. |
| `Difficulty.NeverRaised` | agent/modules/blockchain_core.py:32-43 | Encoding and decoding never raises a target. |
| `Difficulty.LossBelowUnit` | agent/modules/blockchain_core.py:32-43 | The loss is below 256^(e-3) exactly when there are at most 64 digits, an even number, and the leading one is at most 7. |
| `Difficulty.Lossless` | agent/modules/blockchain_core.py:32-43 | Nothing is lost exactly when, besides, the bytes shifted out are zero. |
| `Difficulty.EncodeDecoded` | agent/modules/blockchain_core.py:32-43 | Compact bits are the encoding of their target exactly when the exponent is at most 32, bit 23 is clear and the coefficient has six digits. |
| `Difficulty.TargetWithinFour` | agent/modules/blockchain_core.py:401-406 | The new target lies between a quarter of the old, rounded down, and four times it. |
| `Difficulty.TargetMonotone` | agent/modules/blockchain_core.py:401-406 | The new target never falls when the timespan or the old target grows. |
| `Difficulty.NewTargetExactly` | agent/modules/blockchain_core.py:401-406 | From half a week to eight weeks the new target is the old one times the timespan over 1209600, rounded down; outside it is the one at the bound. |
| `Difficulty.RetargetedExactly` | agent/modules/blockchain_core.py:401-407 | A retarget raises exactly from bits with an exponent below 3 and to targets of fewer than six digits, and otherwise encodes the new target. |
| `Difficulty.RetargetedBounds` | agent/modules/blockchain_core.py:401-407 | The target in force after a retarget is at most four times the one it was computed from. |
| `Difficulty.OnSchedule` | agent/modules/blockchain_core.py:401-407 | Blocks exactly on schedule keep the bits exactly when the bits are canonical. |
| `Difficulty.TopBitLost` | agent/modules/blockchain_core.py:32-43 | Every 16-bit coefficient with its top bit set, such as that of GENESIS_BITS, loses it on schedule, and the target more than halves. |
| `RetargetPeriods.RetargetSkipsPeriod` | agent/modules/blockchain_core.py:383-407 | In every chain of template blocks a period is retargeted, by the duration of the period before, from the bits of the period before that one; the first from the genesis block's, the second from GENESIS_BITS. |
| `RetargetPeriods.TemplateRunFollows` | agent/modules/blockchain_core.py:342-407 | Every run of accepted template blocks leaves such a chain. |
| `RetargetPeriods.RunSkipsPeriod` | agent/modules/blockchain_core.py:342-407 | So it holds for every run from an empty database. |
| `Merkle.ComputeMerkleRoot` | agent/modules/blockchain_core.py:140-148 | The pairing loop with the last element repeated ends, and computes the root of the recursively defined tree. |
| `Merkle.RootExactly` | agent/modules/blockchain_core.py:140-148 | The root of no ids, of one and of two, and of any as that of the reversed ids, reversed. |
| `Merkle.RootOfPairs` | agent/modules/blockchain_core.py:144-147 | Hashing neighbours, the last without one beside itself, keeps the root: with the root of one leaf this determines every root. |
| `Merkle.RootBinds` | agent/modules/blockchain_core.py:140-148 | Without a collision at a node, two lists of 32-byte ids of one length with one root are equal. |
| `Merkle.RepeatedLastSameRoot` | agent/modules/blockchain_core.py:145-146 | The length is not bound: repeating the last of an odd number of ids keeps the root. |
| `Transactions.AppendInputs` | agent/modules/blockchain_core.py:78-83 | The loop over the inputs appends exactly their encodings, and raises exactly when one does not pack. |
| `Transactions.AppendOutputs` | agent/modules/blockchain_core.py:85-88 | The loop over the outputs, in the same way. |
| `Transactions.SerializeForSigning` | agent/modules/blockchain_core.py:75-90 | The encoding of a transaction, or none exactly when some field does not pack. |
| `Transactions.PacksExactly` | agent/modules/blockchain_core.py:75-90 | The numbers and lengths for which no field raises. |
| `Transactions.SerializedLayout` | agent/modules/blockchain_core.py:75-90 | Where version, counts, inputs, outputs and lock time stand, in little-endian order. |
| `Transactions.InputLayout` | agent/modules/blockchain_core.py:79-80 | The previous id in reverse in front of the rest of an input. |
| `Transactions.AfterIdLayout` | agent/modules/blockchain_core.py:80-83 | The index, the length and bytes of the script, and the sequence number. |
| `Transactions.OutputLayout` | agent/modules/blockchain_core.py:86-88 | The amount in two's complement, and the length and bytes of the script. |
| `Transactions.SerializedInjective` | agent/modules/blockchain_core.py:75-90 | With 32-byte previous ids, equal bytes imply equal version, inputs, outputs and lock time, over lists of any length that packs. |
| `StreamReassembly.DrainLoop` | agent/modules/network_node.py:246-252 | The inner loop delivers every message at the front of the buffer and keeps the rest. |
| `StreamReassembly.PeerLoop` | agent/modules/network_node.py:234-252 | The outer loop over reads, with the buffer cap, computes the specified session. |
| `StreamReassembly.EndsAtEmptyRead` | agent/modules/network_node.py:239-241 | An empty read ends the session, whatever comes after it. |
| `StreamReassembly.DrainSplit` | agent/modules/network_node.py:246-252 | Draining a part and then its rest with more bytes is draining the whole. |
| `StreamReassembly.ChunkingIrrelevant` | agent/modules/network_node.py:236-252 | Two splits of one stream, valid or not, that do not hit the cap give the same messages and buffer. |
| `StreamReassembly.Reassembly` | agent/modules/network_node.py:236-252 | For frames with room below the cap and any part of their stream in any reads: no overflow, exactly the whole frames in order, and a proper prefix of the next frame buffered. |
| `StreamReassembly.WholeStream` | agent/modules/network_node.py:236-252 | The whole stream in any reads gives exactly its messages, with nothing left over. |
| `StreamReassembly.RoomExactly` | agent/modules/network_node.py:236-252 | Every split of every part of a stream of frames stays below the cap exactly when at each frame the largest read that can follow all of it but its last byte does. |
| `StreamReassembly.OversizedOverflows` | agent/modules/network_node.py:243-245 | A frame above the cap overflows in every split, with nothing delivered. |
| `StreamReassembly.StuckForever` | agent/modules/network_node.py:236-252 | From a buffer that nothing completes to a message, no reads deliver anything: they pile up, and the session ends at the cap exactly when they exceed it. |
| `Framing.CanonicalCommand` | agent/modules/network_node.py:75-86 | ASCII commands of at most 12 characters without a zero at the end arrive unchanged. |
| `Framing.BuildsExactly` | agent/modules/network_node.py:74-78 | Exactly which commands and payloads are framed, and every byte of the frame, the checksum as the first four bytes of the hash. |
| `Framing.ParsesExactly` | agent/modules/network_node.py:81-96 | A message parses exactly when its whole frame is in front: magic, command, length, the first four bytes of the hash of the payload, payload. |
| `Framing.AlteredPayload` | agent/modules/network_node.py:70-96 | A built frame with its payload replaced by another of the same length parses exactly when the first four bytes of the two hashes agree. |
| `Framing.ParseBuilt` | agent/modules/network_node.py:74-96 | A built frame parses to its command and payload whatever follows it. |
| `Framing.ParseCut` | agent/modules/network_node.py:81-96 | No proper prefix of a built frame parses. |
| `Framing.ParseStable` | agent/modules/network_node.py:81-96 | Once a message parses, more bytes do not change it. |
| `Framing.BuiltStreamReassembles` | agent/modules/network_node.py:74-252 | For any part of a stream of built messages with room at each frame, in any reads of at most 65536 bytes, the loop delivers exactly the whole messages in order and keeps a proper prefix of the next. |
| `Framing.BuiltStreamArrives` | agent/modules/network_node.py:74-252 | The whole stream delivers exactly the messages sent, and leaves nothing. |
| `Framing.BuiltRoomExactly` | agent/modules/network_node.py:74-252 | Every split of such a stream is received exactly when there is room at each frame. |
| `Framing.LargestPayloadsOverflow` | agent/modules/network_node.py:88-96 | Payloads within 24 bytes of the maximum parse and are still never received. |
| `Framing.StuckExactly` | agent/modules/network_node.py:81-96 | A buffer that holds all its header announces never parses, whatever follows, exactly when its magic, its length or its checksum is wrong. |
| `Framing.BrokenStreamDeliversNothing` | agent/modules/network_node.py:81-252 | After the first bytes with a wrong magic, length or checksum no later reads deliver a message: the loop does not look for the next one. |
| `Framing.ArrivesUpToBreak` | agent/modules/network_node.py:81-252 | Of whole messages followed by such bytes exactly the messages before them arrive, in every split below the cap. |
| `Base58.EncodeDigits` | agent/modules/wallet.py:39-43 | The division loop gives the radix-58 digits. |
| `Base58.Encode` | agent/modules/wallet.py:33-50 | The encoder gives the digits of payload and checksum after a 1 for each leading zero byte. |
| `Base58.EncodedExactly` | agent/modules/wallet.py:33-50 | An encoding has the value of the payload and the first four bytes of its hash, and a 1 for each zero byte in front. |
| `Base58.ValueOfDigits` | agent/modules/wallet.py:106-111 | Reading back the digits, after any number of leading 1s, gives the number. |
| `Base58.EncodedInjective` | agent/modules/wallet.py:33-50 | No two payloads of any lengths have the same encoding. |
| `Base58.Accumulate` | agent/modules/wallet.py:109-111 | The accumulation over the characters gives the number, or raises at a character outside the alphabet. |
| `Base58.ToAddressBytes` | agent/modules/wallet.py:112-124 | 25 bytes without leading zeros, or the first width from 20 on that holds the number. |
| `Base58.AddressBytesExactly` | agent/modules/wallet.py:112-124 | The bytes have the value read, at least 20 of them and at most 25, and no more above 20 than it needs. |
| `Base58.AddressToHash160` | agent/modules/wallet.py:106-130 | The decoder gives the specified bytes or one of its three exceptions. |
| `Base58.DecodeRaises` | agent/modules/wallet.py:106-129 | Exactly which addresses raise for a character and for their size. |
| `Base58.DecodesExactly` | agent/modules/wallet.py:125-130 | Any other decodes, to the bytes between version and checksum, exactly when its last four bytes are the first four of the hash of the others. |
| `Base58.RoundTrip` | agent/modules/wallet.py:33-130 | An address of a version byte and 20 bytes decodes to the 20 bytes exactly when the version byte is not zero. |
| `Base58.SameValueExactly` | agent/modules/wallet.py:106-109 | Two strings over the alphabet have the same value exactly when they are the same but for the 1s in front. |
| `Base58.OnesDecodeAlike` | agent/modules/wallet.py:106-130 | Any number of 1s in front of a string leaves what the decoder makes of it, its exceptions included. |
| `Base58.DecodeAlikeExactly` | agent/modules/wallet.py:106-130 | Two addresses that decode do so from the same version byte, hash and checksum exactly when they are the same but for the 1s in front. |

## Left out

- StreamReassembly.PeerLoop: takes the reads as a list; timeouts, closing and the message handlers are not part of the model.
- Associativity of the curve, the order of its points (of H in particular) and the primality of P and N: premises of the theorems that need them, not proved.
- SHA-256, RIPEMD-160 and HMAC are function parameters; binding theorems have freedom from collisions on the strings hashed as a premise. The RFC 6979 nonce, random draws, clocks and the JSON size of transactions are parameters.
- The search for H. The message that the excess signature covers, and the identifier of a confidential transaction, are not spelled out: the message is a function of the commitments.
- Hexadecimal strings: byte strings are modelled, so that upper and lower case, and errors of the hex parser, are not.
- SQLite, JSON and files: tables are maps and sequences with insert-or-replace and the commits of each connection. Numbers above 64 bits raise as in the program; other errors of the storage, such as locks between the connections, are not modelled.
- Range of binary64 exponents: quotients that overflow or underflow are not modelled; sums of stakes are integers.
- The float target of bits with an exponent below 3: modelled as the exact number it is; retargeting from it raises, as in the program.
- Liveness of mining: the nonce search; the hash of a mined block is compared with its target like any other.
- The linear amount scan, which returns the value less one, and the check of stored range proofs, which is one call of `RangeProof.VerifyProof` for each output.
- HTLC scripts: the repository has no interpreter that would give them a meaning.
- Peers, sockets, seeds, RPC, the orchestrator, wallet storage and the key-value memory: no arithmetic or protocol of their own.
- Block JSON for rebuilding stored blocks: only the columns that are read back are kept.
