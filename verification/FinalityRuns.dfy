/** What every run of the finality gadget keeps: tallies, finality, quorum intersection, and the
    independence of the outcome from the order and duplication of votes. */
module FinalityRuns {
  import opened FloatThreshold
  import opened Sums
  import opened Finality
  import opened Wrappers

  ghost function Voters(votes: seq<FinalityVote>): set<Address> {
    set i | 0 <= i < |votes| :: votes[i].validator
  }

  ghost function TotalWeight(votes: seq<FinalityVote>): int {
    if votes == [] then 0 else TotalWeight(votes[..|votes| - 1]) + votes[|votes| - 1].stakeWeight
  }

  ghost predicate DistinctVoters(votes: seq<FinalityVote>) {
    forall i, j :: 0 <= i < j < |votes| ==> votes[i].validator != votes[j].validator
  }

  /** One vote for each validator, and the total is the sum of the vote weights. */
  ghost predicate Tallied(h: BlockHash, c: Checkpoint) {
    c.blockHash == h && DistinctVoters(c.votes) && c.totalStakeVoted == TotalWeight(c.votes)
  }

  ghost predicate SoundRecord(a: Address, r: ValidatorRecord) {
    r.address == a && MIN_STAKE_SATOSHIS <= r.stake && (r.slashed ==> !r.isActive)
  }

  ghost predicate Consistent(s: State) {
    && (forall a :: a in s.validators ==> SoundRecord(a, s.validators[a]))
    && (forall h :: h in s.checkpoints ==> Tallied(h, s.checkpoints[h]))
  }

  lemma {:induction false} VotersOfAppend(votes: seq<FinalityVote>, vote: FinalityVote)
    ensures Voters(votes + [vote]) == Voters(votes) + {vote.validator}
    ensures TotalWeight(votes + [vote]) == TotalWeight(votes) + vote.stakeWeight
    ensures vote.validator in Voters(votes) <==> HasVoted(votes, vote.validator)
  {
    var all := votes + [vote];
    assert all[..|votes|] == votes;
    forall a | a in Voters(votes) + {vote.validator}
      ensures a in Voters(all)
    {
      if a == vote.validator {
        assert all[|votes|].validator == a;
      } else {
        var i :| 0 <= i < |votes| && votes[i].validator == a;
        assert all[i].validator == a;
      }
    }
  }

  lemma TalliedWithVote(h: BlockHash, c: Checkpoint, vote: FinalityVote, reached: bool, now: int)
    requires Tallied(h, c) && !HasVoted(c.votes, vote.validator)
    ensures Tallied(h, WithVote(c, vote, reached, now))
  {
    VotersOfAppend(c.votes, vote);
  }

  lemma ProcessedConsistent(s: State, vote: FinalityVote, reached: bool, now: int)
    requires Consistent(s)
    ensures Consistent(Processed(s, vote, reached, now).0)
  {
    var c := RowOrNew(s, vote.target);
    assert Tallied(vote.target, c);
    if !HasVoted(c.votes, vote.validator) {
      TalliedWithVote(vote.target, c, vote, reached, now);
    }
  }

  lemma StepConsistent(s: State, e: Event)
    requires Consistent(s)
    ensures Consistent(Step(s, e))
  {
    if e.Vote? {
      var vote := Weighted(s.validators, e.vote);
      ProcessedConsistent(s, vote, Reached(s, vote, ActiveStake(s.validators)), e.now);
    }
  }

  /** Every reachable state is consistent. */
  lemma {:induction false} RunConsistent(s: State, es: seq<Event>)
    requires Consistent(s)
    ensures Consistent(Run(s, es))
  {
    if es == [] {
    } else {
      RunConsistent(s, es[..|es| - 1]);
      StepConsistent(Run(s, es[..|es| - 1]), es[|es| - 1]);
    }
  }

  // ----- One step, field by field -----

  /** Registrations and blocks: 32 coins at least, and checkpoints at multiples of 100 */
  lemma {:induction false} OthersExactly(s: State, a: Address, stake: int, txid: string, h: BlockHash, height: int)
    ensures Step(s, Register(a, stake, txid, height))
         == if stake < 3_200_000_000 then s
            else State(s.validators[a := ValidatorRecord(a, stake, txid, height, true, false)], s.checkpoints)
    ensures Step(s, Block(h, height, false)) == s
    ensures Step(s, Block(h, height, true))
         == if height % 100 != 0 then s
            else State(s.validators, s.checkpoints[h := Checkpoint(h, height, 0, [], false, None)])
  {}

  /** The first vote of a validator for a target: it is recorded and weighs the validator's stake; the row is final from
      the moment its total is enough of the active stake, and stays so; the answer says whether it is. */
  lemma {:induction false} VoteExactly(s: State, vote: FinalityVote, now: int)
    requires Consistent(s) && MayVote(s.validators, vote.validator)
    requires vote.target in s.checkpoints ==>
      forall k :: 0 <= k < |s.checkpoints[vote.target].votes| ==>
        s.checkpoints[vote.target].votes[k].validator != vote.validator
    ensures var t, stake := Step(s, Vote(vote, now)), s.validators[vote.validator].stake;
      var known := vote.target in s.checkpoints;
      var total := (if known then s.checkpoints[vote.target].totalStakeVoted else 0) + stake;
      var before := known && s.checkpoints[vote.target].isFinalized;
      var enough := 0 <= total && 0 < ActiveStake(s.validators) && Decides(total, ActiveStake(s.validators));
      && t.validators == s.validators && t.checkpoints.Keys == s.checkpoints.Keys + {vote.target}
      && (forall h :: h in s.checkpoints && h != vote.target ==> t.checkpoints[h] == s.checkpoints[h])
      && t.checkpoints[vote.target].votes
         == (if known then s.checkpoints[vote.target].votes else []) + [vote.(stakeWeight := stake)]
      && t.checkpoints[vote.target].totalStakeVoted == total
      && t.checkpoints[vote.target].height == (if known then s.checkpoints[vote.target].height else 0)
      && (t.checkpoints[vote.target].isFinalized <==> before || enough)
      && t.checkpoints[vote.target].finalizedAt
         == (if !before && enough then Some(now)
             else if known then s.checkpoints[vote.target].finalizedAt else None)
      && Submitted(s, vote, now).1 == t.checkpoints[vote.target].isFinalized
  {
    var c, weighted := RowOrNew(s, vote.target), Weighted(s.validators, vote);
    assert !HasVoted(c.votes, vote.validator) && !Equivocates(c.votes, weighted);
    if 0 <= c.totalStakeVoted + weighted.stakeWeight {
      ReachesDecides(c.totalStakeVoted + weighted.stakeWeight, ActiveStake(s.validators));
    }
  }

  /** Every other vote: one that may not be cast changes nothing; a repeated one is not counted and answered with no. */
  lemma {:induction false} NoVoteExactly(s: State, vote: FinalityVote, now: int)
    requires Consistent(s)
    ensures !MayVote(s.validators, vote.validator) ==> Step(s, Vote(vote, now)) == s
    ensures MayVote(s.validators, vote.validator) && vote.target in s.checkpoints
            && HasVoted(s.checkpoints[vote.target].votes, vote.validator) ==>
              && Step(s, Vote(vote, now)).checkpoints == s.checkpoints && !Submitted(s, vote, now).1
              && (!Equivocates(s.checkpoints[vote.target].votes, vote) ==> Step(s, Vote(vote, now)) == s)
  {}

  // ----- Finality persists -----

  predicate IsFinalized(s: State, h: BlockHash) {
    h in s.checkpoints && s.checkpoints[h].isFinalized
  }

  /** The event rewrites the row of h with an empty checkpoint. */
  predicate Resets(e: Event, h: BlockHash) {
    e.Block? && e.accepted && e.blockHash == h && e.height % CHECKPOINT_INTERVAL == 0
  }

  /** A finalized checkpoint stays finalized through a step exactly when the step does not reset it. */
  lemma FinalityThroughStep(s: State, e: Event, h: BlockHash)
    requires Consistent(s) && IsFinalized(s, h)
    ensures IsFinalized(Step(s, e), h) <==> !Resets(e, h)
  {}

  lemma {:induction false} FinalityThroughRun(s: State, es: seq<Event>, h: BlockHash)
    requires Consistent(s) && IsFinalized(s, h)
    requires forall i :: 0 <= i < |es| ==> !Resets(es[i], h)
    ensures IsFinalized(Run(s, es), h)
  {
    if es == [] {
    } else {
      var before := es[..|es| - 1];
      FinalityThroughRun(s, before, h);
      RunConsistent(s, before);
      FinalityThroughStep(Run(s, before), es[|es| - 1], h);
    }
  }

  /** A vote of the only active validator finalizes a hash that has no row yet, whether or not it has a block. */
  lemma SoleVoterFinalizes(s: State, vote: FinalityVote, now: int)
    requires MayVote(s.validators, vote.validator) && ActiveSet(s.validators) == {vote.validator}
    requires vote.target !in s.checkpoints
    ensures IsFinalized(Step(s, Vote(vote, now)), vote.target)
    ensures Step(s, Vote(vote, now)).validators == s.validators
    ensures Step(s, Vote(vote, now)).checkpoints.Keys == s.checkpoints.Keys + {vote.target}
  {
    var stake := s.validators[vote.validator].stake;
    SumAdd(StakeOf(s.validators), {}, vote.validator);
    assert {} + {vote.validator} == {vote.validator};
    assert ActiveStake(s.validators) == stake;
    ReachesDecides(stake, stake);
  }

  // ----- Quorum intersection -----

  ghost predicate NoVotesYet(s: State) {
    forall h :: h in s.checkpoints ==>
      s.checkpoints[h].votes == [] && s.checkpoints[h].totalStakeVoted == 0 && !s.checkpoints[h].isFinalized
  }

  ghost predicate NoRegistrations(es: seq<Event>) {
    forall i :: 0 <= i < |es| ==> !es[i].Register?
  }

  /** Only slashing has happened to the validators since vs0. */
  ghost predicate OnlySlashed(vs0: Validators, vs: Validators) {
    && vs.Keys == vs0.Keys
    && forall a :: a in vs0 ==> vs[a] == vs0[a] || vs[a] == vs0[a].(slashed := true, isActive := false)
  }

  /** Distinct initially active voters, counted with their initial stakes; enough of the stake if finalized. */
  ghost predicate RowUnderway(vs0: Validators, vs: Validators, c: Checkpoint) {
    && Voters(c.votes) <= ActiveSet(vs0)
    && c.totalStakeVoted == Sum(StakeOf(vs0), Voters(c.votes))
    && (c.isFinalized ==> Decides(c.totalStakeVoted, ActiveStake(vs)))
  }

  ghost predicate Underway(vs0: Validators, s: State) {
    && OnlySlashed(vs0, s.validators)
    && forall h :: h in s.checkpoints ==> RowUnderway(vs0, s.validators, s.checkpoints[h])
  }

  ghost predicate PositiveStakes(vs: Validators) {
    forall a :: a in vs ==> SoundRecord(a, vs[a])
  }

  lemma ActiveStakeLater(vs0: Validators, vs: Validators)
    requires OnlySlashed(vs0, vs) && PositiveStakes(vs0)
    ensures ActiveSet(vs) <= ActiveSet(vs0)
    ensures ActiveStake(vs) == Sum(StakeOf(vs0), ActiveSet(vs)) <= ActiveStake(vs0)
  {
    SumCong(StakeOf(vs), StakeOf(vs0), ActiveSet(vs));
    SumSubset(StakeOf(vs0), ActiveSet(vs), ActiveSet(vs0));
  }

  lemma SlashKeepsUnderway(vs0: Validators, s: State, a: Address)
    requires Underway(vs0, s) && Consistent(s) && PositiveStakes(vs0)
    ensures Underway(vs0, s.(validators := Slash(s.validators, a)))
  {
    var vs, vs' := s.validators, Slash(s.validators, a);
    assert OnlySlashed(vs, vs');
    ActiveStakeLater(vs, vs');
  }

  lemma ReachesDecides(voted: int, total: int)
    requires 0 <= voted
    ensures Reaches(voted, total) <==> 0 < total && Decides(voted, total)
  {
    if 0 < total {
      ThresholdDecides(voted, total);
    }
  }

  /** A row stays underway when a validator's first vote is counted. */
  lemma CountedRowUnderway(vs0: Validators, vs: Validators, c: Checkpoint, vote: FinalityVote, reached: bool, now: int)
    requires RowUnderway(vs0, vs, c) && OnlySlashed(vs0, vs) && PositiveStakes(vs0)
    requires MayVote(vs, vote.validator) && vote.stakeWeight == vs[vote.validator].stake
    requires SoundRecord(vote.validator, vs[vote.validator]) && !HasVoted(c.votes, vote.validator)
    requires reached ==> Decides(c.totalStakeVoted + vote.stakeWeight, ActiveStake(vs))
    ensures RowUnderway(vs0, vs, WithVote(c, vote, reached, now))
  {
    VotersOfAppend(c.votes, vote);
    SumAdd(StakeOf(vs0), Voters(c.votes), vote.validator);
  }

  /** A vote for a hash without a row starts from the empty row. */
  lemma RowOrNewUnderway(vs0: Validators, s: State, h: BlockHash)
    requires Underway(vs0, s)
    ensures RowUnderway(vs0, s.validators, RowOrNew(s, h))
  {
    if h !in s.checkpoints {
      assert Voters([]) == {};
    }
  }

  lemma ProcessedKeepsUnderway(vs0: Validators, s: State, vote: FinalityVote, reached: bool, now: int)
    requires Underway(vs0, s) && Consistent(s) && PositiveStakes(vs0)
    requires MayVote(s.validators, vote.validator) && vote.stakeWeight == s.validators[vote.validator].stake
    requires reached ==>
      Decides(RowOrNew(s, vote.target).totalStakeVoted + vote.stakeWeight, ActiveStake(s.validators))
    ensures Underway(vs0, Processed(s, vote, reached, now).0)
  {
    var c := RowOrNew(s, vote.target);
    if Equivocates(c.votes, vote) {
      SlashKeepsUnderway(vs0, s, vote.validator);
    } else if !HasVoted(c.votes, vote.validator) {
      RowOrNewUnderway(vs0, s, vote.target);
      CountedRowUnderway(vs0, s.validators, c, vote, reached, now);
    }
  }

  /** For a row underway the float test says what it should. */
  lemma ReachedMeans(vs0: Validators, s: State, vote: FinalityVote)
    requires Underway(vs0, s) && PositiveStakes(vs0) && 0 <= vote.stakeWeight
    ensures Reached(s, vote, ActiveStake(s.validators)) ==>
      Decides(RowOrNew(s, vote.target).totalStakeVoted + vote.stakeWeight, ActiveStake(s.validators))
  {
    var c := RowOrNew(s, vote.target);
    ActiveStakeLater(vs0, s.validators);
    SumNonneg(StakeOf(vs0), Voters(c.votes));
    ReachesDecides(c.totalStakeVoted + vote.stakeWeight, ActiveStake(s.validators));
  }

  lemma StepKeepsUnderway(vs0: Validators, s: State, e: Event)
    requires Underway(vs0, s) && Consistent(s) && PositiveStakes(vs0)
    requires !e.Register?
    ensures Underway(vs0, Step(s, e))
  {
    if e.Vote? && MayVote(s.validators, e.vote.validator) {
      var vote := Weighted(s.validators, e.vote);
      ReachedMeans(vs0, s, vote);
      ProcessedKeepsUnderway(vs0, s, vote, Reached(s, vote, ActiveStake(s.validators)), e.now);
    }
  }

  lemma {:induction false} RunKeepsUnderway(s0: State, es: seq<Event>)
    requires Consistent(s0) && NoVotesYet(s0) && NoRegistrations(es)
    ensures Underway(s0.validators, Run(s0, es)) && Consistent(Run(s0, es))
  {
    if es == [] {
    } else {
      var before := es[..|es| - 1];
      RunKeepsUnderway(s0, before);
      StepKeepsUnderway(s0.validators, Run(s0, before), es[|es| - 1]);
      StepConsistent(Run(s0, before), es[|es| - 1]);
    }
  }

  /** The stake of the initially active validators that have been slashed since */
  ghost function SlashedStake(vs0: Validators, vs: Validators): int {
    Sum(StakeOf(vs0), set a | a in ActiveSet(vs0) && a in vs && vs[a].slashed)
  }

  /** Slashing moves stake out of the active sum and nowhere else. */
  lemma StakeSplits(vs0: Validators, vs: Validators)
    requires OnlySlashed(vs0, vs) && PositiveStakes(vs0)
    ensures ActiveStake(vs0) == ActiveStake(vs) + SlashedStake(vs0, vs)
  {
    var slashed := set a | a in ActiveSet(vs0) && a in vs && vs[a].slashed;
    ActiveStakeLater(vs0, vs);
    assert ActiveSet(vs0) == ActiveSet(vs) + slashed;
    SumUnion(StakeOf(vs0), ActiveSet(vs), slashed);
  }

  /** The stake, at the start, of the voters that two checkpoints share */
  ghost function CommonStake(vs0: Validators, s: State, h1: BlockHash, h2: BlockHash): int
    requires h1 in s.checkpoints && h2 in s.checkpoints
  {
    Sum(StakeOf(vs0), Voters(s.checkpoints[h1].votes) * Voters(s.checkpoints[h2].votes))
  }

  /** Two finalized checkpoints each have enough of the final active stake, counted at the start. */
  lemma {:induction false} BothEnough(s0: State, es: seq<Event>, h1: BlockHash, h2: BlockHash)
    requires Consistent(s0) && NoVotesYet(s0) && NoRegistrations(es)
    requires IsFinalized(Run(s0, es), h1) && IsFinalized(Run(s0, es), h2)
    ensures var vs0, s := s0.validators, Run(s0, es);
      var v1, v2 := s.checkpoints[h1].totalStakeVoted, s.checkpoints[h2].totalStakeVoted;
      && Decides(v1, ActiveStake(s.validators)) && Decides(v2, ActiveStake(s.validators))
      && CommonStake(vs0, s, h1, h2) >= v1 + v2 - ActiveStake(vs0)
      && ActiveStake(s.validators) == ActiveStake(vs0) - SlashedStake(vs0, s.validators)
      && 0 <= ActiveStake(s.validators) <= ActiveStake(vs0)
  {
    var vs0, s := s0.validators, Run(s0, es);
    RunKeepsUnderway(s0, es);
    StakeSplits(vs0, s.validators);
    ActiveStakeLater(vs0, s.validators);
    SumNonneg(StakeOf(vs0), ActiveSet(s.validators));
    SumOverlap(StakeOf(vs0), Voters(s.checkpoints[h1].votes), Voters(s.checkpoints[h2].votes), ActiveSet(vs0));
  }

  /** Any two finalized checkpoints share voters, whatever the stakes: three times their common stake is above
      the initial active stake less four times the stake slashed, up to 10 parts in 2^54. */
  lemma {:induction false} QuorumIntersection(s0: State, es: seq<Event>, h1: BlockHash, h2: BlockHash)
    requires Consistent(s0) && NoVotesYet(s0) && NoRegistrations(es)
    requires IsFinalized(Run(s0, es), h1) && IsFinalized(Run(s0, es), h2)
    ensures var vs0, s := s0.validators, Run(s0, es);
      var initial, slashed := ActiveStake(vs0), SlashedStake(vs0, s.validators);
      TWO54 * (initial - 4 * slashed - 3 * CommonStake(vs0, s, h1, h2)) < 10 * (initial - slashed)
  {
    BothEnough(s0, es, h1, h2);
  }

  /** Where the float test is exact there is no such loss: without slashing, a third voted for both. */
  lemma {:induction false} ExactQuorumIntersection(s0: State, es: seq<Event>, h1: BlockHash, h2: BlockHash)
    requires Consistent(s0) && NoVotesYet(s0) && NoRegistrations(es) && 5 * ActiveStake(s0.validators) <= TWO54
    requires IsFinalized(Run(s0, es), h1) && IsFinalized(Run(s0, es), h2)
    ensures var vs0, s := s0.validators, Run(s0, es);
      3 * CommonStake(vs0, s, h1, h2) >= ActiveStake(vs0) - 4 * SlashedStake(vs0, s.validators)
  {
    var s := Run(s0, es);
    BothEnough(s0, es, h1, h2);
    DecidesExactly(s.checkpoints[h1].totalStakeVoted, ActiveStake(s.validators));
    DecidesExactly(s.checkpoints[h2].totalStakeVoted, ActiveStake(s.validators));
  }

  // ----- Equivocation -----

  /** No validator votes for one target from two sources. */
  ghost predicate OneSource(es: seq<Event>) {
    forall i, j :: 0 <= i < |es| && 0 <= j < |es| && es[i].Vote? && es[j].Vote?
      && es[i].vote.validator == es[j].vote.validator && es[i].vote.target == es[j].vote.target
      ==> es[i].vote.source == es[j].vote.source
  }

  ghost predicate WasCast(es: seq<Event>, validator: Address, source: BlockHash, target: BlockHash) {
    exists i :: 0 <= i < |es| && es[i].Vote? && es[i].vote.validator == validator && es[i].vote.source == source
             && es[i].vote.target == target
  }

  /** Every recorded vote was cast in the run. */
  ghost predicate CastIn(es: seq<Event>, c: Checkpoint) {
    forall k :: 0 <= k < |c.votes| ==> WasCast(es, c.votes[k].validator, c.votes[k].source, c.blockHash)
  }

  lemma WasCastAppend(es: seq<Event>, e: Event, validator: Address, source: BlockHash, target: BlockHash)
    requires WasCast(es, validator, source, target)
    ensures WasCast(es + [e], validator, source, target)
  {
    var i :| 0 <= i < |es| && es[i].Vote? && es[i].vote.validator == validator && es[i].vote.source == source
          && es[i].vote.target == target;
    assert (es + [e])[i] == es[i];
  }

  lemma CastInAppend(es: seq<Event>, e: Event, c: Checkpoint)
    requires CastIn(es, c)
    ensures CastIn(es + [e], c)
  {
    forall k | 0 <= k < |c.votes|
      ensures WasCast(es + [e], c.votes[k].validator, c.votes[k].source, c.blockHash)
    {
      WasCastAppend(es, e, c.votes[k].validator, c.votes[k].source, c.blockHash);
    }
  }

  lemma CastInLast(es: seq<Event>, e: Event, c: Checkpoint, vote: FinalityVote, reached: bool, now: int)
    requires e.Vote? && CastIn(es, c) && c.blockHash == vote.target
    requires vote.validator == e.vote.validator && vote.source == e.vote.source && vote.target == e.vote.target
    ensures CastIn(es + [e], WithVote(c, vote, reached, now))
  {
    CastInAppend(es, e, c);
    assert (es + [e])[|es|] == e;
  }

  /** With one source for each validator and target no vote of the run equivocates. */
  lemma NoEquivocation(es: seq<Event>, e: Event, c: Checkpoint, vote: FinalityVote)
    requires OneSource(es + [e]) && e.Vote? && CastIn(es, c)
    requires c.blockHash == vote.target
    requires vote.validator == e.vote.validator && vote.source == e.vote.source && vote.target == e.vote.target
    ensures !Equivocates(c.votes, vote)
  {
    var all := es + [e];
    forall k | 0 <= k < |c.votes| && c.votes[k].validator == vote.validator
      ensures c.votes[k].source == vote.source
    {
      var i :| 0 <= i < |es| && es[i].Vote? && es[i].vote.validator == c.votes[k].validator
            && es[i].vote.source == c.votes[k].source && es[i].vote.target == c.blockHash;
      assert all[i] == es[i] && all[|es|] == e;
    }
  }

  ghost predicate AllCast(es: seq<Event>, s: State) {
    forall h {:trigger s.checkpoints[h]} :: h in s.checkpoints ==> CastIn(es, s.checkpoints[h])
  }

  lemma {:induction false} VoteSlashesNobody(es: seq<Event>, s: State, e: Event)
    requires Consistent(s) && AllCast(es, s) && e.Vote? && OneSource(es + [e])
    ensures AllCast(es + [e], Step(s, e)) && Step(s, e).validators == s.validators
  {
    forall h | h in s.checkpoints
      ensures CastIn(es + [e], s.checkpoints[h])
    {
      CastInAppend(es, e, s.checkpoints[h]);
    }
    if MayVote(s.validators, e.vote.validator) {
      var vote := Weighted(s.validators, e.vote);
      var c, reached := RowOrNew(s, vote.target), Reached(s, vote, ActiveStake(s.validators));
      assert c.blockHash == vote.target && CastIn(es, c);
      NoEquivocation(es, e, c, vote);
      CastInLast(es, e, c, vote, reached, e.now);
    }
  }

  lemma {:induction false} StepSlashesNobody(es: seq<Event>, s: State, e: Event)
    requires Consistent(s) && AllCast(es, s) && !e.Register? && OneSource(es + [e])
    ensures AllCast(es + [e], Step(s, e)) && Step(s, e).validators == s.validators
  {
    if e.Vote? {
      VoteSlashesNobody(es, s, e);
    } else {
      forall h | h in s.checkpoints
        ensures CastIn(es + [e], s.checkpoints[h])
      {
        CastInAppend(es, e, s.checkpoints[h]);
      }
    }
  }

  /** Only a second source for one validator and target slashes: in a run without one, blocks included, the validators
      stay what they were, whatever they vote for. */
  lemma {:induction false} OneSourceSlashesNobody(s0: State, es: seq<Event>)
    requires Consistent(s0) && NoVotesYet(s0) && NoRegistrations(es) && OneSource(es)
    ensures AllCast(es, Run(s0, es)) && Run(s0, es).validators == s0.validators
  {
    if es != [] {
      var before, e := es[..|es| - 1], es[|es| - 1];
      assert before + [e] == es;
      OneSourceSlashesNobody(s0, before);
      RunConsistent(s0, before);
      StepSlashesNobody(before, Run(s0, before), e);
    }
  }

  /** Two votes for two targets from one source */
  function BothTargets(a: Address, source: BlockHash, h1: BlockHash, h2: BlockHash, now: int): seq<Event> {
    [Vote(FinalityVote(a, source, h1, 0, "", now), now), Vote(FinalityVote(a, source, h2, 0, "", now), now)]
  }

  lemma {:induction false} SoleVoterFinalizesBoth(s: State, vote1: FinalityVote, vote2: FinalityVote, now: int)
    requires Consistent(s) && vote1.validator == vote2.validator && vote1.target != vote2.target
    requires MayVote(s.validators, vote1.validator) && ActiveSet(s.validators) == {vote1.validator}
    requires vote1.target !in s.checkpoints && vote2.target !in s.checkpoints
    ensures var t := Step(Step(s, Vote(vote1, now)), Vote(vote2, now));
      t.validators == s.validators && IsFinalized(t, vote1.target) && IsFinalized(t, vote2.target)
  {
    var first := Step(s, Vote(vote1, now));
    SoleVoterFinalizes(s, vote1, now);
    StepConsistent(s, Vote(vote1, now));
    SoleVoterFinalizes(first, vote2, now);
    FinalityThroughStep(first, Vote(vote2, now), vote1.target);
  }

  /** Voting for two checkpoints is not equivocation: the voters that QuorumIntersection finds are not slashed for it.
      Here one validator with all the stake finalizes any two hashes, and stays as it was. */
  lemma {:induction false} TwoFinalizedNobodySlashed(s: State, a: Address, source: BlockHash, h1: BlockHash,
        h2: BlockHash, now: int)
    requires Consistent(s) && MayVote(s.validators, a) && ActiveSet(s.validators) == {a}
    requires h1 != h2 && h1 !in s.checkpoints && h2 !in s.checkpoints
    ensures var es := BothTargets(a, source, h1, h2, now); var t := Run(s, es);
      && OneSource(es) && t.validators == s.validators
      && IsFinalized(t, h1) && IsFinalized(t, h2)
  {
    var es := BothTargets(a, source, h1, h2, now);
    RunOfTwo(s, es[0], es[1]);
    SoleVoterFinalizesBoth(s, es[0].vote, es[1].vote, now);
  }

  lemma {:induction false} RunOfTwo(s: State, e1: Event, e2: Event)
    ensures Run(s, [e1, e2]) == Step(Step(s, e1), e2)
  {
    var es := [e1, e2];
    assert es[..1] == [e1] && [e1][..0] == [];
    assert Run(s, [e1]) == Step(Run(s, []), e1);
  }

  /** Without a second source a third of all stake voted for both of two finalized checkpoints, up to rounding, and
      none of it is slashed. */
  lemma {:induction false} OneSourceQuorum(s0: State, es: seq<Event>, h1: BlockHash, h2: BlockHash)
    requires Consistent(s0) && NoVotesYet(s0) && NoRegistrations(es) && OneSource(es)
    requires IsFinalized(Run(s0, es), h1) && IsFinalized(Run(s0, es), h2)
    ensures Run(s0, es).validators == s0.validators
    ensures var initial := ActiveStake(s0.validators);
      TWO54 * (initial - 3 * CommonStake(s0.validators, Run(s0, es), h1, h2)) < 10 * initial
  {
    OneSourceSlashesNobody(s0, es);
    QuorumIntersection(s0, es, h1, h2);
    assert (set a | a in ActiveSet(s0.validators) && a in s0.validators && s0.validators[a].slashed) == {};
  }

  // ----- Order independence -----

  ghost predicate OnlyVotes(es: seq<Event>) {
    forall i :: 0 <= i < |es| ==> es[i].Vote?
  }

  /** The validators entitled to vote that vote for h somewhere in the run. */
  ghost function Ballot(vs: Validators, es: seq<Event>, h: BlockHash): set<Address>
    requires OnlyVotes(es)
  {
    set i | 0 <= i < |es| && es[i].vote.target == h && MayVote(vs, es[i].vote.validator) :: es[i].vote.validator
  }

  /** What a checkpoint amounts to: its voters, its total and its flag. */
  datatype Tally = Tally(voters: set<Address>, total: int, finalized: bool)

  ghost function TallyOf(s: State, h: BlockHash): Tally {
    var c := RowOrNew(s, h);
    Tally(Voters(c.votes), c.totalStakeVoted, c.isFinalized)
  }

  ghost function ExpectedTally(vs: Validators, ballot: set<Address>): Tally {
    var total := Sum(StakeOf(vs), ballot);
    Tally(ballot, total, ballot != {} && Decides(total, ActiveStake(vs)))
  }

  ghost predicate Counted(vs: Validators, es: seq<Event>, s: State)
    requires OnlyVotes(es)
  {
    && s.validators == vs
    && (forall h :: h in s.checkpoints ==> CastIn(es, s.checkpoints[h]))
    && (forall h :: TallyOf(s, h) == ExpectedTally(vs, Ballot(vs, es, h)))
  }

  lemma BallotOfAppend(vs: Validators, es: seq<Event>, e: Event, h: BlockHash)
    requires OnlyVotes(es) && e.Vote?
    ensures OnlyVotes(es + [e])
    ensures Ballot(vs, es + [e], h) ==
      Ballot(vs, es, h) + if e.vote.target == h && MayVote(vs, e.vote.validator) then {e.vote.validator} else {}
  {
    var all := es + [e];
    forall a | a in Ballot(vs, es, h)
      ensures a in Ballot(vs, all, h)
    {
      var i :| 0 <= i < |es| && es[i].vote.target == h && MayVote(vs, es[i].vote.validator)
            && es[i].vote.validator == a;
      assert all[i] == es[i];
    }
    assert all[|es|] == e;
  }

  /** Voters are active, so there is active stake and the totals are not negative. */
  lemma BallotStake(vs: Validators, es: seq<Event>, h: BlockHash, a: Address)
    requires PositiveStakes(vs) && OnlyVotes(es) && MayVote(vs, a)
    ensures 0 <= Sum(StakeOf(vs), Ballot(vs, es, h))
    ensures 0 < ActiveStake(vs)
  {
    SumNonneg(StakeOf(vs), Ballot(vs, es, h));
    SumRemove(StakeOf(vs), ActiveSet(vs), a);
    SumNonneg(StakeOf(vs), ActiveSet(vs) - {a});
  }

  /** A new voter makes the tally of its row the expected one. */
  lemma VoteCounts(vs: Validators, c: Checkpoint, vote: FinalityVote, ballot: set<Address>, reached: bool, now: int)
    requires MayVote(vs, vote.validator) && vote.stakeWeight == vs[vote.validator].stake
    requires !HasVoted(c.votes, vote.validator) && 0 <= vote.stakeWeight
    requires Tally(Voters(c.votes), c.totalStakeVoted, c.isFinalized) == ExpectedTally(vs, ballot)
    requires reached <==> Decides(c.totalStakeVoted + vote.stakeWeight, ActiveStake(vs))
    ensures var c' := WithVote(c, vote, reached, now);
      Tally(Voters(c'.votes), c'.totalStakeVoted, c'.isFinalized) == ExpectedTally(vs, ballot + {vote.validator})
  {
    VotersOfAppend(c.votes, vote);
    SumAdd(StakeOf(vs), ballot, vote.validator);
  }

  /** Without equivocation a vote changes the row of its target only. */
  lemma ProcessedRow(s: State, vote: FinalityVote, reached: bool, now: int)
    requires Consistent(s) && !Equivocates(RowOrNew(s, vote.target).votes, vote)
    ensures var s' := Processed(s, vote, reached, now).0;
      && s'.validators == s.validators
      && s'.checkpoints.Keys <= s.checkpoints.Keys + {vote.target}
      && (forall h :: h != vote.target ==> RowOrNew(s', h) == RowOrNew(s, h))
      && RowOrNew(s', vote.target) ==
           var c := RowOrNew(s, vote.target);
           if HasVoted(c.votes, vote.validator) then c else WithVote(c, vote, reached, now)
  {}

  /** The row of the target after a vote of the run: recorded votes were cast, and the tally is right. */
  lemma TargetCounts(vs: Validators, es: seq<Event>, s: State, e: Event, vote: FinalityVote, reached: bool)
    requires OnlyVotes(es) && e.Vote? && OnlyVotes(es + [e]) && OneSource(es + [e])
    requires PositiveStakes(vs) && MayVote(vs, e.vote.validator)
    requires Consistent(s) && Counted(vs, es, s) && vote == Weighted(vs, e.vote)
    requires reached <==>
      Decides(RowOrNew(s, vote.target).totalStakeVoted + vote.stakeWeight, ActiveStake(vs))
    ensures !Equivocates(RowOrNew(s, vote.target).votes, vote)
    ensures var s' := Processed(s, vote, reached, e.now).0;
      && CastIn(es + [e], RowOrNew(s', vote.target))
      && TallyOf(s', vote.target) == ExpectedTally(vs, Ballot(vs, es + [e], vote.target))
  {
    var c, ballot := RowOrNew(s, vote.target), Ballot(vs, es, vote.target);
    BallotOfAppend(vs, es, e, vote.target);
    NoEquivocation(es, e, c, vote);
    ProcessedRow(s, vote, reached, e.now);
    assert TallyOf(s, vote.target) == ExpectedTally(vs, ballot);
    CastInAppend(es, e, c);
    if HasVoted(c.votes, vote.validator) {
      VotersOfAppend(c.votes, vote);
      assert ballot + {vote.validator} == ballot;
    } else {
      VoteCounts(vs, c, vote, ballot, reached, e.now);
      CastInLast(es, e, c, vote, reached, e.now);
    }
  }

  lemma ReachedCounts(vs: Validators, es: seq<Event>, s: State, vote: FinalityVote)
    requires PositiveStakes(vs) && OnlyVotes(es) && Counted(vs, es, s)
    requires MayVote(vs, vote.validator) && 0 <= vote.stakeWeight
    ensures Reached(s, vote, ActiveStake(vs)) <==>
      Decides(RowOrNew(s, vote.target).totalStakeVoted + vote.stakeWeight, ActiveStake(vs))
    ensures 0 < ActiveStake(vs)
  {
    BallotStake(vs, es, vote.target, vote.validator);
    assert TallyOf(s, vote.target) == ExpectedTally(vs, Ballot(vs, es, vote.target));
    ReachesDecides(RowOrNew(s, vote.target).totalStakeVoted + vote.stakeWeight, ActiveStake(vs));
  }

  /** A state with the same rows but for the target's keeps every other tally. */
  lemma OthersCount(vs: Validators, es: seq<Event>, s: State, e: Event, s': State)
    requires OnlyVotes(es) && e.Vote? && OnlyVotes(es + [e]) && Counted(vs, es, s)
    requires s'.validators == vs && s'.checkpoints.Keys <= s.checkpoints.Keys + {e.vote.target}
    requires forall h :: h != e.vote.target ==> RowOrNew(s', h) == RowOrNew(s, h)
    requires CastIn(es + [e], RowOrNew(s', e.vote.target))
    requires TallyOf(s', e.vote.target) == ExpectedTally(vs, Ballot(vs, es + [e], e.vote.target))
    ensures Counted(vs, es + [e], s')
  {
    forall h | h in s'.checkpoints
      ensures CastIn(es + [e], s'.checkpoints[h])
    {
      if h != e.vote.target {
        assert s'.checkpoints[h] == RowOrNew(s', h) == RowOrNew(s, h);
        CastInAppend(es, e, s.checkpoints[h]);
      }
    }
    forall h
      ensures TallyOf(s', h) == ExpectedTally(vs, Ballot(vs, es + [e], h))
    {
      if h != e.vote.target {
        BallotOfAppend(vs, es, e, h);
        assert Ballot(vs, es + [e], h) == Ballot(vs, es, h);
        assert RowOrNew(s', h) == RowOrNew(s, h);
        assert TallyOf(s, h) == ExpectedTally(vs, Ballot(vs, es, h));
      }
    }
  }

  lemma StepCounts(vs: Validators, es: seq<Event>, s: State, e: Event)
    requires PositiveStakes(vs)
    requires OnlyVotes(es) && e.Vote? && OnlyVotes(es + [e]) && OneSource(es + [e])
    requires Consistent(s) && Counted(vs, es, s)
    ensures Counted(vs, es + [e], Step(s, e))
  {
    if MayVote(vs, e.vote.validator) {
      var vote := Weighted(vs, e.vote);
      ReachedCounts(vs, es, s, vote);
      TargetCounts(vs, es, s, e, vote, Reached(s, vote, ActiveStake(vs)));
      ProcessedRow(s, vote, Reached(s, vote, ActiveStake(vs)), e.now);
    } else {
      BallotOfAppend(vs, es, e, e.vote.target);
      assert Ballot(vs, es + [e], e.vote.target) == Ballot(vs, es, e.vote.target);
      assert TallyOf(s, e.vote.target) == ExpectedTally(vs, Ballot(vs, es, e.vote.target));
      CastInAppend(es, e, RowOrNew(s, e.vote.target));
    }
    OthersCount(vs, es, s, e, Step(s, e));
  }

  /** The tables after any votes, in closed form: each tally is that of the set of its voters. */
  lemma {:induction false} VotesCount(vs: Validators, es: seq<Event>)
    requires PositiveStakes(vs) && OnlyVotes(es) && OneSource(es)
    ensures Counted(vs, es, Run(State(vs, map[]), es)) && Consistent(Run(State(vs, map[]), es))
  {
    var s0 := State(vs, map[]);
    RunConsistent(s0, es);
    if es == [] {
      forall h
        ensures TallyOf(s0, h) == ExpectedTally(vs, Ballot(vs, es, h))
      {
        assert Ballot(vs, es, h) == {};
      }
    } else {
      var before, e := es[..|es| - 1], es[|es| - 1];
      VotesCount(vs, before);
      assert before + [e] == es;
      StepCounts(vs, before, Run(s0, before), e);
    }
  }

  lemma {:induction false} TallyOfVotes(vs: Validators, es: seq<Event>, h: BlockHash)
    requires PositiveStakes(vs) && OnlyVotes(es) && OneSource(es)
    ensures TallyOf(Run(State(vs, map[]), es), h) == ExpectedTally(vs, Ballot(vs, es, h))
  {
    VotesCount(vs, es);
  }

  /** Who voted for what, without sources, order and repetition */
  ghost function Choices(es: seq<Event>): set<(Address, BlockHash)>
    requires OnlyVotes(es)
  {
    set i | 0 <= i < |es| :: (es[i].vote.validator, es[i].vote.target)
  }

  lemma BallotWithin(vs: Validators, es: seq<Event>, fs: seq<Event>, h: BlockHash)
    requires OnlyVotes(es) && OnlyVotes(fs) && Choices(es) <= Choices(fs)
    ensures Ballot(vs, es, h) <= Ballot(vs, fs, h)
  {
    forall a | a in Ballot(vs, es, h)
      ensures a in Ballot(vs, fs, h)
    {
      var i :| 0 <= i < |es| && es[i].vote.target == h && MayVote(vs, es[i].vote.validator)
            && es[i].vote.validator == a;
      assert (es[i].vote.validator, es[i].vote.target) in Choices(es);
    }
  }

  lemma SameBallot(vs: Validators, es: seq<Event>, fs: seq<Event>, h: BlockHash)
    requires OnlyVotes(es) && OnlyVotes(fs) && Choices(es) == Choices(fs)
    ensures Ballot(vs, es, h) == Ballot(vs, fs, h)
  {
    BallotWithin(vs, es, fs, h);
    BallotWithin(vs, fs, es, h);
  }

  /** Any order and any duplication of the same votes gives every checkpoint the same voters, total
      and finality. */
  lemma {:induction false} OrderIndependence(vs: Validators, es: seq<Event>, fs: seq<Event>, h: BlockHash)
    requires PositiveStakes(vs)
    requires OnlyVotes(es) && OneSource(es) && OnlyVotes(fs) && OneSource(fs)
    requires Choices(es) == Choices(fs)
    ensures TallyOf(Run(State(vs, map[]), es), h) == TallyOf(Run(State(vs, map[]), fs), h)
  {
    TallyOfVotes(vs, es, h);
    TallyOfVotes(vs, fs, h);
    SameBallot(vs, es, fs, h);
  }
}
