/** Who is slashed: what an equivocating vote does, and exactly which validators a run of votes and blocks slashes. */
module Slashing {
  import opened Sums
  import opened Finality
  import opened FinalityRuns
  import opened Wrappers

  // ----- One vote -----

  predicate Holds(votes: seq<FinalityVote>, a: Address, source: BlockHash) {
    exists k {:trigger votes[k]} :: 0 <= k < |votes| && votes[k].validator == a && votes[k].source == source
  }

  /** The row of a hash holds a vote of the validator from the source. */
  predicate Recorded(s: State, h: BlockHash, a: Address, source: BlockHash) {
    h in s.checkpoints && Holds(s.checkpoints[h].votes, a, source)
  }

  lemma HoldsAppend(votes: seq<FinalityVote>, vote: FinalityVote, a: Address, source: BlockHash)
    ensures Holds(votes + [vote], a, source) <==>
              Holds(votes, a, source) || (a == vote.validator && source == vote.source)
  {
    var all := votes + [vote];
    assert all[|votes|] == vote;
    if Holds(votes, a, source) {
      var k :| 0 <= k < |votes| && votes[k].validator == a && votes[k].source == source;
      assert all[k] == votes[k];
    }
  }

  /** The record of a slashed validator: the same but for two flags */
  function SlashedRecord(r: ValidatorRecord): ValidatorRecord {
    ValidatorRecord(r.address, r.stake, r.stakeTxid, r.registeredAt, false, true)
  }

  lemma StakeWithout(vs: Validators, vs': Validators, a: Address)
    requires a in vs && Active(vs[a]) && vs' == vs[a := SlashedRecord(vs[a])]
    ensures ActiveStake(vs') == ActiveStake(vs) - vs[a].stake
  {
    assert ActiveSet(vs') == ActiveSet(vs) - {a};
    SumRemove(StakeOf(vs), ActiveSet(vs), a);
    SumCong(StakeOf(vs'), StakeOf(vs), ActiveSet(vs'));
  }

  /** A vote that may be cast, for a row with a vote of the same validator from another source, is not counted. It
      slashes the validator: it is inactive, may not vote again, and its stake leaves the active sum. */
  lemma {:induction false} EquivocationSlashes(s: State, vote: FinalityVote, now: int, source: BlockHash)
    requires Consistent(s) && MayVote(s.validators, vote.validator)
    requires Recorded(s, vote.target, vote.validator, source) && source != vote.source
    ensures var t, a := Step(s, Vote(vote, now)), vote.validator;
            && t.checkpoints == s.checkpoints
            && t.validators == s.validators[a := SlashedRecord(s.validators[a])]
            && !MayVote(t.validators, a)
            && ActiveStake(t.validators) == ActiveStake(s.validators) - s.validators[a].stake
  {
    var c, a := RowOrNew(s, vote.target), vote.validator;
    var k :| 0 <= k < |c.votes| && c.votes[k].validator == a && c.votes[k].source == source;
    assert Equivocates(c.votes, Weighted(s.validators, vote));
    StakeWithout(s.validators, Step(s, Vote(vote, now)).validators, a);
  }

  /** Otherwise nobody is slashed, and the rows hold what they held and, of this validator, this vote. */
  lemma {:induction false} OtherwiseCounts(s: State, vote: FinalityVote, now: int, h: BlockHash, a: Address,
        source: BlockHash)
    requires Consistent(s) && MayVote(s.validators, vote.validator)
    requires !exists other :: Recorded(s, vote.target, vote.validator, other) && other != vote.source
    ensures var t := Step(s, Vote(vote, now));
            && t.validators == s.validators
            && (Recorded(t, h, a, source) <==>
                  Recorded(s, h, a, source) || (h == vote.target && a == vote.validator && source == vote.source))
  {
    var weighted := Weighted(s.validators, vote);
    var c := RowOrNew(s, vote.target);
    if Equivocates(c.votes, weighted) {
      var i :| 0 <= i < |c.votes| && c.votes[i].validator == vote.validator && c.votes[i].source != vote.source;
      assert Recorded(s, vote.target, vote.validator, c.votes[i].source);
      assert false;
    }
    if HasVoted(c.votes, vote.validator) {
      var i :| 0 <= i < |c.votes| && c.votes[i].validator == vote.validator;
      assert Recorded(s, vote.target, vote.validator, c.votes[i].source);
    } else {
      RowWithVote(s, c, weighted, Reached(s, weighted, ActiveStake(s.validators)), now, h, a, source);
    }
  }

  lemma {:induction false} RowWithVote(s: State, c: Checkpoint, vote: FinalityVote, reached: bool, now: int,
        h: BlockHash, a: Address, source: BlockHash)
    requires c == RowOrNew(s, vote.target) && c.blockHash == vote.target
    ensures var t := s.(checkpoints := s.checkpoints[vote.target := WithVote(c, vote, reached, now)]);
            Recorded(t, h, a, source) <==>
              Recorded(s, h, a, source) || (h == vote.target && a == vote.validator && source == vote.source)
  {
    HoldsAppend(c.votes, vote, a, source);
  }

  // ----- Whole runs -----

  predicate Casts(e: Event, a: Address, h: BlockHash, source: BlockHash) {
    e.Vote? && e.vote.validator == a && e.vote.target == h && e.vote.source == source
  }

  /** A vote was cast, and its target has not been reset since. */
  ghost predicate Standing(es: seq<Event>, a: Address, h: BlockHash, source: BlockHash) {
    exists i {:trigger es[i]} :: 0 <= i < |es| && Casts(es[i], a, h, source) && !ResetAfter(es, i, h)
  }

  ghost predicate ResetAfter(es: seq<Event>, i: nat, h: BlockHash) {
    exists k {:trigger es[k]} :: i < k < |es| && Resets(es[k], h)
  }

  /** The validator votes for one target from two sources, without a reset of the target in between. */
  ghost predicate TwoSources(es: seq<Event>, a: Address) {
    exists j {:trigger es[j]} :: 0 <= j < |es| && SecondSource(es[..j], es[j], a)
  }

  ghost predicate SecondSource(before: seq<Event>, e: Event, a: Address) {
    exists source :: e.Vote? && e.vote.validator == a && source != e.vote.source
                     && Standing(before, a, e.vote.target, source)
  }

  lemma {:induction false} StandingAppend(es: seq<Event>, e: Event, a: Address, h: BlockHash, source: BlockHash)
    ensures Standing(es + [e], a, h, source) <==>
              Casts(e, a, h, source) || (Standing(es, a, h, source) && !Resets(e, h))
  {
    var all := es + [e];
    assert all[|es|] == e;
    assert forall k :: 0 <= k < |es| ==> all[k] == es[k];
    if Casts(e, a, h, source) {
      assert !ResetAfter(all, |es|, h);
    }
    forall i | 0 <= i < |es|
      ensures ResetAfter(all, i, h) <==> ResetAfter(es, i, h) || Resets(e, h)
    {
      ResetAfterAppend(es, e, i, h);
    }
    if Standing(es, a, h, source) && !Resets(e, h) {
      var i :| 0 <= i < |es| && Casts(es[i], a, h, source) && !ResetAfter(es, i, h);
      assert Casts(all[i], a, h, source) && !ResetAfter(all, i, h);
    }
  }

  lemma ResetAfterAppend(es: seq<Event>, e: Event, i: nat, h: BlockHash)
    requires i < |es|
    ensures ResetAfter(es + [e], i, h) <==> ResetAfter(es, i, h) || Resets(e, h)
  {
    var all := es + [e];
    assert all[|es|] == e;
    assert forall k :: 0 <= k < |es| ==> all[k] == es[k];
  }

  lemma {:induction false} TwoSourcesAppend(es: seq<Event>, e: Event, a: Address)
    ensures TwoSources(es + [e], a) <==> TwoSources(es, a) || SecondSource(es, e, a)
  {
    var all := es + [e];
    assert all[|es|] == e && all[..|es|] == es;
    forall j | 0 <= j < |es|
      ensures all[j] == es[j] && all[..j] == es[..j]
    {}
  }

  /** The records agree with the run as long as the validator is not slashed, and it is slashed as it should be. */
  ghost predicate Tracks(es: seq<Event>, r0: ValidatorRecord, s: State, a: Address) {
    && a in s.validators
    && s.validators[a] == (if TwoSources(es, a) then SlashedRecord(r0) else r0)
    && (!TwoSources(es, a) ==>
          forall h, source {:trigger Recorded(s, h, a, source)} {:trigger Standing(es, a, h, source)} ::
            Recorded(s, h, a, source) <==> Standing(es, a, h, source))
  }

  lemma {:induction false} TracksVote(es: seq<Event>, r0: ValidatorRecord, s: State, a: Address, e: Event)
    requires Consistent(s) && Tracks(es, r0, s, a) && !TwoSources(es, a)
    requires e.Vote? && e.vote.validator == a && MayVote(s.validators, a)
    ensures Tracks(es + [e], r0, Step(s, e), a)
  {
    TwoSourcesAppend(es, e, a);
    if SecondSource(es, e, a) {
      var source :| source != e.vote.source && Standing(es, a, e.vote.target, source);
      EquivocationSlashes(s, e.vote, e.now, source);
    } else {
      forall other | other != e.vote.source
        ensures !Recorded(s, e.vote.target, a, other)
      {
        assert !Standing(es, a, e.vote.target, other);
      }
      forall h, source
        ensures Recorded(Step(s, e), h, a, source) <==> Standing(es + [e], a, h, source)
      {
        StandingAppend(es, e, a, h, source);
        OtherwiseCounts(s, e.vote, e.now, h, a, source);
      }
      OtherwiseCounts(s, e.vote, e.now, e.vote.target, a, e.vote.source);
    }
  }

  /** A vote of another validator */
  lemma {:induction false} OtherVote(s: State, vote: FinalityVote, now: int, h: BlockHash, a: Address,
        source: BlockHash)
    requires Consistent(s) && vote.validator != a && a in s.validators
    ensures var t := Step(s, Vote(vote, now));
            && a in t.validators && t.validators[a] == s.validators[a]
            && (Recorded(t, h, a, source) <==> Recorded(s, h, a, source))
  {
    if MayVote(s.validators, vote.validator) {
      if other :| Recorded(s, vote.target, vote.validator, other) && other != vote.source {
        EquivocationSlashes(s, vote, now, other);
      } else {
        OtherwiseCounts(s, vote, now, h, a, source);
      }
    }
  }

  lemma {:induction false} BlockRecords(s: State, e: Event, h: BlockHash, a: Address, source: BlockHash)
    requires e.Block?
    ensures Step(s, e).validators == s.validators
    ensures Recorded(Step(s, e), h, a, source) <==> Recorded(s, h, a, source) && !Resets(e, h)
  {}

  lemma {:induction false} TracksOther(es: seq<Event>, r0: ValidatorRecord, s: State, a: Address, e: Event)
    requires Consistent(s) && Tracks(es, r0, s, a) && !e.Register?
    requires e.Vote? ==> e.vote.validator != a
    ensures Tracks(es + [e], r0, Step(s, e), a)
  {
    TwoSourcesAppend(es, e, a);
    if e.Vote? {
      OtherVote(s, e.vote, e.now, [], a, []);
    }
    forall h, source
      ensures !TwoSources(es, a) ==>
                (Recorded(Step(s, e), h, a, source) <==> Standing(es + [e], a, h, source))
    {
      StandingAppend(es, e, a, h, source);
      if e.Vote? {
        OtherVote(s, e.vote, e.now, h, a, source);
      } else {
        BlockRecords(s, e, h, a, source);
      }
    }
  }

  lemma {:induction false} TracksStep(es: seq<Event>, r0: ValidatorRecord, s: State, a: Address, e: Event)
    requires Consistent(s) && Tracks(es, r0, s, a) && !e.Register?
    requires r0.isActive && MIN_STAKE_SATOSHIS <= r0.stake
    ensures Tracks(es + [e], r0, Step(s, e), a)
  {
    if e.Vote? && e.vote.validator == a {
      if TwoSources(es, a) {
        TwoSourcesAppend(es, e, a);
      } else {
        TracksVote(es, r0, s, a, e);
      }
    } else {
      TracksOther(es, r0, s, a, e);
    }
  }

  lemma {:induction false} TracksRun(s0: State, es: seq<Event>, a: Address)
    requires Consistent(s0) && NoVotesYet(s0) && NoRegistrations(es) && MayVote(s0.validators, a)
    ensures Consistent(Run(s0, es)) && Tracks(es, s0.validators[a], Run(s0, es), a)
  {
    if es != [] {
      var before, e := es[..|es| - 1], es[|es| - 1];
      assert before + [e] == es;
      TracksRun(s0, before, a);
      StepConsistent(Run(s0, before), e);
      TracksStep(before, s0.validators[a], Run(s0, before), a, e);
    }
  }

  /** From tables without votes, a validator that may vote ends slashed exactly when it votes for one target from two
      sources without a reset of the target in between; and whatever it does, nothing else of its record changes. */
  lemma {:induction false} SlashedExactly(s0: State, es: seq<Event>, a: Address)
    requires Consistent(s0) && NoVotesYet(s0) && NoRegistrations(es) && MayVote(s0.validators, a)
    ensures var t := Run(s0, es); var r := s0.validators[a];
            && a in t.validators
            && t.validators[a] == (if TwoSources(es, a) then SlashedRecord(r) else r)
            && (t.validators[a].slashed <==> TwoSources(es, a)) && (MayVote(t.validators, a) <==> !TwoSources(es, a))
  {
    TracksRun(s0, es, a);
  }
}
