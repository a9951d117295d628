/** The finality gadget: the validator and checkpoint tables, the methods that rewrite them, and the
    step each method takes on their contents. */
module Finality {
  import opened Bytes
  import opened FloatThreshold
  import opened Sums
  import opened Wrappers

  type Address = string
  type BlockHash = seq<byte>

  const MIN_STAKE_SATOSHIS := 32 * 100_000_000
  const CHECKPOINT_INTERVAL := 100

  datatype ValidatorRecord = ValidatorRecord(
    address: Address, stake: int, stakeTxid: string, registeredAt: int, isActive: bool, slashed: bool)

  datatype FinalityVote = FinalityVote(
    validator: Address, source: BlockHash, target: BlockHash, stakeWeight: int, signature: string, timestamp: int)

  datatype Checkpoint = Checkpoint(
    blockHash: BlockHash, height: int, totalStakeVoted: int, votes: seq<FinalityVote>,
    isFinalized: bool, finalizedAt: Option<int>)

  type Validators = map<Address, ValidatorRecord>

  /** The contents of the two tables. */
  datatype State = State(validators: Validators, checkpoints: map<BlockHash, Checkpoint>)

  // ----- What the operations do to the tables -----

  /** WHERE is_active=1 AND slashed=0 */
  predicate Active(r: ValidatorRecord) {
    r.isActive && !r.slashed
  }

  ghost function ActiveSet(vs: Validators): set<Address> {
    set a | a in vs && Active(vs[a])
  }

  ghost function StakeOf(vs: Validators): Address -> int {
    a => if a in vs then vs[a].stake else 0
  }

  ghost function ActiveStake(vs: Validators): int {
    Sum(StakeOf(vs), ActiveSet(vs))
  }

  function Slash(vs: Validators, a: Address): Validators {
    if a in vs then vs[a := vs[a].(slashed := true, isActive := false)] else vs
  }

  /** The row of a hash, or the empty checkpoint a vote starts from. */
  function RowOrNew(s: State, h: BlockHash): Checkpoint {
    if h in s.checkpoints then s.checkpoints[h] else Checkpoint(h, 0, 0, [], false, None)
  }

  predicate Equivocates(votes: seq<FinalityVote>, vote: FinalityVote) {
    exists i :: 0 <= i < |votes| && votes[i].validator == vote.validator && votes[i].source != vote.source
  }

  predicate HasVoted(votes: seq<FinalityVote>, a: Address) {
    exists i :: 0 <= i < |votes| && votes[i].validator == a
  }

  /** The division of process_vote, which it guards by total_stake > 0 */
  predicate Reaches(voted: int, total: int) {
    0 < total && 0 <= voted && MeetsThreshold(voted, total)
  }

  /** The row with one more vote, which may have brought it to the threshold. */
  function WithVote(c: Checkpoint, vote: FinalityVote, reached: bool, now: int): Checkpoint {
    var counted := c.(votes := c.votes + [vote], totalStakeVoted := c.totalStakeVoted + vote.stakeWeight);
    if !c.isFinalized && reached then counted.(isFinalized := true, finalizedAt := Some(now))
    else counted
  }

  /** The tables after process_vote, and its result; reached is the float test on the new total. */
  function Processed(s: State, vote: FinalityVote, reached: bool, now: int): (State, bool) {
    var c := RowOrNew(s, vote.target);
    if Equivocates(c.votes, vote) then (s.(validators := Slash(s.validators, vote.validator)), false)
    else if HasVoted(c.votes, vote.validator) then (s, false)
    else
      var c' := WithVote(c, vote, reached, now);
      (s.(checkpoints := s.checkpoints[c'.blockHash := c']), c'.isFinalized)
  }

  /** The test of process_vote, on the total the row has with the vote counted. */
  predicate Reached(s: State, vote: FinalityVote, totalStake: int) {
    Reaches(RowOrNew(s, vote.target).totalStakeVoted + vote.stakeWeight, totalStake)
  }

  /** A call to the consensus object; for a block, what the chain said about it. */
  datatype Event =
    | Register(address: Address, stake: int, stakeTxid: string, height: int)
    | Vote(vote: FinalityVote, now: int)
    | Block(blockHash: BlockHash, height: int, accepted: bool)

  predicate MayVote(vs: Validators, a: Address) {
    a in vs && vs[a].isActive && vs[a].stake >= MIN_STAKE_SATOSHIS
  }

  /** submit_vote overwrites the weight of the vote with the validator's stake. */
  function Weighted(vs: Validators, vote: FinalityVote): FinalityVote {
    if vote.validator in vs then vote.(stakeWeight := vs[vote.validator].stake) else vote
  }

  /** What submit_vote does with a vote it lets through. */
  ghost function Submitted(s: State, vote: FinalityVote, now: int): (State, bool) {
    var weighted := Weighted(s.validators, vote);
    Processed(s, weighted, Reached(s, weighted, ActiveStake(s.validators)), now)
  }

  ghost function Step(s: State, e: Event): State {
    match e
    case Register(a, stake, txid, height) =>
      if stake < MIN_STAKE_SATOSHIS then s
      else s.(validators := s.validators[a := ValidatorRecord(a, stake, txid, height, true, false)])
    case Vote(vote, now) =>
      if !MayVote(s.validators, vote.validator) then s
      else Submitted(s, vote, now).0
    case Block(h, height, accepted) =>
      if accepted && height % CHECKPOINT_INTERVAL == 0
      then s.(checkpoints := s.checkpoints[h := Checkpoint(h, height, 0, [], false, None)])
      else s
  }

  ghost function Run(s: State, es: seq<Event>): State {
    if es == [] then s else Step(Run(s, es[..|es| - 1]), es[|es| - 1])
  }

  // ----- The objects -----

  class ValidatorRegistry {
    var validators: Validators
    var checkpoints: map<BlockHash, Checkpoint>

    ghost function Value(): State
      reads this
    {
      State(validators, checkpoints)
    }

    constructor ()
      ensures Value() == State(map[], map[])
    {
      validators, checkpoints := map[], map[];
    }

    method RegisterValidator(record: ValidatorRecord)
      modifies this
      ensures Value() == old(Value()).(validators := old(validators)[record.address := record])
    {
      validators := validators[record.address := record];
    }

    method TotalActiveStake() returns (total: int)
      ensures total == ActiveStake(validators)
      ensures total == Sum(StakeOf(validators),
                           set a | a in validators && validators[a].isActive && !validators[a].slashed)
    {
      total := 0;
      var rest := validators.Keys;
      ghost var done: set<Address> := {};
      while rest != {}
        invariant rest <= validators.Keys
        invariant done == set a | a in validators.Keys - rest && Active(validators[a])
        invariant total == Sum(StakeOf(validators), done)
        decreases rest
      {
        var a :| a in rest;
        rest := rest - {a};
        if Active(validators[a]) {
          SumAdd(StakeOf(validators), done, a);
          total := total + validators[a].stake;
          done := done + {a};
        }
      }
      assert done == ActiveSet(validators);
      assert done == set a | a in validators && validators[a].isActive && !validators[a].slashed;
    }

    method SlashValidator(address: Address)
      modifies this
      ensures checkpoints == old(checkpoints) && validators.Keys == old(validators).Keys
      ensures address in validators ==>
                validators[address] == old(validators)[address].(slashed := true, isActive := false)
      ensures forall a :: a in validators && a != address ==> validators[a] == old(validators)[a]
    {
      if address in validators {
        validators := validators[address := validators[address].(slashed := true, isActive := false)];
      }
    }

    method AddCheckpoint(checkpoint: Checkpoint)
      modifies this
      ensures Value() == old(Value()).(checkpoints := old(checkpoints)[checkpoint.blockHash := checkpoint])
    {
      checkpoints := checkpoints[checkpoint.blockHash := checkpoint];
    }

    method ProcessVote(vote: FinalityVote, totalStake: int, now: int) returns (finalized: bool)
      modifies this
      ensures (Value(), finalized) == Processed(old(Value()), vote, Reached(old(Value()), vote, totalStake), now)
    {
      var checkpoint := if vote.target in checkpoints then checkpoints[vote.target]
                        else Checkpoint(vote.target, 0, 0, [], false, None);
      var votes := checkpoint.votes;
      for i := 0 to |votes|
        invariant unchanged(this)
        invariant !Equivocates(votes[..i], vote)
      {
        if votes[i].validator == vote.validator && votes[i].source != vote.source {
          SlashValidator(vote.validator);
          assert validators == Slash(old(validators), vote.validator);
          return false;
        }
      }
      assert votes[..|votes|] == votes;
      for i := 0 to |votes|
        invariant unchanged(this)
        invariant !HasVoted(votes[..i], vote.validator)
      {
        if votes[i].validator == vote.validator {
          return false;
        }
      }
      checkpoint := checkpoint.(votes := votes + [vote],
          totalStakeVoted := checkpoint.totalStakeVoted + vote.stakeWeight);
      if !checkpoint.isFinalized && Reaches(checkpoint.totalStakeVoted, totalStake) {
        checkpoint := checkpoint.(isFinalized := true, finalizedAt := Some(now));
      }
      AddCheckpoint(checkpoint);
      return checkpoint.isFinalized;
    }
  }
}
