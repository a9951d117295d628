/** The consensus object over a chain and its finality tables: what a submitted block does to both, and which
    blocks can take finality away. */
module Consensus {
  import opened Bytes
  import opened Difficulty
  import opened Chain
  import opened Rejections
  import opened Wrappers
  import Mining
  import Finality
  import FinalityRuns
  import ChainRuns

  datatype Node = Node(chain: State, tables: Finality.State)

  const START := Node(EMPTY, Finality.State.State(map[], map[]))

  datatype Call =
    | Register(address: Finality.Address, stake: int, stakeTxid: string, height: int)
    | Vote(vote: Finality.FinalityVote, now: int)
    | Submit(block: Block, now: int)

  /** submit_block after the verdict: only an accepted block reaches the checkpoint table. */
  ghost function Submitted(n: Node, verdict: Verdict): Node {
    var r := Applied(n.chain, verdict);
    if r.1 != Returned(true) then n.(chain := r.0)
    else Node(r.0, Finality.Step(n.tables, Finality.Block(verdict.row.hash, verdict.row.height, true)))
  }

  ghost function Called(env: Env, n: Node, c: Call): Node {
    match c
    case Register(a, stake, txid, height) =>
      n.(tables := Finality.Step(n.tables, Finality.Register(a, stake, txid, height)))
    case Vote(vote, now) => n.(tables := Finality.Step(n.tables, Finality.Vote(vote, now)))
    case Submit(block, now) => Submitted(n, Validated(env, now, n.chain, block))
  }

  ghost function Run(env: Env, n: Node, calls: seq<Call>): Node {
    if calls == [] then n else Called(env, Run(env, n, calls[..|calls| - 1]), calls[|calls| - 1])
  }

  class HybridConsensus {
    const chain: Blockchain
    const registry: Finality.ValidatorRegistry

    ghost function Contents(): Node
      reads this, chain, chain.utxoSet, registry
    {
      Node(chain.Contents(), registry.Value())
    }

    constructor (chain: Blockchain, registry: Finality.ValidatorRegistry)
      ensures this.chain == chain && this.registry == registry
    {
      this.chain, this.registry := chain, registry;
    }

    method RegisterValidator(address: Finality.Address, stake: int, stakeTxid: string, height: int)
      returns (ok: bool)
      modifies registry
      ensures Contents() == Called(chain.env, old(Contents()), Register(address, stake, stakeTxid, height))
      ensures ok <==> stake >= 3_200_000_000
    {
      if stake < Finality.MIN_STAKE_SATOSHIS {
        return false;
      }
      registry.RegisterValidator(Finality.ValidatorRecord(address, stake, stakeTxid, height, true, false));
      return true;
    }

    /** The second result is the "FINALIZED" message. */
    method SubmitVote(vote: Finality.FinalityVote, now: int) returns (ok: bool, finalized: bool)
      modifies registry
      ensures Contents() == Called(chain.env, old(Contents()), Vote(vote, now))
      ensures ok <==> && vote.validator in old(registry.validators)
                      && old(registry.validators)[vote.validator].isActive
                      && old(registry.validators)[vote.validator].stake >= 3_200_000_000
      ensures finalized == (ok && Finality.Submitted(old(registry.Value()), vote, now).1)
    {
      var vs := registry.validators;
      if vote.validator !in vs || !vs[vote.validator].isActive {
        return false, false;
      }
      if vs[vote.validator].stake < Finality.MIN_STAKE_SATOSHIS {
        return false, false;
      }
      var weighted := vote.(stakeWeight := vs[vote.validator].stake);
      var total := registry.TotalActiveStake();
      finalized := registry.ProcessVote(weighted, total, now);
      return true, finalized;
    }

    method SubmitBlock(block: Block, now: int) returns (r: Outcome<bool>)
      requires chain.Valid()
      modifies chain, chain.utxoSet, registry
      ensures chain.Valid()
      ensures Contents() == Called(chain.env, old(Contents()), Submit(block, now))
      ensures r == Applied(old(chain.Contents()), Validated(chain.env, now, old(chain.Contents()), block)).1
    {
      r := chain.ApplyBlock(block, now);
      if r != Returned(true) {
        return;
      }
      if block.header.height % Finality.CHECKPOINT_INTERVAL == 0 {
        var hash := chain.env.hash(HeaderBytes(block.header));
        registry.AddCheckpoint(Finality.Checkpoint(hash, block.header.height, 0, [], false, None));
      }
    }
  }

  // ----- Which call takes finality away -----

  /** An accepted block at a checkpoint height whose hash is h */
  predicate Arrives(env: Env, n: Node, c: Call, h: seq<byte>) {
    c.Submit? && VerdictArrives(n.chain, Validated(env, c.now, n.chain, c.block), h)
  }

  predicate VerdictArrives(s: State, verdict: Verdict, h: seq<byte>) {
    && Applied(s, verdict).1 == Returned(true)
    && verdict.row.hash == h && verdict.row.height % Finality.CHECKPOINT_INTERVAL == 0
  }

  /** A finalized checkpoint stays finalized through a call exactly when the call is not the arrival of its own
      block. */
  lemma {:induction false} FinalityThroughCall(env: Env, n: Node, c: Call, h: seq<byte>)
    requires FinalityRuns.Consistent(n.tables) && FinalityRuns.IsFinalized(n.tables, h)
    ensures FinalityRuns.IsFinalized(Called(env, n, c).tables, h) <==> !Arrives(env, n, c, h)
    ensures FinalityRuns.Consistent(Called(env, n, c).tables)
  {
    match c
    case Register(a, stake, txid, height) =>
      FinalityRuns.FinalityThroughStep(n.tables, Finality.Register(a, stake, txid, height), h);
      FinalityRuns.StepConsistent(n.tables, Finality.Register(a, stake, txid, height));
    case Vote(vote, now) =>
      FinalityRuns.FinalityThroughStep(n.tables, Finality.Vote(vote, now), h);
      FinalityRuns.StepConsistent(n.tables, Finality.Vote(vote, now));
    case Submit(block, now) =>
      FinalityThroughVerdict(n, Validated(env, now, n.chain, block), h);
  }

  lemma {:induction false} FinalityThroughVerdict(n: Node, verdict: Verdict, h: seq<byte>)
    requires FinalityRuns.Consistent(n.tables) && FinalityRuns.IsFinalized(n.tables, h)
    ensures FinalityRuns.IsFinalized(Submitted(n, verdict).tables, h) <==> !VerdictArrives(n.chain, verdict, h)
    ensures FinalityRuns.Consistent(Submitted(n, verdict).tables)
  {
    if verdict.Passed? {
      var e := Finality.Block(verdict.row.hash, verdict.row.height, true);
      FinalityRuns.FinalityThroughStep(n.tables, e, h);
      FinalityRuns.StepConsistent(n.tables, e);
    }
  }

  /** Whatever the verdict, the chain takes its step; the tables change only at an accepted block, and only its own
      row. */
  lemma {:induction false} SubmittedExactly(n: Node, verdict: Verdict)
    ensures var m := Submitted(n, verdict);
      && m.chain == Applied(n.chain, verdict).0 && m.tables.validators == n.tables.validators
      && (Applied(n.chain, verdict).1 != Returned(true) ==> m.tables == n.tables)
      && (Applied(n.chain, verdict).1 == Returned(true) ==>
            m.tables.checkpoints
            == if verdict.row.height % 100 != 0 then n.tables.checkpoints
               else n.tables.checkpoints[verdict.row.hash
                      := Finality.Checkpoint(verdict.row.hash, verdict.row.height, 0, [], false, None)])
  {}

  /** The only validator registers and votes for the hash of a block that has not arrived. */
  function VoteAhead(now: int): seq<Call> {
    [Register("v", Finality.MIN_STAKE_SATOSHIS, "", 0),
     Vote(Finality.FinalityVote("v", [], Mining.ZeroHash(), 0, "", now), now)]
  }

  lemma FirstValidator(a: Finality.Address, stake: int)
    requires Finality.MIN_STAKE_SATOSHIS <= stake
    ensures var s := Finality.Step(START.tables, Finality.Register(a, stake, "", 0));
            && Finality.ActiveSet(s.validators) == {a} && Finality.MayVote(s.validators, a) && s.checkpoints == map[]
            && FinalityRuns.Consistent(s)
  {
    var s := Finality.Step(START.tables, Finality.Register(a, stake, "", 0));
    assert s.validators.Keys == {a};
    FinalityRuns.StepConsistent(START.tables, Finality.Register(a, stake, "", 0));
  }

  lemma {:induction false} RunOfTwo(env: Env, n: Node, a: Call, b: Call)
    ensures Run(env, n, [a, b]) == Called(env, Called(env, n, a), b)
  {
    var calls := [a, b];
    assert calls[..1] == [a] && [a][..0] == [];
    assert Run(env, n, [a]) == Called(env, Run(env, n, []), a);
  }

  lemma {:induction false} VoteAheadFinalizes(now: int)
    ensures var n := Run(ZeroEnv(), START, VoteAhead(now));
            && FinalityRuns.IsFinalized(n.tables, Mining.ZeroHash()) && FinalityRuns.Consistent(n.tables)
            && n.chain == EMPTY
  {
    var calls := VoteAhead(now);
    var s, vote := Called(ZeroEnv(), START, calls[0]).tables, calls[1].vote;
    RunOfTwo(ZeroEnv(), START, calls[0], calls[1]);
    FirstValidator("v", Finality.MIN_STAKE_SATOSHIS);
    FinalityRuns.SoleVoterFinalizes(s, vote, now);
    FinalityRuns.StepConsistent(s, Finality.Vote(vote, now));
  }

  /** Votes can finalize a hash before its block arrives; then the block takes the finality away. */
  lemma {:induction false} ArrivalResets(now: nat)
    ensures var n := Run(ZeroEnv(), START, VoteAhead(now));
            var m := Called(ZeroEnv(), n, Submit(FirstBlock([Reward(), Idle()]), now));
            && FinalityRuns.IsFinalized(n.tables, Mining.ZeroHash())
            && !FinalityRuns.IsFinalized(m.tables, Mining.ZeroHash())
  {
    var n, c := Run(ZeroEnv(), START, VoteAhead(now)), Submit(FirstBlock([Reward(), Idle()]), now);
    var row := Row(Mining.ZeroHash(), 0, 0, EASY_BITS);
    VoteAheadFinalizes(now);
    FirstBlockPasses(now, [Reward(), Idle()]);
    IdleAccepted(row);
    assert VerdictArrives(EMPTY, Passed(row, [Reward(), Idle()]), Mining.ZeroHash());
    FinalityThroughCall(ZeroEnv(), n, c, Mining.ZeroHash());
  }

  // ----- Stored blocks do not arrive again -----

  /** Headers, each naming the hash of the one before, that lead from one hash to another */
  predicate Links(env: Env, path: seq<Header>, from: seq<byte>, to: seq<byte>) {
    if path == [] then from == to
    else path[0].prevHash == from && HeaderPacks(path[0]) && Links(env, path[1..], BlockHash(env, path[0]), to)
  }

  predicate Within(path: seq<Header>, headers: set<Header>) {
    forall i :: 0 <= i < |path| ==> path[i] in headers
  }

  /** No chain of predecessors among some headers returns to where it started. */
  ghost predicate NoCycle(env: Env, headers: set<Header>) {
    forall path, h {:trigger Links(env, path, h, h)} ::
      path != [] && Within(path, headers) ==> !Links(env, path, h, h)
  }

  ghost predicate Descends(env: Env, headers: set<Header>, from: seq<byte>, to: seq<byte>) {
    exists path :: Within(path, headers) && Links(env, path, from, to)
  }

  /** The tip descends from every stored block. */
  ghost predicate Connected(env: Env, headers: set<Header>, s: State) {
    && ChainRuns.Consistent(s)
    && forall row {:trigger row in s.rows} :: row in s.rows ==>
         s.tip.Some? && Descends(env, headers, row.hash, s.tip.value)
  }

  ghost predicate From(headers: set<Header>, c: Call) {
    c.Submit? ==> c.block.header in headers
  }

  lemma {:induction false} LinksOn(env: Env, path: seq<Header>, from: seq<byte>, to: seq<byte>, header: Header)
    requires Links(env, path, from, to) && header.prevHash == to && HeaderPacks(header)
    ensures Links(env, path + [header], from, BlockHash(env, header))
  {
    if path == [] {
      assert Links(env, [], BlockHash(env, header), BlockHash(env, header));
      assert ([header])[1..] == [];
    } else {
      LinksOn(env, path[1..], BlockHash(env, path[0]), to, header);
      assert (path + [header])[1..] == path[1..] + [header];
    }
  }

  lemma LongerPath(env: Env, headers: set<Header>, from: seq<byte>, tip: seq<byte>, header: Header)
    returns (path: seq<Header>)
    requires Descends(env, headers, from, tip)
    requires header in headers && HeaderPacks(header) && header.prevHash == tip
    ensures path != [] && Within(path, headers) && Links(env, path, from, BlockHash(env, header))
  {
    var shorter :| Within(shorter, headers) && Links(env, shorter, from, tip);
    LinksOn(env, shorter, from, tip, header);
    path := shorter + [header];
  }

  /** One more header, on the tip: it is new, unless predecessors form a cycle. */
  lemma {:induction false} DescendsOn(env: Env, headers: set<Header>, from: seq<byte>, tip: seq<byte>, header: Header)
    requires NoCycle(env, headers) && Descends(env, headers, from, tip)
    requires header in headers && HeaderPacks(header) && header.prevHash == tip
    ensures Descends(env, headers, from, BlockHash(env, header)) && from != BlockHash(env, header)
  {
    var path := LongerPath(env, headers, from, tip, header);
    assert !Links(env, path, from, from);
  }

  /** What a block that passes is to the stored ones */
  ghost predicate Newest(env: Env, headers: set<Header>, s: State, hash: seq<byte>) {
    forall row {:trigger row in s.rows} :: row in s.rows ==> Descends(env, headers, row.hash, hash) && row.hash != hash
  }

  lemma {:induction false} NewestOnTip(env: Env, headers: set<Header>, s: State, header: Header)
    requires Connected(env, headers, s) && NoCycle(env, headers) && header in headers && HeaderPacks(header)
    requires s.tip.Some? ==> header.prevHash == s.tip.value
    ensures Newest(env, headers, s, BlockHash(env, header))
  {
    forall row {:trigger row in s.rows} | row in s.rows
      ensures Descends(env, headers, row.hash, BlockHash(env, header)) && row.hash != BlockHash(env, header)
    {
      DescendsOn(env, headers, row.hash, s.tip.value, header);
    }
  }

  lemma {:induction false} ConnectedThroughVerdict(env: Env, headers: set<Header>, s: State, verdict: Verdict)
    requires Connected(env, headers, s)
    requires verdict.Passed? ==> Newest(env, headers, s, verdict.row.hash)
    ensures Connected(env, headers, Applied(s, verdict).0)
    ensures forall h :: RowOf(s.rows, h).Some? ==> RowOf(Applied(s, verdict).0.rows, h).Some?
  {
    ChainRuns.ConsistentStep(s, verdict);
    if verdict.Passed? {
      assert Within([], headers) && Links(env, [], verdict.row.hash, verdict.row.hash);
      assert Descends(env, headers, verdict.row.hash, verdict.row.hash);
    }
    forall h | RowOf(s.rows, h).Some?
      ensures RowOf(Applied(s, verdict).0.rows, h).Some?
    {
      var row := RowOf(s.rows, h).value;
      assert row in Applied(s, verdict).0.rows;
    }
  }

  lemma {:induction false} StoredThroughVerdict(env: Env, headers: set<Header>, n: Node, verdict: Verdict, h: seq<byte>)
    requires Connected(env, headers, n.chain) && FinalityRuns.Consistent(n.tables)
    requires verdict.Passed? ==> Newest(env, headers, n.chain, verdict.row.hash)
    ensures Connected(env, headers, Submitted(n, verdict).chain)
    ensures FinalityRuns.Consistent(Submitted(n, verdict).tables)
    ensures RowOf(n.chain.rows, h).Some? ==>
              RowOf(Submitted(n, verdict).chain.rows, h).Some? && (verdict.Passed? ==> verdict.row.hash != h)
  {
    if verdict.Passed? {
      FinalityRuns.StepConsistent(n.tables, Finality.Block(verdict.row.hash, verdict.row.height, true));
    }
    ConnectedThroughVerdict(env, headers, n.chain, verdict);
  }

  /** Through every call a stored block stays stored and does not arrive again. */
  lemma {:induction false} StoredThroughCall(env: Env, headers: set<Header>, n: Node, c: Call, h: seq<byte>)
    requires Connected(env, headers, n.chain) && FinalityRuns.Consistent(n.tables)
    requires NoCycle(env, headers) && From(headers, c)
    ensures Connected(env, headers, Called(env, n, c).chain) && FinalityRuns.Consistent(Called(env, n, c).tables)
    ensures RowOf(n.chain.rows, h).Some? ==>
              RowOf(Called(env, n, c).chain.rows, h).Some? && !Arrives(env, n, c, h)
  {
    match c
    case Register(a, stake, txid, height) =>
      FinalityRuns.StepConsistent(n.tables, Finality.Register(a, stake, txid, height));
    case Vote(vote, now) =>
      FinalityRuns.StepConsistent(n.tables, Finality.Vote(vote, now));
    case Submit(block, now) =>
      var verdict := Validated(env, now, n.chain, block);
      if verdict.Passed? {
        ChainRuns.PassedOnTip(env, now, n.chain, block);
        NewestOnTip(env, headers, n.chain, block.header);
      }
      StoredThroughVerdict(env, headers, n, verdict, h);
  }

  /** Without a cycle of predecessors, a finalized checkpoint whose block is stored is finalized forever: from any
      such state, through every run of registrations, votes and submitted blocks. */
  lemma {:induction false} StoredStaysFinal(env: Env, headers: set<Header>, n: Node, calls: seq<Call>, h: seq<byte>)
    requires Connected(env, headers, n.chain) && FinalityRuns.Consistent(n.tables)
    requires NoCycle(env, headers) && forall i :: 0 <= i < |calls| ==> From(headers, calls[i])
    ensures var m := Run(env, n, calls);
            && Connected(env, headers, m.chain) && FinalityRuns.Consistent(m.tables)
            && (RowOf(n.chain.rows, h).Some? ==>
                  && RowOf(m.chain.rows, h).Some?
                  && (FinalityRuns.IsFinalized(n.tables, h) ==> FinalityRuns.IsFinalized(m.tables, h)))
  {
    if calls != [] {
      var before, c := calls[..|calls| - 1], calls[|calls| - 1];
      StoredStaysFinal(env, headers, n, before, h);
      var m := Run(env, n, before);
      StoredThroughCall(env, headers, m, c, h);
      if FinalityRuns.IsFinalized(m.tables, h) {
        FinalityThroughCall(env, m, c, h);
      }
    }
  }

  /** So it is from any point of any run that starts with an empty database. */
  lemma {:induction false} FinalOnceStored(env: Env, headers: set<Header>, calls: seq<Call>, later: seq<Call>,
        h: seq<byte>)
    requires NoCycle(env, headers)
    requires forall i :: 0 <= i < |calls| ==> From(headers, calls[i])
    requires forall i :: 0 <= i < |later| ==> From(headers, later[i])
    requires RowOf(Run(env, START, calls).chain.rows, h).Some?
    requires FinalityRuns.IsFinalized(Run(env, START, calls).tables, h)
    ensures FinalityRuns.IsFinalized(Run(env, Run(env, START, calls), later).tables, h)
  {
    StoredStaysFinal(env, headers, START, calls, h);
    StoredStaysFinal(env, headers, Run(env, START, calls), later, h);
  }
}
