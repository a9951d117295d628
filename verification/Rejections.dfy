/** Concrete blocks that validation passes: one creates money, and others are rejected half way, with what they leave
    behind. */
module Rejections {
  import opened Bytes
  import opened Difficulty
  import opened Rewards
  import opened Transactions
  import opened Utxo
  import opened BlockEffect
  import opened BlockValue
  import opened Chain
  import opened ChainRuns
  import opened Mining
  import opened Wrappers
  import Merkle

  /** A hash with one value, below every target, and no sizes */
  function ZeroEnv(): Env {
    Env(_ => ZeroHash(), _ => 0)
  }

  const EASY_BITS := 0x0300_0001

  function FirstBlock(txs: seq<Transaction>): Block {
    Block(Header(1, ZeroHash(), ZeroHash(), 0, EASY_BITS, 0, 0), txs)
  }

  lemma {:induction false} ZeroIsSmall(b: seq<byte>)
    requires forall i :: 0 <= i < |b| ==> b[i] == 0
    ensures FromBig(b) == 0
  {
    if b != [] {
      ZeroIsSmall(b[..|b| - 1]);
    }
  }

  lemma ZeroRoot(ids: seq<seq<byte>>)
    requires 2 <= |ids|
    ensures Merkle.MerkleRoot(ZeroEnv().hash, ids) == ZeroHash()
  {
    var leaves := Merkle.Leaves(ids);
    assert Merkle.Depth(|leaves|) >= 1;
    Merkle.WidthAtDepth(|leaves|);
    assert Merkle.TreeRoot(ZeroEnv().hash, leaves) == ZeroHash();
    assert Reverse(ZeroHash()) == ZeroHash();
  }

  lemma ZeroBelowTarget(bits: nat)
    requires bits == EASY_BITS
    ensures IsBelowTarget(FromBig(ZeroHash()), bits)
  {
    ZeroIsSmall(ZeroHash());
    assert Exponent(bits) == 3 && Coefficient(bits) == 1;
  }

  lemma FirstHeader(txs: seq<Transaction>)
    ensures HeaderPacks(FirstBlock(txs).header) && FirstBlock(txs).header.prevHash == Predecessor(EMPTY.tip)
  {}

  lemma FirstBlockPlaced(txs: seq<Transaction>)
    requires 2 <= |txs| && txs[0].isCoinbase && AllNamed(txs)
    ensures WellPlaced(ZeroEnv(), EMPTY, FirstBlock(txs))
  {
    FirstHeader(txs);
    ZeroRoot(Ids(txs));
  }

  /** With a hash of zero nothing but the size and the clock can be against a block that is well placed. */
  lemma ZeroHashPasses(env: Env, now: int, s: State, block: Block)
    requires WellPlaced(env, s, block) && block.header.bits == EASY_BITS
    requires BlockHash(env, block.header) == ZeroHash()
    requires env.size(block.transactions) <= MAX_BLOCK_SIZE_BYTES && block.header.timestamp <= now
    ensures var header := block.header;
            Validated(env, now, s, block)
            == Passed(Row(ZeroHash(), header.height, header.timestamp, header.bits), block.transactions)
  {
    ZeroBelowTarget(block.header.bits);
    WellPlacedPasses(env, now, s, block);
  }

  /** A block of at least two transactions with ids, the first of them a coinbase, passes on an empty chain. */
  lemma FirstBlockPasses(now: nat, txs: seq<Transaction>)
    requires 2 <= |txs| && txs[0].isCoinbase && AllNamed(txs)
    ensures Validated(ZeroEnv(), now, EMPTY, FirstBlock(txs)) == Passed(Row(ZeroHash(), 0, 0, EASY_BITS), txs)
  {
    FirstBlockPlaced(txs);
    ZeroHashPasses(ZeroEnv(), now, EMPTY, FirstBlock(txs));
  }

  /** 50 coins, under the id 1 */
  function Reward(): Transaction {
    Transaction(1, [], [TxOutput(COINBASE_REWARD_SATOSHIS, [], None)], 0, true, [1])
  }

  /** No inputs and no outputs */
  function Idle(): Transaction {
    Transaction(1, [], [], 0, false, [3])
  }

  /** Its input does not exist. */
  function Unfunded(): Transaction {
    Transaction(1, [TxInput([2], 0, [], 0, None)], [], 0, false, [3])
  }

  /** Its amount is above 64 bits; with an id given, it is never encoded before it is stored. */
  function Oversized(): Transaction {
    Transaction(1, [], [TxOutput(TWO63, [], None)], 0, false, [3])
  }

  /** A reward and an idle transaction are accepted. */
  lemma IdleAccepted(row: Row)
    requires row.height == 0
    ensures IsAccepted(EMPTY, Passed(row, [Reward(), Idle()]))
  {
    var txs := [Reward(), Idle()];
    assert OutputsFit(Reward().outputs, 0) && OutputsFit(Idle().outputs, 0);
    assert txs[1].inputs == [];
    assert AppliesAt(map[], txs, 0, 0) && AppliesAt(map[], txs, 1, 0);
    AcceptedExactly(EMPTY, row, txs);
  }

  /** No inputs, and an output all the same */
  function Unbacked(amount: int): Transaction {
    Transaction(1, [], [TxOutput(amount, [], None)], 0, false, [3])
  }

  lemma UnbackedApplies(amount: int, height: int)
    requires FitsI64(amount) && height == 0
    ensures Applicable(map[], [Reward(), Unbacked(amount)], height)
  {
    var txs := [Reward(), Unbacked(amount)];
    assert OutputsFit(txs[0].outputs, 0) && OutputsFit(txs[1].outputs, 0);
    assert txs[1].inputs == [];
    assert AppliesAt(map[], txs, 0, 0) && AppliesAt(map[], txs, 1, 0);
  }

  lemma OneOutput(output: TxOutput)
    ensures OutputTotal([output]) == output.amount
  {
    assert [output][1..] == [];
  }

  /** With no inputs, and no row at its one output, a transaction creates that output. */
  lemma {:induction false} OneOutputAdded(tx: Transaction, held: Content)
    requires |tx.outputs| == 1 && tx.inputs == [] && held(Outpoint(tx.txid, 0)) == None
    ensures Added(tx, held) == tx.outputs[0].amount
  {
    OneOutput(tx.outputs[0]);
    assert tx.outputs == [tx.outputs[0]];
    assert RowsWorth(AfterInputs(tx, held), tx.txid, 1, 0) == 0;
  }

  lemma {:induction false} UnbackedCreates(amount: int)
    ensures Created(map[], [Reward(), Unbacked(amount)], 2) == COINBASE_REWARD_SATOSHIS + amount
  {
    var txs := [Reward(), Unbacked(amount)];
    var o := Outpoint([3], 0);
    assert Outpoint([1], 0).txid[0] != o.txid[0];
    assert ContentAfter(map[], txs, 0, Outpoint([1], 0)) == None;
    assert ContentAfter(map[], txs, 1, o) == ContentThrough(txs[0], o, ContentAfter(map[], txs, 0, o)) == None;
    OneOutputAdded(txs[0], Before(map[], txs, 0));
    OneOutputAdded(txs[1], Before(map[], txs, 1));
    assert Created(map[], txs, 0) == 0;
    assert Created(map[], txs, 1) == COINBASE_REWARD_SATOSHIS;
  }

  /** On an empty chain a block is accepted that creates, beside its reward, any amount of 64 bits from nothing, and
      with 2^62 more than the whole supply. */
  lemma {:induction false} MoneyFromNothing(now: nat, amount: int)
    requires FitsI64(amount)
    ensures var r := Applied(EMPTY, Validated(ZeroEnv(), now, EMPTY, FirstBlock([Reward(), Unbacked(amount)])));
            && r.1 == Returned(true)
            && Total(r.0.utxos) == COINBASE_REWARD_SATOSHIS + amount
            && (amount == 0x4000_0000_0000_0000 ==> SUPPLY_CAP < Total(r.0.utxos))
  {
    var row, txs := Row(ZeroHash(), 0, 0, EASY_BITS), [Reward(), Unbacked(amount)];
    FirstBlockPasses(now, txs);
    UnbackedApplies(amount, 0);
    AcceptedExactly(EMPTY, row, txs);
    AcceptedAdds(EMPTY, row, txs, 0);
    UnbackedCreates(amount);
    NothingInEmpty(map[]);
  }

  /** Two transactions of which the second does nothing */
  lemma SecondFails(tx: Transaction)
    requires TransactionLog(map[Outpoint([1], 0) := Reward().outputs[0]], tx, 0) == ([], false)
    ensures BlockLog(map[], [Reward(), tx], 0).1 == false
    ensures Replay(map[], BlockLog(map[], [Reward(), tx], 0).0) == map[Outpoint([1], 0) := Reward().outputs[0]]
  {
    var o, output, txs := Outpoint([1], 0), Reward().outputs[0], [Reward(), tx];
    var first := TransactionLog(map[], Reward(), 0);
    assert Writes([1], 0, Reward().outputs, 1) == ([Commit], true);
    assert Writes([1], 0, Reward().outputs, 0) == ([Write(o, output)] + [Commit], true);
    assert first.0 == [Write(o, output), Commit] && first.1;
    var v := After(map[], Write(o, output));
    assert first.0[1..] == [Commit];
    assert Replay(v, [Commit]) == Replay(v, []);
    assert Replay(map[], first.0) == v;
    assert txs[1..] == [tx];
    BlockStep(map[], map[], txs, 0, 0);
    assert txs[0..] == txs && txs[0 + 1..] == txs[1..];
    assert BlockLog(v, [tx], 0) == ([], false);
  }

  /** On an empty chain, apply_block rejects the block of the reward and the transaction, and the reward stays
      spendable, above what the rewards up to the tip come to. */
  ghost predicate RewardSurvivesRejection(now: nat, tx: Transaction) {
    var r := Applied(EMPTY, Validated(ZeroEnv(), now, EMPTY, FirstBlock([Reward(), tx])));
    && r.1 == Returned(false)
    && r.0.rows == EMPTY.rows && r.0.tip == EMPTY.tip && r.0.height == EMPTY.height
    && r.0.utxos == map[Outpoint([1], 0) := Reward().outputs[0]]
    && Total(r.0.utxos) == COINBASE_REWARD_SATOSHIS > SumRewards(r.0.height + 1)
  }

  lemma RejectedReward(now: nat, tx: Transaction)
    requires tx.txid != [] && TransactionLog(map[Outpoint([1], 0) := Reward().outputs[0]], tx, 0) == ([], false)
    ensures RewardSurvivesRejection(now, tx)
  {
    FirstBlockPasses(now, [Reward(), tx]);
    SecondFails(tx);
    TotalWith(map[], Outpoint([1], 0), Reward().outputs[0]);
  }

  lemma UnfundedFails(u: Utxos)
    requires Outpoint([2], 0) !in u
    ensures TransactionLog(u, Unfunded(), 0) == ([], false)
  {
    assert Unfunded().inputs[0] == TxInput([2], 0, [], 0, None);
  }

  lemma OversizedFails(u: Utxos)
    ensures TransactionLog(u, Oversized(), 0) == ([], false)
  {
    var tx := Oversized();
    assert tx.outputs[0].amount == TWO63 && !RowFits(0, tx.outputs[0].amount, 0);
    assert InputSpends(u, tx) == ([], true);
    assert Writes(tx.txid, 0, tx.outputs, 0) == ([], false);
    var none: seq<Entry> := [];
    assert none + none == none;
  }

  /** Neither a missing input nor an amount that does not fit undoes the reward. */
  lemma RejectionsKeepReward(now: nat)
    ensures RewardSurvivesRejection(now, Unfunded())
    ensures RewardSurvivesRejection(now, Oversized())
  {
    var u := map[Outpoint([1], 0) := Reward().outputs[0]];
    assert Outpoint([2], 0).txid[0] != Outpoint([1], 0).txid[0];
    UnfundedFails(u);
    OversizedFails(u);
    RejectedReward(now, Unfunded());
    RejectedReward(now, Oversized());
  }
}
