/** What holds over whole runs of block applications, accepted or not: the tip, the unspent outputs and the
    money supply. */
module ChainRuns {
  import opened Bytes
  import opened Difficulty
  import opened Rewards
  import opened Transactions
  import opened Utxo
  import opened BlockEffect
  import opened Chain
  import opened Arithmetic
  import Merkle
  import opened Wrappers

  function Next(s: State, verdict: Verdict): State {
    Applied(s, verdict).0
  }

  /** Calls to apply_block, each given by the verdict of validate_block, whatever that is */
  function Run(s: State, verdicts: seq<Verdict>): State
    decreases verdicts
  {
    if verdicts == [] then s else Run(Next(s, verdicts[0]), verdicts[1..])
  }

  predicate IsAccepted(s: State, verdict: Verdict) {
    Applied(s, verdict).1 == Returned(true)
  }

  // ----- The tip -----

  predicate DistinctHashes(rows: seq<Row>) {
    forall i, j :: 0 <= i < j < |rows| ==> rows[i].hash != rows[j].hash
  }

  /** The tip is a stored block at the chain's height. */
  predicate Consistent(s: State) {
    && DistinctHashes(s.rows)
    && (s.tip.None? ==> s.height == -1)
    && (s.tip.Some? ==> TipRow(s.rows, s.tip).Some? && TipRow(s.rows, s.tip).value.height == s.height)
  }

  lemma {:induction false} WithoutDistinct(rows: seq<Row>, hash: seq<byte>)
    requires DistinctHashes(rows)
    ensures DistinctHashes(Without(rows, hash))
  {
    if rows != [] {
      WithoutDistinct(rows[1..], hash);
    }
  }

  lemma {:induction false} RowOfLast(rows: seq<Row>, row: Row)
    requires forall r :: r in rows ==> r.hash != row.hash
    ensures RowOf(rows + [row], row.hash) == Some(row)
  {
    if rows != [] {
      RowOfLast(rows[1..], row);
      assert (rows + [row])[1..] == rows[1..] + [row];
    }
  }

  lemma ConsistentStep(s: State, verdict: Verdict)
    requires Consistent(s)
    ensures Consistent(Next(s, verdict))
  {
    if IsAccepted(s, verdict) {
      WithoutDistinct(s.rows, verdict.row.hash);
      RowOfLast(Without(s.rows, verdict.row.hash), verdict.row);
    }
  }

  lemma {:induction false} ConsistentRun(s: State, verdicts: seq<Verdict>)
    requires Consistent(s)
    ensures Consistent(Run(s, verdicts))
    decreases verdicts
  {
    if verdicts != [] {
      ConsistentStep(s, verdicts[0]);
      ConsistentRun(Next(s, verdicts[0]), verdicts[1..]);
    }
  }

  /** After any run, an object that opens the database finds the tip and the height of the one that wrote it,
      and the unspent outputs without what is still pending. */
  lemma {:induction false} RestartRecovers(verdicts: seq<Verdict>)
    ensures var s := Run(EMPTY, verdicts); Loaded(s.saved, s.rows, s.tip) == s.(utxos := s.saved)
  {
    ConsistentRun(EMPTY, verdicts);
  }

  /** Nothing is pending after an accepted block. */
  lemma AcceptedIsSaved(s: State, verdict: Verdict)
    requires IsAccepted(s, verdict) && verdict.txs != []
    ensures Next(s, verdict).saved == Next(s, verdict).utxos
  {
    BlockSaves(s.saved, s.utxos, verdict.txs, verdict.row.height);
  }

  /** Exactly which blocks pass validation: the header packs, its hash is below the target, the size is within 4 MiB,
      every transaction without an id packs, the Merkle root is that of the ids, the timestamp is at most two hours
      ahead, the predecessor is the tip if its row is there, and a coinbase comes first. */
  lemma {:induction false} PassesExactly(env: Env, now: int, s: State, block: Block)
    ensures var header, txs := block.header, block.transactions;
      Validated(env, now, s, block).Passed? <==>
        && HeaderPacks(header)
        && FromBig(env.hash(HeaderBytes(header))) * Pow(256, 3)
           < Coefficient(header.bits) * Pow(256, Exponent(header.bits))
        && env.size(txs) <= 4_194_304
        && (forall i :: 0 <= i < |txs| ==> txs[i].txid != [] || Packs(txs[i]))
        && header.merkleRoot == Merkle.MerkleRoot(env.hash, Ids(NamedAll(env, txs)))
        && header.timestamp <= now + 7200
        && (s.tip.Some? && (exists row :: row in s.rows && row.hash == s.tip.value) ==> header.prevHash == s.tip.value)
        && txs != [] && txs[0].isCoinbase
  {
    if HeaderPacks(block.header) {
      BelowTargetMeans(FromBig(env.hash(HeaderBytes(block.header))), block.header.bits);
    }
    if s.tip.Some? {
      var row := RowOf(s.rows, s.tip.value);
      assert row.Some? <==> exists r :: r in s.rows && r.hash == s.tip.value;
    }
  }

  /** What a block that passes is stored as, and which ids its transactions have: those they come with, and the hash of
      the encoding where there is none */
  lemma {:induction false} PassedExactly(env: Env, now: int, s: State, block: Block)
    requires Validated(env, now, s, block).Passed?
    ensures var header, v := block.header, Validated(env, now, s, block);
      && HeaderPacks(header)
      && v.row == Row(env.hash(HeaderBytes(header)), header.height, header.timestamp, header.bits)
      && |v.txs| == |block.transactions|
      && forall i {:trigger v.txs[i]} :: 0 <= i < |v.txs| ==>
           var tx := block.transactions[i];
           && (tx.txid != [] ==> v.txs[i] == tx)
           && (tx.txid == [] ==> Packs(tx) && v.txs[i] == tx.(txid := env.hash(Serialized(tx))))
  {}

  /** The call raises exactly when the header does not pack, or when, below the target and within the size limit, a
      transaction without an id does not. */
  lemma {:induction false} RaisesExactly(env: Env, now: int, s: State, block: Block)
    ensures var header, txs := block.header, block.transactions;
      Applied(s, Validated(env, now, s, block)).1 == Raised <==>
        || !HeaderPacks(header)
        || (&& IsBelowTarget(FromBig(env.hash(HeaderBytes(header))), header.bits) && env.size(txs) <= 4_194_304
            && exists i :: 0 <= i < |txs| && txs[i].txid == [] && !Packs(txs[i]))
  {}

  /** A block that passes starts with a coinbase; so nothing is pending after one that is accepted. */
  lemma ValidatedIsSaved(env: Env, now: int, s: State, block: Block)
    ensures Validated(env, now, s, block).Passed? ==> block.transactions != [] && block.transactions[0].isCoinbase
    ensures IsAccepted(s, Validated(env, now, s, block)) ==>
              Next(s, Validated(env, now, s, block)).saved == Next(s, Validated(env, now, s, block)).utxos
  {
    if IsAccepted(s, Validated(env, now, s, block)) {
      AcceptedIsSaved(s, Validated(env, now, s, block));
    }
  }

  /** The tables of the chain: a rejected block leaves them, and a failed one the unspent outputs too; an accepted block
      becomes the tip and the last row, in place of any with its hash. */
  lemma {:induction false} TablesExactly(s: State, verdict: Verdict)
    ensures var t := Next(s, verdict);
      && (!verdict.Passed? ==> t == s)
      && (!IsAccepted(s, verdict) ==> t.rows == s.rows && t.tip == s.tip && t.height == s.height)
      && (IsAccepted(s, verdict) ==>
            && t.tip == Some(verdict.row.hash) && t.height == verdict.row.height
            && t.rows != [] && t.rows[|t.rows| - 1] == verdict.row
            && (RowOf(s.rows, verdict.row.hash) == None ==> t.rows == s.rows + [verdict.row])
            && (forall row :: row in t.rows <==>
                  row == verdict.row || (row in s.rows && row.hash != verdict.row.hash)))
  {
    if IsAccepted(s, verdict) && RowOf(s.rows, verdict.row.hash) == None {
      NothingWithout(s.rows, verdict.row.hash);
    }
  }

  lemma {:induction false} NothingWithout(rows: seq<Row>, hash: seq<byte>)
    requires RowOf(rows, hash) == None
    ensures Without(rows, hash) == rows
  {
    if rows != [] {
      NothingWithout(rows[1..], hash);
    }
  }

  /** The first row at a height, if there is one */
  lemma {:induction false} FirstAtExactly(rows: seq<Row>, height: int, i: nat)
    requires i < |rows| && rows[i].height == height && forall j :: 0 <= j < i ==> rows[j].height != height
    ensures FirstAt(rows, height) == Some(rows[i])
  {
    if i != 0 {
      FirstAtExactly(rows[1..], height, i - 1);
    }
  }

  /** The bits the chain asks for: those of the genesis block below the first boundary and where a row is missing, those
      of the tip off the boundaries, and at one the retarget from the first row at the height a period below. */
  lemma {:induction false} NextBitsExactly(rows: seq<Row>, tip: Option<seq<byte>>, height: int)
    ensures height < 2016 ==> NextBits(rows, tip, height) == Returned(0x1d00ffff)
    ensures tip.None? || RowOf(rows, tip.value).None? ==> NextBits(rows, tip, height) == Returned(0x1d00ffff)
    ensures 2016 <= height && height % 2016 != 0 && tip.Some? && RowOf(rows, tip.value).Some? ==>
              NextBits(rows, tip, height) == Returned(RowOf(rows, tip.value).value.bits)
    ensures 2016 <= height && height % 2016 == 0 && (forall row :: row in rows ==> row.height != height - 2016) ==>
              NextBits(rows, tip, height) == Returned(0x1d00ffff)
    ensures 2016 <= height && height % 2016 == 0 && tip.Some? && RowOf(rows, tip.value).Some?
            && FirstAt(rows, height - 2016).Some? ==>
              var past, last := FirstAt(rows, height - 2016).value, RowOf(rows, tip.value).value;
              NextBits(rows, tip, height) == Retargeted(past.bits, last.timestamp - past.timestamp)
  {}

  /** A block that passes names the tip as its predecessor, if there is one. */
  lemma PassedOnTip(env: Env, now: int, s: State, block: Block)
    requires Consistent(s) && Validated(env, now, s, block).Passed?
    ensures HeaderPacks(block.header)
    ensures Validated(env, now, s, block).row.hash == BlockHash(env, block.header)
    ensures s.tip.Some? ==> block.header.prevHash == s.tip.value
  {}

  /** So it does after any run. */
  lemma {:induction false} PassedExtendsTip(env: Env, now: int, verdicts: seq<Verdict>, block: Block)
    requires Validated(env, now, Run(EMPTY, verdicts), block).Passed?
    ensures var s := Run(EMPTY, verdicts); s.tip.Some? ==> block.header.prevHash == s.tip.value
  {
    ConsistentRun(EMPTY, verdicts);
    PassedOnTip(env, now, Run(EMPTY, verdicts), block);
  }

  // ----- Consumption -----

  /** The row operations of a run */
  function RunLog(s: State, verdicts: seq<Verdict>): seq<Entry>
    decreases verdicts
  {
    if verdicts == [] then []
    else
      var rest := RunLog(Next(s, verdicts[0]), verdicts[1..]);
      if verdicts[0].Passed? then BlockLog(s.utxos, verdicts[0].txs, verdicts[0].row.height).0 + rest else rest
  }

  lemma {:induction false} RunReplays(s: State, verdicts: seq<Verdict>)
    ensures Run(s, verdicts).utxos == Replay(s.utxos, RunLog(s, verdicts))
    ensures Legal(s.utxos, RunLog(s, verdicts))
    decreases verdicts
  {
    if verdicts != [] {
      var s' := Next(s, verdicts[0]);
      RunReplays(s', verdicts[1..]);
      if verdicts[0].Passed? {
        var log := BlockLog(s.utxos, verdicts[0].txs, verdicts[0].row.height).0;
        BlockLegal(s.utxos, verdicts[0].txs, verdicts[0].row.height);
        ReplayAppend(s.utxos, log, RunLog(s', verdicts[1..]));
        LegalAppend(s.utxos, log, RunLog(s', verdicts[1..]));
      }
    }
  }

  /** In every run, rejected blocks included, each outpoint is written exactly as often as it is consumed or
      overwritten, plus once if it is there at the end: it is never consumed more often than it was written. */
  lemma {:induction false} NoDoubleSpend(verdicts: seq<Verdict>, o: Outpoint)
    ensures var log, u := RunLog(EMPTY, verdicts), Run(EMPTY, verdicts).utxos;
            && Written(log, o) == Spent(log, o) + Replaced(map[], log, o) + Present(u, o)
            && Spent(log, o) <= Written(log, o)
  {
    RunReplays(EMPTY, verdicts);
    RowsConserved(map[], RunLog(EMPTY, verdicts), o);
  }

  // ----- The money supply -----

  function OutputTotal(outs: seq<TxOutput>): int {
    if outs == [] then 0 else outs[0].amount + OutputTotal(outs[1..])
  }

  predicate NonNegative(u: Utxos) {
    forall o :: o in u ==> 0 <= u[o].amount
  }

  predicate NonNegativeOutputs(txs: seq<Transaction>) {
    forall i, j :: 0 <= i < |txs| && 0 <= j < |txs[i].outputs| ==> 0 <= txs[i].outputs[j].amount
  }

  /** No transaction but a coinbase pays out more than it consumes; the code does not check this. */
  predicate Conserves(u: Utxos, txs: seq<Transaction>, height: int)
    decreases txs
  {
    txs == [] ||
    (var tx, first := txs[0], TransactionLog(u, txs[0], height);
     && (!tx.isCoinbase && Spends(u, tx.inputs).1 ==> OutputTotal(tx.outputs) <= SpentValue(u, Spends(u, tx.inputs).0))
     && (first.1 ==> Conserves(Replay(u, first.0), txs[1..], height)))
  }

  function CoinbaseTotal(txs: seq<Transaction>): int {
    if txs == [] then 0
    else (if txs[0].isCoinbase then OutputTotal(txs[0].outputs) else 0) + CoinbaseTotal(txs[1..])
  }

  /** Every value that a log writes is non-negative. */
  predicate NonNegativeLog(log: seq<Entry>) {
    forall i :: 0 <= i < |log| && log[i].Write? ==> 0 <= log[i].output.amount
  }

  lemma {:induction false} ReplayNonNegative(u: Utxos, log: seq<Entry>)
    requires NonNegative(u) && NonNegativeLog(log)
    ensures NonNegative(Replay(u, log)) && 0 <= ReplacedValue(u, log) && 0 <= SpentValue(u, log)
    decreases log
  {
    if log != [] {
      ReplayNonNegative(After(u, log[0]), log[1..]);
    }
  }

  lemma {:induction false} OutputsNonNegative(outs: seq<TxOutput>)
    requires forall j :: 0 <= j < |outs| ==> 0 <= outs[j].amount
    ensures 0 <= OutputTotal(outs)
  {
    if outs != [] {
      OutputsNonNegative(outs[1..]);
    }
  }

  /** What is written of a transaction's outputs is worth at most all of them. */
  lemma {:induction false} WritesValue(txid: seq<byte>, height: int, outs: seq<TxOutput>, from: nat)
    requires from <= |outs| && forall j :: 0 <= j < |outs| ==> 0 <= outs[j].amount
    ensures WrittenValue(Writes(txid, height, outs, from).0) <= OutputTotal(outs[from..])
    ensures NonNegativeLog(Writes(txid, height, outs, from).0)
    decreases |outs| - from
  {
    if from != |outs| {
      assert outs[from..][1..] == outs[from + 1..];
      WritesValue(txid, height, outs, from + 1);
      OutputsNonNegative(outs[from..]);
    }
  }

  lemma {:induction false} SpendsOnlySpend(u: Utxos, ins: seq<TxInput>)
    ensures forall i :: 0 <= i < |Spends(u, ins).0| ==> !Spends(u, ins).0[i].Write?
    ensures WrittenValue(Spends(u, ins).0) == 0
  {
    if ins != [] && FitsI64(ins[0].prevVout) && SpentBy(ins[0]) in u {
      var o := SpentBy(ins[0]);
      SpendsOnlySpend(u - {o}, ins[1..]);
      var log, rest := Spends(u, ins).0, Spends(u - {o}, ins[1..]).0;
      assert log[1..] == [Commit] + rest && log[1..][1..] == rest;
    }
  }

  /** The value of the table never grows by more than the log writes less what it spends. */
  lemma {:induction false} TotalAtMost(u: Utxos, log: seq<Entry>)
    requires NonNegative(u) && NonNegativeLog(log)
    ensures Total(Replay(u, log)) <= Total(u) + WrittenValue(log) - SpentValue(u, log) && 0 <= SpentValue(u, log)
    ensures NonNegative(Replay(u, log))
  {
    ValueConserved(u, log);
    ReplayNonNegative(u, log);
  }

  lemma {:induction false} SpendsBound(u: Utxos, ins: seq<TxInput>)
    requires NonNegative(u)
    ensures var v := Replay(u, Spends(u, ins).0);
            NonNegative(v) && Total(v) <= Total(u) - SpentValue(u, Spends(u, ins).0) <= Total(u)
  {
    SpendsOnlySpend(u, ins);
    TotalAtMost(u, Spends(u, ins).0);
  }

  lemma {:induction false} WritesBound(u: Utxos, tx: Transaction, height: int)
    requires NonNegative(u) && forall j :: 0 <= j < |tx.outputs| ==> 0 <= tx.outputs[j].amount
    ensures var v := Replay(u, Writes(tx.txid, height, tx.outputs, 0).0);
            NonNegative(v) && Total(v) <= Total(u) + OutputTotal(tx.outputs)
  {
    WritesValue(tx.txid, height, tx.outputs, 0);
    assert tx.outputs[0..] == tx.outputs;
    TotalAtMost(u, Writes(tx.txid, height, tx.outputs, 0).0);
  }

  /** A transaction adds at most what a coinbase pays, whether or not it goes through. */
  lemma {:induction false} TransactionBound(u: Utxos, tx: Transaction, height: int)
    requires NonNegative(u) && forall j :: 0 <= j < |tx.outputs| ==> 0 <= tx.outputs[j].amount
    requires !tx.isCoinbase && Spends(u, tx.inputs).1 ==>
      OutputTotal(tx.outputs) <= SpentValue(u, Spends(u, tx.inputs).0)
    ensures var v := Replay(u, TransactionLog(u, tx, height).0);
            NonNegative(v) && Total(v) <= Total(u) + if tx.isCoinbase then OutputTotal(tx.outputs) else 0
  {
    var spends := InputSpends(u, tx);
    SpendsBound(u, tx.inputs);
    OutputsNonNegative(tx.outputs);
    TransactionParts(u, u, tx, height);
    WritesBound(Replay(u, spends.0), tx, height);
  }

  lemma {:induction false} CoinbaseTotalNonNegative(txs: seq<Transaction>)
    requires NonNegativeOutputs(txs)
    ensures 0 <= CoinbaseTotal(txs)
  {
    if txs != [] {
      OutputsNonNegative(txs[0].outputs);
      CoinbaseTotalNonNegative(txs[1..]);
    }
  }

  /** So does a block. */
  lemma {:induction false} BlockBound(u: Utxos, txs: seq<Transaction>, height: int)
    requires NonNegative(u) && NonNegativeOutputs(txs) && Conserves(u, txs, height)
    ensures var v := Replay(u, BlockLog(u, txs, height).0);
            NonNegative(v) && Total(v) <= Total(u) + CoinbaseTotal(txs)
    decreases txs
  {
    if txs != [] {
      var first := TransactionLog(u, txs[0], height);
      TransactionBound(u, txs[0], height);
      CoinbaseTotalNonNegative(txs[1..]);
      BlockStep(u, u, txs, 0, height);
      assert txs[0..] == txs && txs[0 + 1..] == txs[1..];
      if first.1 {
        BlockBound(Replay(u, first.0), txs[1..], height);
      }
    }
  }

  /** One coinbase, first, that pays the reward of the height after the tip's, and no other value created */
  predicate PaysReward(s: State, row: Row, txs: seq<Transaction>) {
    && 0 <= s.height + 1 == row.height
    && txs != [] && txs[0].isCoinbase && OutputTotal(txs[0].outputs) == BlockReward(s.height + 1)
    && (forall i :: 1 <= i < |txs| ==> !txs[i].isCoinbase)
    && NonNegativeOutputs(txs) && Conserves(s.utxos, txs, row.height)
  }

  /** Every block of a run that passes validation is such a block. */
  predicate Issues(s: State, verdicts: seq<Verdict>)
    decreases verdicts
  {
    verdicts == [] ||
    (&& (verdicts[0].Passed? ==> PaysReward(s, verdicts[0].row, verdicts[0].txs))
     && Issues(Next(s, verdicts[0]), verdicts[1..]))
  }

  /** The rewards of the blocks that passed validation, whether or not they were accepted */
  function Minted(verdicts: seq<Verdict>): nat {
    if verdicts == [] then 0
    else
      (if verdicts[0].Passed? && 0 <= verdicts[0].row.height then BlockReward(verdicts[0].row.height) else 0)
      + Minted(verdicts[1..])
  }

  lemma {:induction false} NoCoinbase(txs: seq<Transaction>)
    requires forall i :: 0 <= i < |txs| ==> !txs[i].isCoinbase
    ensures CoinbaseTotal(txs) == 0
  {
    if txs != [] {
      NoCoinbase(txs[1..]);
    }
  }

  lemma StepBound(s: State, row: Row, txs: seq<Transaction>)
    requires NonNegative(s.utxos) && PaysReward(s, row, txs)
    ensures var u := Next(s, Passed(row, txs)).utxos;
            NonNegative(u) && Total(u) <= Total(s.utxos) + BlockReward(row.height)
  {
    BlockBound(s.utxos, txs, row.height);
    NoCoinbase(txs[1..]);
  }

  /** In every run of such blocks, rejected ones included, the unspent value is at most the rewards of the
      blocks that passed validation. */
  lemma {:induction false} ValueBounded(s: State, verdicts: seq<Verdict>)
    requires NonNegative(s.utxos) && Issues(s, verdicts)
    ensures var u := Run(s, verdicts).utxos; NonNegative(u) && Total(u) <= Total(s.utxos) + Minted(verdicts)
    decreases verdicts
  {
    if verdicts != [] {
      if verdicts[0].Passed? {
        StepBound(s, verdicts[0].row, verdicts[0].txs);
      }
      ValueBounded(Next(s, verdicts[0]), verdicts[1..]);
    }
  }

  predicate AllAccepted(s: State, verdicts: seq<Verdict>)
    decreases verdicts
  {
    verdicts == [] || (IsAccepted(s, verdicts[0]) && AllAccepted(Next(s, verdicts[0]), verdicts[1..]))
  }

  /** Accepted blocks of such a run have consecutive heights. */
  lemma {:induction false} AcceptedHeights(s: State, verdicts: seq<Verdict>)
    requires -1 <= s.height && Issues(s, verdicts) && AllAccepted(s, verdicts)
    ensures Run(s, verdicts).height == s.height + |verdicts|
    ensures forall k :: 0 <= k < |verdicts| ==> verdicts[k].Passed? && verdicts[k].row.height == s.height + 1 + k
    decreases verdicts
  {
    if verdicts != [] {
      AcceptedHeights(Next(s, verdicts[0]), verdicts[1..]);
    }
  }

  lemma {:induction false} MintedConsecutive(verdicts: seq<Verdict>, start: nat)
    requires forall k :: 0 <= k < |verdicts| ==> verdicts[k].Passed? && verdicts[k].row.height == start + k
    ensures SumRewards(start) + Minted(verdicts) == SumRewards(start + |verdicts|)
    decreases verdicts
  {
    if verdicts != [] {
      MintedConsecutive(verdicts[1..], start + 1);
    }
  }

  lemma {:induction false} MintedFromStart(s: State, verdicts: seq<Verdict>)
    requires s.height == -1 && Issues(s, verdicts) && AllAccepted(s, verdicts)
    ensures Run(s, verdicts).height == |verdicts| - 1 && Minted(verdicts) == SumRewards(|verdicts|)
  {
    AcceptedHeights(s, verdicts);
    MintedConsecutive(verdicts, 0);
  }

  lemma NothingInEmpty(u: Utxos)
    requires u == map[]
    ensures NonNegative(u) && Total(u) == 0
  {
    assert u.Keys == {};
  }

  lemma {:induction false} SupplyFrom(s: State, verdicts: seq<Verdict>)
    requires s.utxos == map[] && s.height == -1 && Issues(s, verdicts) && AllAccepted(s, verdicts)
    ensures Run(s, verdicts).height == |verdicts| - 1
    ensures Total(Run(s, verdicts).utxos) <= SumRewards(|verdicts|)
  {
    NothingInEmpty(s.utxos);
    ValueBounded(s, verdicts);
    MintedFromStart(s, verdicts);
  }

  /** When every block of the run is accepted, that is at most the rewards up to the tip, and so at most the cap. */
  lemma {:induction false} SupplyBounded(verdicts: seq<Verdict>)
    requires Issues(EMPTY, verdicts) && AllAccepted(EMPTY, verdicts)
    ensures var s := Run(EMPTY, verdicts);
            && s.height == |verdicts| - 1
            && Total(s.utxos) <= SumRewards(s.height + 1) <= SUPPLY_CAP
  {
    SupplyFrom(EMPTY, verdicts);
    SupplyCapped(|verdicts|);
  }

  // ----- A rejected block -----

  /** Accepted, or the table of unspent outputs is what it was */
  predicate Atomic(s: State, verdict: Verdict) {
    IsAccepted(s, verdict) || Next(s, verdict).utxos == s.utxos
  }

  /** A block that passes is accepted exactly when its transactions are applicable and its height fits its row. */
  lemma AcceptedExactly(s: State, row: Row, txs: seq<Transaction>)
    ensures IsAccepted(s, Passed(row, txs)) <==> Applicable(s.utxos, txs, row.height) && FitsI64(row.height)
  {
    BlockAppliesExactly(s.utxos, txs, row.height);
  }

  /** Its application is atomic exactly when it is accepted, or what is done before the exception leaves no trace:
      a condition on the table and the transactions. */
  lemma {:induction false} AtomicExactly(s: State, row: Row, txs: seq<Transaction>)
    ensures Atomic(s, Passed(row, txs)) <==>
            || (Applicable(s.utxos, txs, row.height) && FitsI64(row.height))
            || LeavesNoTrace(s.utxos, DoneBlock(s.utxos, txs, row.height))
  {
    AcceptedExactly(s, row, txs);
    UnchangedExactly(s.utxos, txs, row.height);
  }

  /** With a fresh coinbase there always is a trace. */
  lemma FreshAtomicExactly(s: State, row: Row, txs: seq<Transaction>)
    requires FreshCoinbase(s.utxos, txs, row.height)
    ensures Atomic(s, Passed(row, txs)) <==> Applicable(s.utxos, txs, row.height)
    ensures Outpoint(txs[0].txid, 0) in Next(s, Passed(row, txs)).utxos
  {
    AcceptedExactly(s, row, txs);
    FreshStays(s.utxos, txs, row.height);
  }
}
