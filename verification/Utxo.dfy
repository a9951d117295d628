/** The table of unspent outputs, the rows each transaction writes and deletes, and what any sequence of
    such row operations keeps. */
module Utxo {
  import opened Bytes
  import opened Sums
  import opened Transactions
  import opened Wrappers

  datatype Outpoint = Outpoint(txid: seq<byte>, vout: int)

  type Utxos = map<Outpoint, TxOutput>

  /** One statement on the table: INSERT OR REPLACE or DELETE of a row, or the commit of what is pending */
  datatype Entry = Write(outpoint: Outpoint, output: TxOutput) | Spend(outpoint: Outpoint) | Commit

  function After(u: Utxos, e: Entry): Utxos {
    match e
    case Write(o, output) => u[o := output]
    case Spend(o) => u - {o}
    case Commit => u
  }

  function Replay(u: Utxos, log: seq<Entry>): Utxos
    decreases log
  {
    if log == [] then u else Replay(After(u, log[0]), log[1..])
  }

  /** What is committed after a log that starts at a table with some of it committed */
  function Saved(saved: Utxos, u: Utxos, log: seq<Entry>): Utxos
    decreases log
  {
    if log == [] then saved
    else Saved(if log[0].Commit? then u else saved, After(u, log[0]), log[1..])
  }

  lemma {:induction false} ReplayAppend(u: Utxos, a: seq<Entry>, b: seq<Entry>)
    ensures Replay(u, a + b) == Replay(Replay(u, a), b)
    decreases a
  {
    if a == [] {
      assert a + b == b;
    } else {
      ReplayAppend(After(u, a[0]), a[1..], b);
      assert (a + b)[1..] == a[1..] + b;
    }
  }

  lemma {:induction false} SavedAppend(saved: Utxos, u: Utxos, a: seq<Entry>, b: seq<Entry>)
    ensures Saved(saved, u, a + b) == Saved(Saved(saved, u, a), Replay(u, a), b)
    decreases a
  {
    if a == [] {
      assert a + b == b;
    } else {
      SavedAppend(if a[0].Commit? then u else saved, After(u, a[0]), a[1..], b);
      assert (a + b)[1..] == a[1..] + b;
    }
  }

  // ----- What a transaction does to the table -----

  function SpentBy(i: TxInput): Outpoint {
    Outpoint(i.prevTxid, i.prevVout)
  }

  /** The integers of a row of an output fit the 64 bits of a column; binding a larger one raises. */
  predicate RowFits(vout: int, amount: int, height: int) {
    FitsI64(vout) && FitsI64(amount) && FitsI64(height)
  }

  /** add_outputs from one output on: the rows up to one that does not fit, or all of them and the commit */
  function Writes(txid: seq<byte>, height: int, outs: seq<TxOutput>, from: nat): (seq<Entry>, bool)
    requires from <= |outs|
    decreases |outs| - from
  {
    if from == |outs| then ([Commit], true)
    else if !RowFits(from, outs[from].amount, height) then ([], false)
    else
      var rest := Writes(txid, height, outs, from + 1);
      ([Write(Outpoint(txid, from), outs[from])] + rest.0, rest.1)
  }

  /** The spends up to the first output that is missing or cannot be looked up, and whether there is none */
  function Spends(u: Utxos, ins: seq<TxInput>): (seq<Entry>, bool) {
    if ins == [] then ([], true)
    else if !FitsI64(ins[0].prevVout) || SpentBy(ins[0]) !in u then ([], false)
    else
      var rest := Spends(u - {SpentBy(ins[0])}, ins[1..]);
      ([Spend(SpentBy(ins[0])), Commit] + rest.0, rest.1)
  }

  function InputSpends(u: Utxos, tx: Transaction): (seq<Entry>, bool) {
    if tx.isCoinbase then ([], true) else Spends(u, tx.inputs)
  }

  /** The statements of one transaction of apply_block, up to one that raises */
  function TransactionLog(u: Utxos, tx: Transaction, height: int): (seq<Entry>, bool) {
    var spends := InputSpends(u, tx);
    if !spends.1 then spends
    else
      var writes := Writes(tx.txid, height, tx.outputs, 0);
      (spends.0 + writes.0, writes.1)
  }

  function BlockLog(u: Utxos, txs: seq<Transaction>, height: int): (seq<Entry>, bool)
    decreases txs
  {
    if txs == [] then ([], true)
    else
      var first := TransactionLog(u, txs[0], height);
      if !first.1 then first
      else
        var rest := BlockLog(Replay(u, first.0), txs[1..], height);
        (first.0 + rest.0, rest.1)
  }

  /** UTXOSet: the table as its connection sees it, and what is committed of it */
  class UtxoSet {
    var table: Utxos
    var saved: Utxos

    constructor ()
      ensures table == saved == map[]
    {
      table, saved := map[], map[];
    }

    /** False when it raises; the rows written before that stay pending. */
    method AddOutputs(tx: Transaction, height: int) returns (ok: bool)
      modifies this
      ensures ok == Writes(tx.txid, height, tx.outputs, 0).1
      ensures table == Replay(old(table), Writes(tx.txid, height, tx.outputs, 0).0)
      ensures saved == Saved(old(saved), old(table), Writes(tx.txid, height, tx.outputs, 0).0)
    {
      for vout := 0 to |tx.outputs|
        invariant Writes(tx.txid, height, tx.outputs, vout).1 == Writes(tx.txid, height, tx.outputs, 0).1
        invariant Replay(table, Writes(tx.txid, height, tx.outputs, vout).0)
               == Replay(old(table), Writes(tx.txid, height, tx.outputs, 0).0)
        invariant Saved(saved, table, Writes(tx.txid, height, tx.outputs, vout).0)
               == Saved(old(saved), old(table), Writes(tx.txid, height, tx.outputs, 0).0)
      {
        if !RowFits(vout, tx.outputs[vout].amount, height) {
          return false;
        }
        table := table[Outpoint(tx.txid, vout) := tx.outputs[vout]];
      }
      saved := table;
      return true;
    }

    method SpendInput(txid: seq<byte>, vout: int) returns (r: Option<TxOutput>, raised: bool)
      modifies this
      ensures raised <==> !FitsI64(vout)
      ensures r == if raised || Outpoint(txid, vout) !in old(table) then None
                   else Some(old(table)[Outpoint(txid, vout)])
      ensures table == if r.Some? then old(table) - {Outpoint(txid, vout)} else old(table)
      ensures saved == if r.Some? then table else old(saved)
    {
      if !FitsI64(vout) {
        return None, true;
      }
      if Outpoint(txid, vout) !in table {
        return None, false;
      }
      r, raised := Some(table[Outpoint(txid, vout)]), false;
      table := table - {Outpoint(txid, vout)};
      saved := table;
    }

    /** The loop over the inputs of a transaction; false when it raises. */
    method SpendInputs(ins: seq<TxInput>) returns (ok: bool)
      modifies this
      ensures ok == Spends(old(table), ins).1
      ensures table == Replay(old(table), Spends(old(table), ins).0)
      ensures saved == Saved(old(saved), old(table), Spends(old(table), ins).0)
    {
      for k := 0 to |ins|
        invariant Spends(table, ins[k..]).1 == Spends(old(table), ins).1
        invariant Replay(table, Spends(table, ins[k..]).0) == Replay(old(table), Spends(old(table), ins).0)
        invariant Saved(saved, table, Spends(table, ins[k..]).0)
               == Saved(old(saved), old(table), Spends(old(table), ins).0)
      {
        SpendsStep(saved, table, ins, k);
        var spent, raised := SpendInput(ins[k].prevTxid, ins[k].prevVout);
        if raised || spent == None {
          return false;
        }
      }
      return true;
    }

    /** The loop over the transactions of a block; false when it raises. */
    method ApplyTransactions(txs: seq<Transaction>, height: int) returns (ok: bool)
      modifies this
      ensures ok == BlockLog(old(table), txs, height).1
      ensures table == Replay(old(table), BlockLog(old(table), txs, height).0)
      ensures saved == Saved(old(saved), old(table), BlockLog(old(table), txs, height).0)
    {
      for k := 0 to |txs|
        invariant BlockLog(table, txs[k..], height).1 == BlockLog(old(table), txs, height).1
        invariant Replay(table, BlockLog(table, txs[k..], height).0)
               == Replay(old(table), BlockLog(old(table), txs, height).0)
        invariant Saved(saved, table, BlockLog(table, txs[k..], height).0)
               == Saved(old(saved), old(table), BlockLog(old(table), txs, height).0)
      {
        BlockStep(saved, table, txs, k, height);
        TransactionParts(saved, table, txs[k], height);
        var ok' := true;
        if !txs[k].isCoinbase {
          ok' := SpendInputs(txs[k].inputs);
        }
        if ok' {
          ok' := AddOutputs(txs[k], height);
        }
        if !ok' {
          return false;
        }
      }
      return true;
    }
  }

  lemma {:induction false} SpendAndCommit(saved: Utxos, u: Utxos, o: Outpoint)
    ensures Replay(u, [Spend(o), Commit]) == u - {o}
    ensures Saved(saved, u, [Spend(o), Commit]) == u - {o}
    ensures o in u ==> Legal(u, [Spend(o), Commit])
  {
    var log := [Spend(o), Commit];
    var v := After(u, log[0]);
    assert log[1..] == [Commit];
    assert Replay(v, [Commit]) == Replay(v, []) && Saved(saved, v, [Commit]) == Saved(v, v, []);
  }

  /** One turn of the loop over the inputs */
  lemma {:induction false} SpendsStep(saved: Utxos, u: Utxos, ins: seq<TxInput>, k: nat)
    requires k < |ins|
    ensures var o := SpentBy(ins[k]);
            if !FitsI64(ins[k].prevVout) || o !in u then Spends(u, ins[k..]) == ([], false)
            else
              && Spends(u, ins[k..]).1 == Spends(u - {o}, ins[k + 1..]).1
              && Replay(u, Spends(u, ins[k..]).0) == Replay(u - {o}, Spends(u - {o}, ins[k + 1..]).0)
              && Saved(saved, u, Spends(u, ins[k..]).0) == Saved(u - {o}, u - {o}, Spends(u - {o}, ins[k + 1..]).0)
  {
    var o := SpentBy(ins[k]);
    assert ins[k..][0] == ins[k] && ins[k..][1..] == ins[k + 1..];
    if FitsI64(ins[k].prevVout) && o in u {
      var rest := Spends(u - {o}, ins[k + 1..]).0;
      ReplayAppend(u, [Spend(o), Commit], rest);
      SavedAppend(saved, u, [Spend(o), Commit], rest);
      SpendAndCommit(saved, u, o);
    }
  }

  /** One turn of the loop over the transactions */
  lemma {:induction false} BlockStep(saved: Utxos, u: Utxos, txs: seq<Transaction>, k: nat, height: int)
    requires k < |txs|
    ensures var first := TransactionLog(u, txs[k], height); var v := Replay(u, first.0);
            if !first.1 then BlockLog(u, txs[k..], height) == first
            else
              && BlockLog(u, txs[k..], height).1 == BlockLog(v, txs[k + 1..], height).1
              && Replay(u, BlockLog(u, txs[k..], height).0) == Replay(v, BlockLog(v, txs[k + 1..], height).0)
              && Saved(saved, u, BlockLog(u, txs[k..], height).0)
                 == Saved(Saved(saved, u, first.0), v, BlockLog(v, txs[k + 1..], height).0)
  {
    var first := TransactionLog(u, txs[k], height);
    var v := Replay(u, first.0);
    assert txs[k..][0] == txs[k] && txs[k..][1..] == txs[k + 1..];
    if first.1 {
      ReplayAppend(u, first.0, BlockLog(v, txs[k + 1..], height).0);
      SavedAppend(saved, u, first.0, BlockLog(v, txs[k + 1..], height).0);
    }
  }

  /** Spending, then writing */
  lemma {:induction false} TransactionParts(saved: Utxos, u: Utxos, tx: Transaction, height: int)
    ensures var spends, log := InputSpends(u, tx), TransactionLog(u, tx, height);
            var v, writes := Replay(u, spends.0), Writes(tx.txid, height, tx.outputs, 0);
            if !spends.1 then log == spends
            else
              && log.1 == writes.1
              && Replay(u, log.0) == Replay(v, writes.0)
              && Saved(saved, u, log.0) == Saved(Saved(saved, u, spends.0), v, writes.0)
  {
    var spends := InputSpends(u, tx);
    ReplayAppend(u, spends.0, Writes(tx.txid, height, tx.outputs, 0).0);
    SavedAppend(saved, u, spends.0, Writes(tx.txid, height, tx.outputs, 0).0);
  }

  lemma {:induction false} WritesSave(saved: Utxos, u: Utxos, txid: seq<byte>, height: int, outs: seq<TxOutput>,
        from: nat)
    requires from <= |outs| && Writes(txid, height, outs, from).1
    ensures Saved(saved, u, Writes(txid, height, outs, from).0) == Replay(u, Writes(txid, height, outs, from).0)
    decreases |outs| - from
  {
    if from == |outs| {
      assert Saved(saved, u, [Commit]) == Saved(u, u, []) && Replay(u, [Commit]) == Replay(u, []);
    } else {
      WritesSave(saved, After(u, Write(Outpoint(txid, from), outs[from])), txid, height, outs, from + 1);
    }
  }

  /** Rows before one that does not fit stay pending. */
  lemma {:induction false} WritesPending(saved: Utxos, u: Utxos, txid: seq<byte>, height: int, outs: seq<TxOutput>,
        from: nat)
    requires from <= |outs| && !Writes(txid, height, outs, from).1
    ensures Saved(saved, u, Writes(txid, height, outs, from).0) == saved
    decreases |outs| - from
  {
    if from != |outs| && RowFits(from, outs[from].amount, height) {
      WritesPending(saved, After(u, Write(Outpoint(txid, from), outs[from])), txid, height, outs, from + 1);
    }
  }

  /** Each spend is committed at once, with all that was pending. */
  lemma {:induction false} SpendsSave(saved: Utxos, u: Utxos, ins: seq<TxInput>)
    ensures Saved(saved, u, Spends(u, ins).0) == if Spends(u, ins).0 == [] then saved else Replay(u, Spends(u, ins).0)
    decreases ins
  {
    if ins != [] && FitsI64(ins[0].prevVout) && SpentBy(ins[0]) in u {
      var v := u - {SpentBy(ins[0])};
      SpendsSave(v, v, ins[1..]);
      SpendsStep(saved, u, ins, 0);
      assert ins[0..] == ins && ins[0 + 1..] == ins[1..];
    }
  }

  /** What is committed after a transaction: all of it when it goes through, and its spends when it does not */
  lemma {:induction false} TransactionSaves(saved: Utxos, u: Utxos, tx: Transaction, height: int)
    ensures var log, spends := TransactionLog(u, tx, height), InputSpends(u, tx).0;
            Saved(saved, u, log.0)
            == if log.1 then Replay(u, log.0) else if spends == [] then saved else Replay(u, spends)
  {
    TransactionParts(saved, u, tx, height);
    SpendsSave(saved, u, tx.inputs);
    var s, v := Saved(saved, u, InputSpends(u, tx).0), Replay(u, InputSpends(u, tx).0);
    if TransactionLog(u, tx, height).1 {
      WritesSave(s, v, tx.txid, height, tx.outputs, 0);
    } else if InputSpends(u, tx).1 {
      WritesPending(s, v, tx.txid, height, tx.outputs, 0);
    }
  }

  /** Nothing is pending after a block that goes through. */
  lemma {:induction false} BlockSaves(saved: Utxos, u: Utxos, txs: seq<Transaction>, height: int)
    requires txs != [] && BlockLog(u, txs, height).1
    ensures Saved(saved, u, BlockLog(u, txs, height).0) == Replay(u, BlockLog(u, txs, height).0)
    decreases txs
  {
    var first := TransactionLog(u, txs[0], height);
    var v := Replay(u, first.0);
    TransactionParts(saved, u, txs[0], height);
    WritesSave(Saved(saved, u, InputSpends(u, txs[0]).0), Replay(u, InputSpends(u, txs[0]).0),
               txs[0].txid, height, txs[0].outputs, 0);
    BlockStep(saved, u, txs, 0, height);
    assert txs[0..] == txs && txs[0 + 1..] == txs[1..];
    if txs[1..] != [] {
      BlockSaves(v, v, txs[1..], height);
    }
  }

  // ----- No output is consumed more often than it was written -----

  /** Every deletion finds its row. */
  predicate Legal(u: Utxos, log: seq<Entry>)
    decreases log
  {
    log == [] || ((log[0].Spend? ==> log[0].outpoint in u) && Legal(After(u, log[0]), log[1..]))
  }

  lemma {:induction false} LegalAppend(u: Utxos, a: seq<Entry>, b: seq<Entry>)
    requires Legal(u, a) && Legal(Replay(u, a), b)
    ensures Legal(u, a + b)
    decreases a
  {
    if a == [] {
      assert a + b == b;
    } else {
      LegalAppend(After(u, a[0]), a[1..], b);
      assert (a + b)[1..] == a[1..] + b;
    }
  }

  lemma {:induction false} WritesLegal(u: Utxos, txid: seq<byte>, height: int, outs: seq<TxOutput>, from: nat)
    requires from <= |outs|
    ensures Legal(u, Writes(txid, height, outs, from).0)
    decreases |outs| - from
  {
    if from != |outs| {
      WritesLegal(After(u, Write(Outpoint(txid, from), outs[from])), txid, height, outs, from + 1);
    }
  }

  lemma {:induction false} SpendsLegal(u: Utxos, ins: seq<TxInput>)
    ensures Legal(u, Spends(u, ins).0)
  {
    if ins != [] && FitsI64(ins[0].prevVout) && SpentBy(ins[0]) in u {
      var v := u - {SpentBy(ins[0])};
      SpendsLegal(v, ins[1..]);
      SpendAndCommit(u, u, SpentBy(ins[0]));
      LegalAppend(u, [Spend(SpentBy(ins[0])), Commit], Spends(v, ins[1..]).0);
    }
  }

  lemma {:induction false} TransactionLegal(u: Utxos, tx: Transaction, height: int)
    ensures Legal(u, TransactionLog(u, tx, height).0)
  {
    var spends := InputSpends(u, tx);
    SpendsLegal(u, tx.inputs);
    assert Legal(u, spends.0);
    WritesLegal(Replay(u, spends.0), tx.txid, height, tx.outputs, 0);
    if spends.1 {
      LegalAppend(u, spends.0, Writes(tx.txid, height, tx.outputs, 0).0);
    }
  }

  lemma {:induction false} BlockLegal(u: Utxos, txs: seq<Transaction>, height: int)
    ensures Legal(u, BlockLog(u, txs, height).0)
    decreases txs
  {
    if txs != [] {
      var first := TransactionLog(u, txs[0], height);
      TransactionLegal(u, txs[0], height);
      if first.1 {
        BlockLegal(Replay(u, first.0), txs[1..], height);
        LegalAppend(u, first.0, BlockLog(Replay(u, first.0), txs[1..], height).0);
      }
    }
  }

  function Written(log: seq<Entry>, o: Outpoint): nat {
    if log == [] then 0 else (if log[0].Write? && log[0].outpoint == o then 1 else 0) + Written(log[1..], o)
  }

  function Spent(log: seq<Entry>, o: Outpoint): nat {
    if log == [] then 0 else (if log[0] == Spend(o) then 1 else 0) + Spent(log[1..], o)
  }

  /** The writes that replace a row still there */
  function Replaced(u: Utxos, log: seq<Entry>, o: Outpoint): nat
    decreases log
  {
    if log == [] then 0
    else (if log[0].Write? && log[0].outpoint == o && o in u then 1 else 0) + Replaced(After(u, log[0]), log[1..], o)
  }

  function Present(u: Utxos, o: Outpoint): nat {
    if o in u then 1 else 0
  }

  /** Every row that was there or was written was consumed, was replaced, or is there. */
  lemma {:induction false} RowsConserved(u: Utxos, log: seq<Entry>, o: Outpoint)
    requires Legal(u, log)
    ensures Present(u, o) + Written(log, o) == Spent(log, o) + Replaced(u, log, o) + Present(Replay(u, log), o)
    decreases log
  {
    if log != [] {
      RowsConserved(After(u, log[0]), log[1..], o);
    }
  }

  // ----- Value -----

  ghost function AmountIn(u: Utxos): Outpoint -> int {
    o => if o in u then u[o].amount else 0
  }

  /** SUM(value_satoshis) */
  ghost function Total(u: Utxos): int {
    Sum(AmountIn(u), u.Keys)
  }

  /** The value of the row of an outpoint, zero without one */
  function ValueAt(u: Utxos, o: Outpoint): int {
    if o in u then u[o].amount else 0
  }

  lemma TotalWithout(u: Utxos, o: Outpoint)
    ensures Total(u - {o}) == Total(u) - ValueAt(u, o)
  {
    var v := u - {o};
    assert v.Keys == u.Keys - {o};
    SumCong(AmountIn(v), AmountIn(u), v.Keys);
    if o in u {
      SumRemove(AmountIn(u), u.Keys, o);
    } else {
      assert v == u;
    }
  }

  lemma TotalWith(u: Utxos, o: Outpoint, output: TxOutput)
    ensures Total(u[o := output]) == Total(u) - ValueAt(u, o) + output.amount
  {
    var v := u[o := output];
    TotalWithout(u, o);
    TotalWithout(v, o);
    assert v - {o} == u - {o};
  }

  function WrittenValue(log: seq<Entry>): int {
    if log == [] then 0 else (if log[0].Write? then log[0].output.amount else 0) + WrittenValue(log[1..])
  }

  /** The value of the rows that are deleted, at the time they are */
  function SpentValue(u: Utxos, log: seq<Entry>): int
    decreases log
  {
    if log == [] then 0
    else (if log[0].Spend? then ValueAt(u, log[0].outpoint) else 0) + SpentValue(After(u, log[0]), log[1..])
  }

  function ReplacedValue(u: Utxos, log: seq<Entry>): int
    decreases log
  {
    if log == [] then 0
    else (if log[0].Write? then ValueAt(u, log[0].outpoint) else 0) + ReplacedValue(After(u, log[0]), log[1..])
  }

  /** Value is conserved: what was there or written is spent, replaced, or there. */
  lemma {:induction false} ValueConserved(u: Utxos, log: seq<Entry>)
    ensures Total(u) + WrittenValue(log) == SpentValue(u, log) + ReplacedValue(u, log) + Total(Replay(u, log))
    decreases log
  {
    if log != [] {
      ValueConserved(After(u, log[0]), log[1..]);
      match log[0]
      case Write(o, output) => TotalWith(u, o, output);
      case Spend(o) => TotalWithout(u, o);
      case Commit =>
    }
  }
}
