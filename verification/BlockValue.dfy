/** What a block adds to the value of the unspent outputs, exactly: nothing in the validation of a block bounds it. */
module BlockValue {
  import opened Bytes
  import opened Transactions
  import opened Utxo
  import opened BlockEffect
  import opened Chain
  import opened ChainRuns
  import opened Wrappers

  /** What each outpoint holds */
  type Content = Outpoint -> Option<TxOutput>

  function Worth(x: Option<TxOutput>): int {
    if x.Some? then x.value.amount else 0
  }

  function Rows(u: Utxos): Content {
    o => RowAt(u, o)
  }

  /** Before transaction k of a block */
  function Before(u: Utxos, txs: seq<Transaction>, k: nat): Content
    requires k <= |txs|
  {
    o => ContentAfter(u, txs, k, o)
  }

  /** The value of the outputs that inputs refer to */
  function InputsWorth(ins: seq<TxInput>, held: Content): int {
    if ins == [] then 0 else Worth(held(SpentBy(ins[0]))) + InputsWorth(ins[1..], held)
  }

  /** The value of the rows that n outputs, from one on, are written over */
  function RowsWorth(held: Content, txid: seq<byte>, from: nat, n: nat): int
    decreases n
  {
    if n == 0 then 0 else Worth(held(Outpoint(txid, from))) + RowsWorth(held, txid, from + 1, n - 1)
  }

  /** Once the inputs of a transaction are spent */
  function AfterInputs(tx: Transaction, held: Content): Content {
    o => if ConsumedBy(tx, o) then None else held(o)
  }

  /** What a transaction creates: its outputs less what it consumes and what it replaces */
  function Added(tx: Transaction, held: Content): int {
    OutputTotal(tx.outputs)
    - (if tx.isCoinbase then 0 else InputsWorth(tx.inputs, held))
    - RowsWorth(AfterInputs(tx, held), tx.txid, 0, |tx.outputs|)
  }

  /** What the first k transactions create */
  function Created(u: Utxos, txs: seq<Transaction>, k: nat): int
    requires k <= |txs|
  {
    if k == 0 then 0 else Created(u, txs, k - 1) + Added(txs[k - 1], Before(u, txs, k - 1))
  }

  // ----- Contents that agree -----

  lemma {:induction false} InputsCong(ins: seq<TxInput>, held: Content, other: Content)
    requires forall j {:trigger ins[j]} :: 0 <= j < |ins| ==> held(SpentBy(ins[j])) == other(SpentBy(ins[j]))
    ensures InputsWorth(ins, held) == InputsWorth(ins, other)
    decreases ins
  {
    if ins != [] {
      InputsCong(ins[1..], held, other);
    }
  }

  lemma {:induction false} RowsCong(held: Content, other: Content, txid: seq<byte>, from: nat, n: nat)
    requires forall i :: from <= i < from + n ==> held(Outpoint(txid, i)) == other(Outpoint(txid, i))
    ensures RowsWorth(held, txid, from, n) == RowsWorth(other, txid, from, n)
    decreases n
  {
    if n != 0 {
      RowsCong(held, other, txid, from + 1, n - 1);
    }
  }

  lemma AddedCong(tx: Transaction, held: Content, other: Content)
    requires forall o :: held(o) == other(o)
    ensures Added(tx, held) == Added(tx, other)
  {
    InputsCong(tx.inputs, held, other);
    RowsCong(AfterInputs(tx, held), AfterInputs(tx, other), tx.txid, 0, |tx.outputs|);
  }

  // ----- One transaction -----

  lemma {:induction false} CountedAreThere(u: Utxos, ins: seq<TxInput>)
    ensures forall j {:trigger ins[j]} :: 0 <= j < SpendCount(u, ins) ==> SpentBy(ins[j]) in u
    decreases ins
  {
    if ins != [] && FitsI64(ins[0].prevVout) && SpentBy(ins[0]) in u {
      var v, rest := u - {SpentBy(ins[0])}, ins[1..];
      CountedAreThere(v, rest);
      forall j {:trigger ins[j]} | 1 <= j < SpendCount(u, ins)
        ensures SpentBy(ins[j]) in u
      {
        assert rest[j - 1] == ins[j];
      }
    }
  }

  /** The counted inputs after the first, valued with and without the row of the first */
  lemma {:induction false} RestWorth(u: Utxos, ins: seq<TxInput>)
    requires ins != [] && FitsI64(ins[0].prevVout) && SpentBy(ins[0]) in u
    ensures var v := u - {SpentBy(ins[0])};
            InputsWorth(ins[..SpendCount(u, ins)], Rows(u))
            == ValueAt(u, SpentBy(ins[0])) + InputsWorth(ins[1..][..SpendCount(v, ins[1..])], Rows(v))
  {
    var v, n, rest := u - {SpentBy(ins[0])}, SpendCount(u, ins), ins[1..];
    CountedAreThere(v, rest);
    assert ins[..n][1..] == rest[..n - 1];
    forall j {:trigger rest[..n - 1][j]} | 0 <= j < n - 1
      ensures Rows(u)(SpentBy(rest[..n - 1][j])) == Rows(v)(SpentBy(rest[..n - 1][j]))
    {
      assert rest[..n - 1][j] == rest[j];
    }
    InputsCong(rest[..n - 1], Rows(u), Rows(v));
  }

  lemma {:induction false} FirstSpend(u: Utxos, ins: seq<TxInput>)
    requires ins != [] && FitsI64(ins[0].prevVout) && SpentBy(ins[0]) in u
    ensures var v := u - {SpentBy(ins[0])};
            && Replay(u, Spends(u, ins).0) == Replay(v, Spends(v, ins[1..]).0)
            && Total(v) == Total(u) - ValueAt(u, SpentBy(ins[0]))
  {
    TotalWithout(u, SpentBy(ins[0]));
    SpendsStep(u, u, ins, 0);
    assert ins[0..] == ins && ins[0 + 1..] == ins[1..];
  }

  lemma {:induction false} SpendsTake(u: Utxos, ins: seq<TxInput>)
    ensures Total(Replay(u, Spends(u, ins).0)) == Total(u) - InputsWorth(ins[..SpendCount(u, ins)], Rows(u))
    decreases ins
  {
    if ins != [] && FitsI64(ins[0].prevVout) && SpentBy(ins[0]) in u {
      SpendsTake(u - {SpentBy(ins[0])}, ins[1..]);
      RestWorth(u, ins);
      FirstSpend(u, ins);
    } else {
      assert ins[..0] == [];
    }
  }

  /** The first of n outputs, and the others with its row in place */
  lemma {:induction false} FirstWrite(u: Utxos, txid: seq<byte>, outs: seq<TxOutput>, from: nat, n: nat)
    requires 1 <= n && from + n <= |outs|
    ensures var v := u[Outpoint(txid, from) := outs[from]];
            Total(v) + OutputTotal(outs[from + 1..from + 1 + (n - 1)]) - RowsWorth(Rows(v), txid, from + 1, n - 1)
            == Total(u) + OutputTotal(outs[from..from + n]) - RowsWorth(Rows(u), txid, from, n)
  {
    var o, v := Outpoint(txid, from), u[Outpoint(txid, from) := outs[from]];
    TotalWith(u, o, outs[from]);
    RowsCong(Rows(v), Rows(u), txid, from + 1, n - 1);
    assert outs[from..from + n][1..] == outs[from + 1..from + n];
  }

  lemma {:induction false} WriteNone(u: Utxos, txid: seq<byte>, height: int, outs: seq<TxOutput>, from: nat)
    requires from <= |outs| && WriteCount(outs, height, from) == 0
    ensures Replay(u, Writes(txid, height, outs, from).0) == u
  {
    assert Replay(u, [Commit]) == Replay(u, []);
  }

  lemma {:induction false} WriteOne(u: Utxos, txid: seq<byte>, height: int, outs: seq<TxOutput>, from: nat)
    requires from <= |outs| && WriteCount(outs, height, from) != 0
    ensures WriteCount(outs, height, from) == 1 + WriteCount(outs, height, from + 1)
    ensures Replay(u, Writes(txid, height, outs, from).0)
         == Replay(u[Outpoint(txid, from) := outs[from]], Writes(txid, height, outs, from + 1).0)
  {
    var o, rest := Outpoint(txid, from), Writes(txid, height, outs, from + 1).0;
    assert ([Write(o, outs[from])] + rest)[1..] == rest;
  }

  lemma {:induction false} WritesGive(u: Utxos, txid: seq<byte>, height: int, outs: seq<TxOutput>, from: nat,
        n: nat)
    requires from <= |outs| && n == WriteCount(outs, height, from)
    ensures Total(Replay(u, Writes(txid, height, outs, from).0))
         == Total(u) + OutputTotal(outs[from..from + n]) - RowsWorth(Rows(u), txid, from, n)
    decreases |outs| - from
  {
    if n == 0 {
      assert outs[from..from + n] == [];
      WriteNone(u, txid, height, outs, from);
    } else {
      WriteOne(u, txid, height, outs, from);
      WritesGive(u[Outpoint(txid, from) := outs[from]], txid, height, outs, from + 1, n - 1);
      FirstWrite(u, txid, outs, from, n);
    }
  }

  /** A transaction changes the value of the table by what the part of it that is done creates. */
  lemma {:induction false} TransactionAdds(u: Utxos, tx: Transaction, height: int)
    ensures Total(Replay(u, TransactionLog(u, tx, height).0)) == Total(u) + Added(Done(u, tx, height), Rows(u))
  {
    var d, v := Done(u, tx, height), Replay(u, InputSpends(u, tx).0);
    TransactionParts(u, u, tx, height);
    SpendsTake(u, tx.inputs);
    WritesGive(v, tx.txid, height, tx.outputs, 0, WriteCount(tx.outputs, height, 0));
    AfterInputsAreRows(u, tx, height);
    RowsCong(AfterInputs(d, Rows(u)), Rows(v), tx.txid, 0, |d.outputs|);
    SpendsEffect(u, tx.inputs, Outpoint([], 0));
  }

  lemma {:induction false} AfterInputsAreRows(u: Utxos, tx: Transaction, height: int)
    ensures forall o :: AfterInputs(Done(u, tx, height), Rows(u))(o) == Rows(Replay(u, InputSpends(u, tx).0))(o)
  {
    forall o
      ensures AfterInputs(Done(u, tx, height), Rows(u))(o) == Rows(Replay(u, InputSpends(u, tx).0))(o)
    {
      SpendsEffect(u, tx.inputs, o);
    }
  }

  /** When it goes through, that is what the transaction creates. */
  lemma DoneAdds(u: Utxos, tx: Transaction, height: int)
    requires TransactionLog(u, tx, height).1
    ensures Added(Done(u, tx, height), Rows(u)) == Added(tx, Rows(u))
  {
    var d := Done(u, tx, height);
    SpendsEffect(u, tx.inputs, Outpoint([], 0));
    TransactionParts(u, u, tx, height);
    WritesEffect(u, tx.txid, height, tx.outputs, 0, Outpoint([], 0));
    assert d.outputs == tx.outputs;
    if tx.isCoinbase {
      RowsCong(AfterInputs(d, Rows(u)), AfterInputs(tx, Rows(u)), tx.txid, 0, |tx.outputs|);
    } else {
      assert d == tx;
    }
  }

  // ----- A block -----

  lemma {:induction false} CreatedShift(u: Utxos, v: Utxos, txs: seq<Transaction>, k: nat)
    requires 1 <= k <= |txs| && forall o :: RowAt(v, o) == ContentThrough(txs[0], o, RowAt(u, o))
    ensures Created(u, txs, k) == Added(txs[0], Rows(u)) + Created(v, txs[1..], k - 1)
  {
    if k == 1 {
      AddedCong(txs[0], Before(u, txs, 0), Rows(u));
      assert Created(u, txs, 0) == 0;
    } else {
      CreatedShift(u, v, txs, k - 1);
      var held, other := Before(u, txs, k - 1), Before(v, txs[1..], k - 2);
      forall o
        ensures held(o) == other(o)
      {
        ContentShift(u, v, txs, k - 1, o);
      }
      AddedCong(txs[k - 1], held, other);
    }
  }

  lemma {:induction false} RowsThrough(u: Utxos, tx: Transaction, height: int)
    requires TransactionLog(u, tx, height).1
    ensures forall o :: RowAt(Replay(u, TransactionLog(u, tx, height).0), o) == ContentThrough(tx, o, RowAt(u, o))
  {
    forall o
      ensures RowAt(Replay(u, TransactionLog(u, tx, height).0), o) == ContentThrough(tx, o, RowAt(u, o))
    {
      TransactionEffect(u, tx, height, o);
    }
  }

  /** When the first transaction goes through, the block creates what it does and what the rest does after it. */
  lemma {:induction false} FirstAdds(u: Utxos, txs: seq<Transaction>, height: int)
    requires txs != [] && TransactionLog(u, txs[0], height).1
    ensures var v, ts := Replay(u, TransactionLog(u, txs[0], height).0), DoneBlock(u, txs, height);
            var rest := DoneBlock(v, txs[1..], height);
            && Replay(u, BlockLog(u, txs, height).0) == Replay(v, BlockLog(v, txs[1..], height).0)
            && Created(u, ts, |ts|) == Added(txs[0], Rows(u)) + Created(v, rest, |rest|)
  {
    var v, ts := Replay(u, TransactionLog(u, txs[0], height).0), DoneBlock(u, txs, height);
    BlockStep(u, u, txs, 0, height);
    assert txs[0..] == txs && txs[0 + 1..] == txs[1..];
    RowsThrough(u, txs[0], height);
    assert ts[1..] == DoneBlock(v, txs[1..], height);
    CreatedShift(u, v, ts, |ts|);
  }

  lemma {:induction false} PartAdds(u: Utxos, tx: Transaction)
    ensures Created(u, [tx], 1) == Added(tx, Rows(u))
  {
    AddedCong(tx, Before(u, [tx], 0), Rows(u));
    assert Created(u, [tx], 0) == 0;
  }

  /** Every block, whether or not it goes through, changes the value of the table by exactly what the part that is
      done creates. */
  lemma {:induction false} BlockAdds(u: Utxos, txs: seq<Transaction>, height: int)
    ensures var ts := DoneBlock(u, txs, height);
            Total(Replay(u, BlockLog(u, txs, height).0)) == Total(u) + Created(u, ts, |ts|)
    decreases txs
  {
    if txs != [] {
      TransactionAdds(u, txs[0], height);
      if TransactionLog(u, txs[0], height).1 {
        BlockAdds(Replay(u, TransactionLog(u, txs[0], height).0), txs[1..], height);
        FirstAdds(u, txs, height);
        DoneAdds(u, txs[0], height);
      } else {
        PartAdds(u, Done(u, txs[0], height));
      }
    }
  }

  lemma {:induction false} WholeBlockDone(u: Utxos, txs: seq<Transaction>, height: int)
    requires BlockLog(u, txs, height).1
    ensures DoneBlock(u, txs, height) == txs
    decreases txs
  {
    if txs != [] {
      WholeBlockDone(Replay(u, TransactionLog(u, txs[0], height).0), txs[1..], height);
    }
  }

  /** An accepted block adds exactly what its transactions create, their outputs less the values consumed and
      replaced: so it keeps to an allowance, such as the reward of its height, exactly when that difference does. */
  lemma {:induction false} AcceptedAdds(s: State, row: Row, txs: seq<Transaction>, allowance: int)
    requires IsAccepted(s, Passed(row, txs))
    ensures var t := Next(s, Passed(row, txs));
            && Total(t.utxos) == Total(s.utxos) + Created(s.utxos, txs, |txs|)
            && (Total(t.utxos) <= Total(s.utxos) + allowance <==> Created(s.utxos, txs, |txs|) <= allowance)
  {
    BlockAdds(s.utxos, txs, row.height);
    WholeBlockDone(s.utxos, txs, row.height);
  }

  /** What the blocks of a run create, as far as they are done */
  function CreatedIn(s: State, verdicts: seq<Verdict>): int
    decreases verdicts
  {
    if verdicts == [] then 0
    else
      (match verdicts[0]
       case Passed(row, txs) =>
         var ts := DoneBlock(s.utxos, txs, row.height);
         Created(s.utxos, ts, |ts|)
       case _ => 0)
      + CreatedIn(Next(s, verdicts[0]), verdicts[1..])
  }

  /** The supply after every run, rejected blocks included, with no premise on the blocks */
  lemma {:induction false} SupplyExactly(s: State, verdicts: seq<Verdict>)
    ensures Total(Run(s, verdicts).utxos) == Total(s.utxos) + CreatedIn(s, verdicts)
    decreases verdicts
  {
    if verdicts != [] {
      if verdicts[0].Passed? {
        BlockAdds(s.utxos, verdicts[0].txs, verdicts[0].row.height);
      }
      SupplyExactly(Next(s, verdicts[0]), verdicts[1..]);
    }
  }
}
