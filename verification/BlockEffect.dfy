/** What applying a block does to the table of unspent outputs, outpoint by outpoint: when it goes through, and
    what is left when it does not. */
module BlockEffect {
  import opened Bytes
  import opened Transactions
  import opened Utxo
  import opened Wrappers

  /** The row of an outpoint */
  function RowAt(u: Utxos, o: Outpoint): Option<TxOutput> {
    if o in u then Some(u[o]) else None
  }

  predicate Consumes(ins: seq<TxInput>, o: Outpoint) {
    exists j :: 0 <= j < |ins| && SpentBy(ins[j]) == o
  }

  predicate ConsumedBy(tx: Transaction, o: Outpoint) {
    !tx.isCoinbase && Consumes(tx.inputs, o)
  }

  predicate CreatedBy(tx: Transaction, o: Outpoint) {
    o.txid == tx.txid && 0 <= o.vout < |tx.outputs|
  }

  // ----- The declarative account -----

  /** What an outpoint holds after a transaction, given what it held before */
  function ContentThrough(tx: Transaction, o: Outpoint, before: Option<TxOutput>): Option<TxOutput> {
    if CreatedBy(tx, o) then Some(tx.outputs[o.vout])
    else if ConsumedBy(tx, o) then None
    else before
  }

  /** What an outpoint holds after the first k transactions: what the last of them that creates or consumes it
      says, or what the table does. */
  function ContentAfter(u: Utxos, txs: seq<Transaction>, k: nat, o: Outpoint): Option<TxOutput>
    requires k <= |txs|
  {
    if k == 0 then RowAt(u, o) else ContentThrough(txs[k - 1], o, ContentAfter(u, txs, k - 1, o))
  }

  predicate OutputsFit(outs: seq<TxOutput>, height: int) {
    forall i {:trigger outs[i]} :: 0 <= i < |outs| ==> RowFits(i, outs[i].amount, height)
  }

  predicate DistinctInputs(ins: seq<TxInput>) {
    forall i, j :: 0 <= i < j < |ins| ==> SpentBy(ins[i]) != SpentBy(ins[j])
  }

  /** At its turn every input of a transaction refers to an unspent output. */
  predicate InputsUnspent(u: Utxos, txs: seq<Transaction>, k: nat)
    requires k < |txs|
  {
    forall j {:trigger txs[k].inputs[j]} :: 0 <= j < |txs[k].inputs| ==>
      && FitsI64(txs[k].inputs[j].prevVout)
      && ContentAfter(u, txs, k, SpentBy(txs[k].inputs[j])).Some?
  }

  /** A transaction that goes through at its turn */
  predicate AppliesAt(u: Utxos, txs: seq<Transaction>, k: nat, height: int)
    requires k < |txs|
  {
    && OutputsFit(txs[k].outputs, height)
    && (txs[k].isCoinbase || (DistinctInputs(txs[k].inputs) && InputsUnspent(u, txs, k)))
  }

  /** Every input is unspent at its turn, none is used twice in a transaction, and every output fits its row. */
  predicate Applicable(u: Utxos, txs: seq<Transaction>, height: int) {
    forall k {:trigger AppliesAt(u, txs, k, height)} :: 0 <= k < |txs| ==> AppliesAt(u, txs, k, height)
  }

  // ----- One transaction, all of it or a part -----

  /** The number of inputs that are spent before one is missing */
  function SpendCount(u: Utxos, ins: seq<TxInput>): (n: nat)
    ensures n <= |ins|
  {
    if ins == [] || !FitsI64(ins[0].prevVout) || SpentBy(ins[0]) !in u then 0
    else 1 + SpendCount(u - {SpentBy(ins[0])}, ins[1..])
  }

  /** The number of outputs from one on that are written before one does not fit */
  function WriteCount(outs: seq<TxOutput>, height: int, from: nat): (n: nat)
    requires from <= |outs|
    ensures from + n <= |outs|
    decreases |outs| - from
  {
    if from == |outs| || !RowFits(from, outs[from].amount, height) then 0
    else 1 + WriteCount(outs, height, from + 1)
  }

  /** The part of a transaction that is done before it raises; all of it when it does not */
  function Done(u: Utxos, tx: Transaction, height: int): Transaction {
    var inputs := tx.inputs[..SpendCount(u, tx.inputs)];
    var ready := tx.isCoinbase || |inputs| == |tx.inputs|;
    tx.(inputs := inputs, outputs := if ready then tx.outputs[..WriteCount(tx.outputs, height, 0)] else [])
  }

  /** Unspent, and no two the same */
  predicate Available(u: Utxos, ins: seq<TxInput>) {
    && (forall j {:trigger ins[j]} :: 0 <= j < |ins| ==> FitsI64(ins[j].prevVout) && SpentBy(ins[j]) in u)
    && DistinctInputs(ins)
  }

  lemma AvailableRest(u: Utxos, ins: seq<TxInput>)
    requires ins != [] && FitsI64(ins[0].prevVout) && SpentBy(ins[0]) in u
    ensures Available(u, ins) <==> Available(u - {SpentBy(ins[0])}, ins[1..])
  {
    var v, rest := u - {SpentBy(ins[0])}, ins[1..];
    if Available(u, ins) {
      assert forall j {:trigger rest[j]} :: 0 <= j < |rest| ==> rest[j] == ins[j + 1];
    }
    if Available(v, rest) {
      assert forall j {:trigger ins[j]} :: 1 <= j < |ins| ==> ins[j] == rest[j - 1];
    }
  }

  lemma ConsumesFirst(ins: seq<TxInput>, n: nat, o: Outpoint)
    requires ins != [] && n < |ins|
    ensures Consumes(ins[..n + 1], o) <==> SpentBy(ins[0]) == o || Consumes(ins[1..][..n], o)
  {
    var all, rest := ins[..n + 1], ins[1..][..n];
    assert all[0] == ins[0];
    assert forall j :: 0 <= j < n ==> rest[j] == all[j + 1];
    if Consumes(all, o) && SpentBy(ins[0]) != o {
      var j :| 0 <= j < |all| && SpentBy(all[j]) == o;
      assert SpentBy(rest[j - 1]) == o;
    }
    if Consumes(rest, o) {
      var j :| 0 <= j < |rest| && SpentBy(rest[j]) == o;
      assert SpentBy(all[j + 1]) == o;
    }
  }

  /** The inputs counted are gone, and no other row changes. */
  lemma {:induction false} SpendsEffect(u: Utxos, ins: seq<TxInput>, o: Outpoint)
    ensures Spends(u, ins).1 <==> Available(u, ins)
    ensures Spends(u, ins).1 <==> SpendCount(u, ins) == |ins|
    ensures RowAt(Replay(u, Spends(u, ins).0), o)
         == if Consumes(ins[..SpendCount(u, ins)], o) then None else RowAt(u, o)
    decreases ins
  {
    if ins != [] && FitsI64(ins[0].prevVout) && SpentBy(ins[0]) in u {
      var v := u - {SpentBy(ins[0])};
      SpendsEffect(v, ins[1..], o);
      AvailableRest(u, ins);
      SpendsStep(u, u, ins, 0);
      assert ins[0..] == ins && ins[0 + 1..] == ins[1..];
      ConsumesFirst(ins, SpendCount(v, ins[1..]), o);
    }
  }

  lemma {:induction false} WriteCountFits(outs: seq<TxOutput>, height: int, from: nat)
    requires from <= |outs|
    ensures from + WriteCount(outs, height, from) == |outs| <==>
            forall i {:trigger outs[i]} :: from <= i < |outs| ==> RowFits(i, outs[i].amount, height)
    decreases |outs| - from
  {
    if from != |outs| {
      WriteCountFits(outs, height, from + 1);
    }
  }

  /** The outputs counted are there under their indices, and no other row changes. */
  lemma {:induction false} WritesEffect(u: Utxos, txid: seq<byte>, height: int, outs: seq<TxOutput>, from: nat,
        o: Outpoint)
    requires from <= |outs|
    ensures Writes(txid, height, outs, from).1 <==> from + WriteCount(outs, height, from) == |outs|
    ensures RowAt(Replay(u, Writes(txid, height, outs, from).0), o)
         == if o.txid == txid && from <= o.vout < from + WriteCount(outs, height, from) then Some(outs[o.vout])
            else RowAt(u, o)
    decreases |outs| - from
  {
    if from == |outs| {
      assert Replay(u, [Commit]) == u;
    } else if RowFits(from, outs[from].amount, height) {
      WritesEffect(After(u, Write(Outpoint(txid, from), outs[from])), txid, height, outs, from + 1, o);
    }
  }

  /** A transaction goes through exactly when its inputs are available, unless it is a coinbase, and its outputs
      fit. Whether or not it does, every outpoint holds what the part that was done says. */
  lemma {:induction false} TransactionEffect(u: Utxos, tx: Transaction, height: int, o: Outpoint)
    ensures TransactionLog(u, tx, height).1 <==>
            (tx.isCoinbase || Available(u, tx.inputs)) && OutputsFit(tx.outputs, height)
    ensures TransactionLog(u, tx, height).1 ==> ContentThrough(Done(u, tx, height), o, RowAt(u, o))
                                                == ContentThrough(tx, o, RowAt(u, o))
    ensures RowAt(Replay(u, TransactionLog(u, tx, height).0), o)
         == ContentThrough(Done(u, tx, height), o, RowAt(u, o))
  {
    var v := Replay(u, InputSpends(u, tx).0);
    TransactionParts(u, u, tx, height);
    SpendsEffect(u, tx.inputs, o);
    WritesEffect(v, tx.txid, height, tx.outputs, 0, o);
    WriteCountFits(tx.outputs, height, 0);
    assert tx.inputs[..|tx.inputs|] == tx.inputs;
  }

  // ----- A block -----

  /** The transactions of a block that are done, the last of them perhaps in part */
  function DoneBlock(u: Utxos, txs: seq<Transaction>, height: int): (ts: seq<Transaction>)
    ensures |ts| <= |txs|
    decreases txs
  {
    if txs == [] then []
    else if !TransactionLog(u, txs[0], height).1 then [Done(u, txs[0], height)]
    else [txs[0]] + DoneBlock(Replay(u, TransactionLog(u, txs[0], height).0), txs[1..], height)
  }

  /** The account can start after the first transaction. */
  lemma {:induction false} ContentShift(u: Utxos, v: Utxos, txs: seq<Transaction>, k: nat, o: Outpoint)
    requires 1 <= k <= |txs|
    requires RowAt(v, o) == ContentThrough(txs[0], o, RowAt(u, o))
    ensures ContentAfter(u, txs, k, o) == ContentAfter(v, txs[1..], k - 1, o)
  {
    if k == 1 {
      assert ContentAfter(u, txs, 0, o) == RowAt(u, o);
    } else {
      ContentShift(u, v, txs, k - 1, o);
    }
  }

  /** After a block, whether or not it went through, every outpoint holds what the account of the part that was
      done says. */
  lemma {:induction false} BlockContent(u: Utxos, txs: seq<Transaction>, height: int, o: Outpoint)
    ensures var ts := DoneBlock(u, txs, height);
            RowAt(Replay(u, BlockLog(u, txs, height).0), o) == ContentAfter(u, ts, |ts|, o)
    decreases txs
  {
    if txs != [] {
      var first := TransactionLog(u, txs[0], height);
      var v, ts := Replay(u, first.0), DoneBlock(u, txs, height);
      TransactionEffect(u, txs[0], height, o);
      BlockStep(u, u, txs, 0, height);
      assert txs[0..] == txs && txs[0 + 1..] == txs[1..];
      ContentShift(u, v, ts, |ts|, o);
      if first.1 {
        BlockContent(v, txs[1..], height, o);
        assert ts[1..] == DoneBlock(v, txs[1..], height);
      } else {
        assert ts[1..] == [];
      }
    }
  }

  lemma {:induction false} AppliesShift(u: Utxos, v: Utxos, txs: seq<Transaction>, k: nat, height: int)
    requires 1 <= k < |txs|
    requires forall o :: RowAt(v, o) == ContentThrough(txs[0], o, RowAt(u, o))
    ensures AppliesAt(u, txs, k, height) <==> AppliesAt(v, txs[1..], k - 1, height)
  {
    assert txs[1..][k - 1] == txs[k];
    forall j | 0 <= j < |txs[k].inputs|
      ensures ContentAfter(u, txs, k, SpentBy(txs[k].inputs[j]))
           == ContentAfter(v, txs[1..], k - 1, SpentBy(txs[k].inputs[j]))
    {
      ContentShift(u, v, txs, k, SpentBy(txs[k].inputs[j]));
    }
  }

  lemma AppliesFirst(u: Utxos, txs: seq<Transaction>, height: int)
    requires txs != []
    ensures AppliesAt(u, txs, 0, height) <==> TransactionLog(u, txs[0], height).1
  {
    TransactionEffect(u, txs[0], height, Outpoint([], 0));
    if txs[0].isCoinbase {
    } else if Available(u, txs[0].inputs) {
      assert InputsUnspent(u, txs, 0);
    } else if InputsUnspent(u, txs, 0) {
      assert forall j {:trigger txs[0].inputs[j]} :: 0 <= j < |txs[0].inputs| ==>
          ContentAfter(u, txs, 0, SpentBy(txs[0].inputs[j])).Some?;
    }
  }

  /** A block goes through exactly when it is applicable. */
  lemma {:induction false} BlockAppliesExactly(u: Utxos, txs: seq<Transaction>, height: int)
    ensures BlockLog(u, txs, height).1 <==> Applicable(u, txs, height)
    decreases txs
  {
    if txs != [] {
      var first := TransactionLog(u, txs[0], height);
      var v, rest := Replay(u, first.0), txs[1..];
      AppliesFirst(u, txs, height);
      if first.1 {
        forall o
          ensures RowAt(v, o) == ContentThrough(txs[0], o, RowAt(u, o))
        {
          TransactionEffect(u, txs[0], height, o);
        }
        BlockAppliesExactly(v, rest, height);
        forall k | 1 <= k < |txs|
          ensures AppliesAt(u, txs, k, height) <==> AppliesAt(v, rest, k - 1, height)
        {
          AppliesShift(u, v, txs, k, height);
        }
        ApplicableSplits(u, v, txs, height);
      } else {
        assert !AppliesAt(u, txs, 0, height);
      }
    }
  }

  lemma ApplicableSplits(u: Utxos, v: Utxos, txs: seq<Transaction>, height: int)
    requires txs != []
    requires AppliesAt(u, txs, 0, height)
    requires forall k :: 1 <= k < |txs| ==> (AppliesAt(u, txs, k, height) <==> AppliesAt(v, txs[1..], k - 1, height))
    ensures Applicable(u, txs, height) <==> Applicable(v, txs[1..], height)
  {
    var rest := txs[1..];
    if Applicable(v, rest, height) {
      forall k | 1 <= k < |txs|
        ensures AppliesAt(u, txs, k, height)
      {
        assert AppliesAt(v, rest, k - 1, height);
      }
    }
    if Applicable(u, txs, height) {
      forall k | 0 <= k < |rest|
        ensures AppliesAt(v, rest, k, height)
      {
        assert AppliesAt(u, txs, k + 1, height);
      }
    }
  }

  // ----- When a block that does not go through leaves the table as it was -----

  predicate Touches(txs: seq<Transaction>, o: Outpoint) {
    exists i {:trigger txs[i]} :: 0 <= i < |txs| && (CreatedBy(txs[i], o) || ConsumedBy(txs[i], o))
  }

  /** Every outpoint that is created or consumed ends up holding what it held: consumed again, written back, or
      replaced by its like. */
  ghost predicate LeavesNoTrace(u: Utxos, txs: seq<Transaction>) {
    forall o :: Touches(txs, o) ==> ContentAfter(u, txs, |txs|, o) == RowAt(u, o)
  }

  lemma {:induction false} Untouched(u: Utxos, txs: seq<Transaction>, k: nat, o: Outpoint)
    requires k <= |txs| && !Touches(txs, o)
    ensures ContentAfter(u, txs, k, o) == RowAt(u, o)
  {
    if k != 0 {
      Untouched(u, txs, k - 1, o);
      var tx := txs[k - 1];
    }
  }

  lemma SameRows(u: Utxos, v: Utxos)
    requires forall o :: RowAt(u, o) == RowAt(v, o)
    ensures u == v
  {
    assert forall o :: o in u <==> o in v by {
      forall o
        ensures o in u <==> o in v
      {
        assert RowAt(u, o) == RowAt(v, o);
      }
    }
    forall o | o in u
      ensures u[o] == v[o]
    {
      assert RowAt(u, o) == RowAt(v, o);
    }
  }

  /** The table is as it was exactly when the part that was done leaves no trace. */
  lemma {:induction false} UnchangedExactly(u: Utxos, txs: seq<Transaction>, height: int)
    ensures Replay(u, BlockLog(u, txs, height).0) == u <==> LeavesNoTrace(u, DoneBlock(u, txs, height))
  {
    var v, ts := Replay(u, BlockLog(u, txs, height).0), DoneBlock(u, txs, height);
    forall o
      ensures RowAt(v, o) == ContentAfter(u, ts, |ts|, o)
    {
      BlockContent(u, txs, height, o);
    }
    if LeavesNoTrace(u, ts) {
      forall o
        ensures RowAt(v, o) == RowAt(u, o)
      {
        if !Touches(ts, o) {
          Untouched(u, ts, |ts|, o);
        }
      }
      SameRows(v, u);
    }
  }

  /** The first output of the coinbase fits its row and has none yet, and no input of the block refers to it. */
  predicate FreshCoinbase(u: Utxos, txs: seq<Transaction>, height: int) {
    && txs != [] && txs[0].isCoinbase && txs[0].outputs != [] && RowFits(0, txs[0].outputs[0].amount, height)
    && var o := Outpoint(txs[0].txid, 0);
       && o !in u
       && forall i, j :: 0 <= i < |txs| && 0 <= j < |txs[i].inputs| ==> SpentBy(txs[i].inputs[j]) != o
  }

  lemma {:induction false} DoneBlockParts(u: Utxos, txs: seq<Transaction>, height: int, i: nat)
    requires i < |DoneBlock(u, txs, height)|
    ensures DoneBlock(u, txs, height)[i].inputs <= txs[i].inputs
    decreases txs
  {
    if i != 0 {
      DoneBlockParts(Replay(u, TransactionLog(u, txs[0], height).0), txs[1..], height, i - 1);
    }
  }

  lemma {:induction false} CreatedStays(u: Utxos, txs: seq<Transaction>, k: nat, o: Outpoint)
    requires 1 <= k <= |txs| && CreatedBy(txs[0], o)
    requires forall i :: 0 <= i < |txs| ==> !ConsumedBy(txs[i], o)
    ensures ContentAfter(u, txs, k, o).Some?
  {
    if k != 1 {
      CreatedStays(u, txs, k - 1, o);
    }
  }

  /** A fresh coinbase leaves its first output behind, whatever becomes of its block. */
  lemma {:induction false} FreshStays(u: Utxos, txs: seq<Transaction>, height: int)
    requires FreshCoinbase(u, txs, height)
    ensures Outpoint(txs[0].txid, 0) in Replay(u, BlockLog(u, txs, height).0)
  {
    var o, ts := Outpoint(txs[0].txid, 0), DoneBlock(u, txs, height);
    assert WriteCount(txs[0].outputs, height, 0) >= 1;
    assert CreatedBy(ts[0], o);
    forall i | 0 <= i < |ts|
      ensures !ConsumedBy(ts[i], o)
    {
      DoneBlockParts(u, txs, height, i);
      assert forall j :: 0 <= j < |ts[i].inputs| ==> ts[i].inputs[j] == txs[i].inputs[j];
    }
    CreatedStays(u, ts, |ts|, o);
    BlockContent(u, txs, height, o);
  }
}
