/** Transactions and the bytes that are hashed into their ids. */
module Transactions {
  import opened Arithmetic
  import opened Bytes
  import opened Wrappers

  datatype TxInput = TxInput(
    prevTxid: seq<byte>, prevVout: int, scriptSig: seq<byte>, sequence: int, ctCommitment: Option<seq<byte>>)

  datatype TxOutput = TxOutput(amount: int, scriptPubkey: seq<byte>, ctCommitment: Option<seq<byte>>)

  datatype Transaction = Transaction(
    version: int, inputs: seq<TxInput>, outputs: seq<TxOutput>, locktime: int, isCoinbase: bool, txid: seq<byte>)

  const TWO32 := 0x1_0000_0000
  const TWO63 := 0x8000_0000_0000_0000
  const TWO64 := 0x1_0000_0000_0000_0000

  // ----- struct.pack -----

  predicate FitsU32(n: int) {
    0 <= n < TWO32
  }

  predicate FitsByte(n: int) {
    0 <= n < 256
  }

  predicate FitsI64(n: int) {
    -TWO63 <= n < TWO63
  }

  /** "<I" */
  function U32(n: int): (b: seq<byte>)
    requires FitsU32(n)
    ensures |b| == 4
  {
    ToLittle(n, 4)
  }

  /** "<q": two's complement */
  function I64(n: int): (b: seq<byte>)
    requires FitsI64(n)
    ensures |b| == 8
  {
    ToLittle(if n < 0 then n + TWO64 else n, 8)
  }

  lemma PowersOf256()
    ensures Pow(256, 4) == TWO32 && Pow(256, 8) == TWO64
  {
    assert Pow(256, 2) == 65536 by {
      assert Pow(256, 1) == 256;
    }
    PowAdd(256, 2, 2);
    PowAdd(256, 4, 4);
  }

  lemma U32Injective(m: int, n: int)
    requires FitsU32(m) && FitsU32(n) && U32(m) == U32(n)
    ensures m == n
  {
    PowersOf256();
    ToLittleInjective(m, n, 4);
  }

  lemma I64Injective(m: int, n: int)
    requires FitsI64(m) && FitsI64(n) && I64(m) == I64(n)
    ensures m == n
  {
    PowersOf256();
    ToLittleInjective(if m < 0 then m + TWO64 else m, if n < 0 then n + TWO64 else n, 8);
  }

  // ----- The encoding, each part followed by what comes after it -----

  predicate InputPacks(i: TxInput) {
    FitsU32(i.prevVout) && FitsByte(|i.scriptSig|) && FitsU32(i.sequence)
  }

  predicate OutputPacks(o: TxOutput) {
    FitsI64(o.amount) && FitsByte(|o.scriptPubkey|)
  }

  /** No struct.pack of the encoder raises. */
  predicate Packs(tx: Transaction) {
    && FitsU32(tx.version) && FitsByte(|tx.inputs|) && FitsByte(|tx.outputs|) && FitsU32(tx.locktime)
    && (forall i :: 0 <= i < |tx.inputs| ==> InputPacks(tx.inputs[i]))
    && (forall i :: 0 <= i < |tx.outputs| ==> OutputPacks(tx.outputs[i]))
  }

  /** What follows the previous id in the encoding of an input */
  function AfterId(i: TxInput, rest: seq<byte>): seq<byte>
    requires InputPacks(i)
  {
    U32(i.prevVout) + ([|i.scriptSig|] + (i.scriptSig + (U32(i.sequence) + rest)))
  }

  function InputThen(i: TxInput, rest: seq<byte>): seq<byte>
    requires InputPacks(i)
  {
    Reverse(i.prevTxid) + AfterId(i, rest)
  }

  function OutputThen(o: TxOutput, rest: seq<byte>): seq<byte>
    requires OutputPacks(o)
  {
    I64(o.amount) + ([|o.scriptPubkey|] + (o.scriptPubkey + rest))
  }

  function InputsThen(ins: seq<TxInput>, rest: seq<byte>): seq<byte>
    requires forall i :: 0 <= i < |ins| ==> InputPacks(ins[i])
  {
    if ins == [] then rest else InputThen(ins[0], InputsThen(ins[1..], rest))
  }

  function OutputsThen(outs: seq<TxOutput>, rest: seq<byte>): seq<byte>
    requires forall i :: 0 <= i < |outs| ==> OutputPacks(outs[i])
  {
    if outs == [] then rest else OutputThen(outs[0], OutputsThen(outs[1..], rest))
  }

  function Serialized(tx: Transaction): seq<byte>
    requires Packs(tx)
  {
    U32(tx.version) + ([|tx.inputs|] +
      InputsThen(tx.inputs, [|tx.outputs|] + OutputsThen(tx.outputs, U32(tx.locktime))))
  }

  /** What one turn of the loop over the inputs appends */
  function WithInput(data: seq<byte>, i: TxInput): seq<byte>
    requires InputPacks(i)
  {
    data + Reverse(i.prevTxid) + U32(i.prevVout) + ([|i.scriptSig|] + i.scriptSig) + U32(i.sequence)
  }

  function WithOutput(data: seq<byte>, o: TxOutput): seq<byte>
    requires OutputPacks(o)
  {
    data + I64(o.amount) + ([|o.scriptPubkey|] + o.scriptPubkey)
  }

  lemma InputAppends(data: seq<byte>, i: TxInput, rest: seq<byte>)
    requires InputPacks(i)
    ensures data + InputThen(i, rest) == WithInput(data, i) + rest
  {}

  lemma OutputAppends(data: seq<byte>, o: TxOutput, rest: seq<byte>)
    requires OutputPacks(o)
    ensures data + OutputThen(o, rest) == WithOutput(data, o) + rest
  {}

  ghost predicate AllInputsPack(ins: seq<TxInput>) {
    forall i :: 0 <= i < |ins| ==> InputPacks(ins[i])
  }

  ghost predicate AllOutputsPack(outs: seq<TxOutput>) {
    forall i :: 0 <= i < |outs| ==> OutputPacks(outs[i])
  }

  lemma InputsStep(data: seq<byte>, ins: seq<TxInput>, k: nat)
    requires k < |ins| && AllInputsPack(ins)
    ensures data + InputsThen(ins[k..], []) == WithInput(data, ins[k]) + InputsThen(ins[k + 1..], [])
  {
    assert ins[k..][1..] == ins[k + 1..];
    InputAppends(data, ins[k], InputsThen(ins[k + 1..], []));
  }

  lemma OutputsStep(data: seq<byte>, outs: seq<TxOutput>, k: nat)
    requires k < |outs| && AllOutputsPack(outs)
    ensures data + OutputsThen(outs[k..], []) == WithOutput(data, outs[k]) + OutputsThen(outs[k + 1..], [])
  {
    assert outs[k..][1..] == outs[k + 1..];
    OutputAppends(data, outs[k], OutputsThen(outs[k + 1..], []));
  }

  /** The loop over the inputs; None when a pack raises. */
  method AppendInputs(start: seq<byte>, ins: seq<TxInput>) returns (r: Option<seq<byte>>)
    ensures r.Some? <==> AllInputsPack(ins)
    ensures r.Some? ==> r.value == start + InputsThen(ins, [])
  {
    var data: seq<byte> := start;
    for k := 0 to |ins|
      invariant AllInputsPack(ins[..k])
      invariant AllInputsPack(ins) ==> start + InputsThen(ins, []) == data + InputsThen(ins[k..], [])
    {
      if !InputPacks(ins[k]) {
        return None;
      }
      ghost var all := AllInputsPack(ins);
      if all {
        InputsStep(data, ins, k);
      }
      data := WithInput(data, ins[k]);
    }
    assert ins[..|ins|] == ins;
    return Some(data);
  }

  /** The loop over the outputs */
  method AppendOutputs(start: seq<byte>, outs: seq<TxOutput>) returns (r: Option<seq<byte>>)
    ensures r.Some? <==> AllOutputsPack(outs)
    ensures r.Some? ==> r.value == start + OutputsThen(outs, [])
  {
    var data: seq<byte> := start;
    for k := 0 to |outs|
      invariant AllOutputsPack(outs[..k])
      invariant AllOutputsPack(outs) ==> start + OutputsThen(outs, []) == data + OutputsThen(outs[k..], [])
    {
      if !OutputPacks(outs[k]) {
        return None;
      }
      ghost var all := AllOutputsPack(outs);
      if all {
        OutputsStep(data, outs, k);
      }
      data := WithOutput(data, outs[k]);
    }
    assert outs[..|outs|] == outs;
    return Some(data);
  }

  lemma InputThenAppends(i: TxInput, mid: seq<byte>, rest: seq<byte>)
    requires InputPacks(i)
    ensures InputThen(i, mid + rest) == InputThen(i, mid) + rest
  {
    var head: seq<byte> := WithInput([], i);
    InputHead(i, mid);
    InputHead(i, mid + rest);
    assert head + (mid + rest) == head + mid + rest;
  }

  lemma InputHead(i: TxInput, rest: seq<byte>)
    requires InputPacks(i)
    ensures InputThen(i, rest) == WithInput([], i) + rest
  {
    InputAppends([], i, rest);
    assert [] + InputThen(i, rest) == InputThen(i, rest);
  }

  lemma {:induction false} InputsThenAppends(ins: seq<TxInput>, rest: seq<byte>)
    requires forall i :: 0 <= i < |ins| ==> InputPacks(ins[i])
    ensures InputsThen(ins, rest) == InputsThen(ins, []) + rest
  {
    if ins != [] {
      InputsThenAppends(ins[1..], rest);
      InputThenAppends(ins[0], InputsThen(ins[1..], []), rest);
    }
  }

  lemma {:induction false} OutputsThenAppends(outs: seq<TxOutput>, rest: seq<byte>)
    requires forall i :: 0 <= i < |outs| ==> OutputPacks(outs[i])
    ensures OutputsThen(outs, rest) == OutputsThen(outs, []) + rest
  {
    if outs != [] {
      OutputsThenAppends(outs[1..], rest);
    }
  }

  lemma Regroup(a: seq<byte>, b: seq<byte>, c: seq<byte>, d: seq<byte>, e: seq<byte>, f: seq<byte>)
    ensures a + b + c + d + e + f == a + (b + (c + (d + (e + f))))
  {}

  lemma SerializedAppends(tx: Transaction)
    requires Packs(tx)
    ensures U32(tx.version) + [|tx.inputs|] + InputsThen(tx.inputs, []) + [|tx.outputs|] + OutputsThen(tx.outputs, [])
          + U32(tx.locktime) == Serialized(tx)
  {
    OutputsThenAppends(tx.outputs, U32(tx.locktime));
    InputsThenAppends(tx.inputs, [|tx.outputs|] + OutputsThen(tx.outputs, U32(tx.locktime)));
    Regroup(U32(tx.version), [|tx.inputs|], InputsThen(tx.inputs, []), [|tx.outputs|],
            OutputsThen(tx.outputs, []), U32(tx.locktime));
  }

  /** serialize_for_signing; None where a struct.pack raises. */
  method SerializeForSigning(tx: Transaction) returns (r: Option<seq<byte>>)
    ensures r == if Packs(tx) then Some(Serialized(tx)) else None
  {
    if !FitsU32(tx.version) || !FitsByte(|tx.inputs|) {
      return None;
    }
    var withInputs := AppendInputs(U32(tx.version) + [|tx.inputs|], tx.inputs);
    if withInputs == None || !FitsByte(|tx.outputs|) {
      return None;
    }
    var withOutputs := AppendOutputs(withInputs.value + [|tx.outputs|], tx.outputs);
    if withOutputs == None || !FitsU32(tx.locktime) {
      return None;
    }
    SerializedAppends(tx);
    return Some(withOutputs.value + U32(tx.locktime));
  }

  // ----- The layout -----

  lemma PackedFields(n: int, m: int)
    requires FitsU32(n) && FitsI64(m)
    ensures FromLittle(U32(n)) == n
    ensures FromLittle(I64(m)) == if m < 0 then m + 0x1_0000_0000_0000_0000 else m
  {
    PowersOf256();
    FromToLittle(n, 4);
    FromToLittle(if m < 0 then m + TWO64 else m, 8);
  }

  /** The numbers that struct.pack takes */
  lemma PacksExactly(tx: Transaction)
    ensures Packs(tx) <==>
      && 0 <= tx.version < 0x1_0000_0000 && 0 <= tx.locktime < 0x1_0000_0000
      && |tx.inputs| < 256 && |tx.outputs| < 256
      && (forall i {:trigger tx.inputs[i]} :: 0 <= i < |tx.inputs| ==>
            && 0 <= tx.inputs[i].prevVout < 0x1_0000_0000 && 0 <= tx.inputs[i].sequence < 0x1_0000_0000
            && |tx.inputs[i].scriptSig| < 256)
      && (forall i {:trigger tx.outputs[i]} :: 0 <= i < |tx.outputs| ==>
            && -0x8000_0000_0000_0000 <= tx.outputs[i].amount < 0x8000_0000_0000_0000
            && |tx.outputs[i].scriptPubkey| < 256)
  {
    if Packs(tx) {
      forall i | 0 <= i < |tx.inputs|
        ensures InputPacks(tx.inputs[i])
      {}
      forall i | 0 <= i < |tx.outputs|
        ensures OutputPacks(tx.outputs[i])
      {}
    }
  }

  lemma Parts(a: seq<byte>, m: byte, mid: seq<byte>, z: seq<byte>)
    ensures var b := a + [m] + mid + z;
      && |b| == |a| + 1 + |mid| + |z| && b[..|a|] == a && b[|a|] == m
      && b[|a| + 1..|a| + 1 + |mid|] == mid && b[|a| + 1 + |mid|..] == z
  {}

  lemma Nested(a: seq<byte>, m: byte, mid: seq<byte>, z: seq<byte>)
    ensures a + ([m] + (mid + z)) == a + [m] + mid + z
  {}

  lemma Halves(a: seq<byte>, b: seq<byte>)
    ensures (a + b)[..|a|] == a && (a + b)[|a|..] == b
  {}

  /** The index of the previous output, the length of the script, the script, the sequence number */
  lemma {:induction false} AfterIdLayout(i: TxInput, rest: seq<byte>)
    requires InputPacks(i)
    ensures var a, m := AfterId(i, rest), |i.scriptSig|;
      && |a| == m + 9 + |rest|
      && FromLittle(a[..4]) == i.prevVout && a[4] == m && a[5..5 + m] == i.scriptSig
      && FromLittle(a[5 + m..][..4]) == i.sequence && a[5 + m..][4..] == rest
  {
    PackedFields(i.prevVout, 0);
    PackedFields(i.sequence, 0);
    Nested(U32(i.prevVout), |i.scriptSig|, i.scriptSig, U32(i.sequence) + rest);
    Parts(U32(i.prevVout), |i.scriptSig|, i.scriptSig, U32(i.sequence) + rest);
    Halves(U32(i.sequence), rest);
  }

  /** In front of them the previous id, in reverse */
  lemma {:induction false} InputLayout(i: TxInput, rest: seq<byte>)
    requires InputPacks(i)
    ensures var b, t := InputThen(i, rest), |i.prevTxid|;
      t <= |b| && b[t..] == AfterId(i, rest) && forall k :: 0 <= k < t ==> b[..t][k] == i.prevTxid[t - 1 - k]
  {
    Halves(Reverse(i.prevTxid), AfterId(i, rest));
  }

  /** The amount in two's complement, the length of the script, the script */
  lemma {:induction false} OutputLayout(o: TxOutput, rest: seq<byte>)
    requires OutputPacks(o)
    ensures var b, m := OutputThen(o, rest), |o.scriptPubkey|;
      && |b| == 9 + m + |rest|
      && FromLittle(b[..8]) == (if o.amount < 0 then o.amount + 0x1_0000_0000_0000_0000 else o.amount)
      && b[8] == m && b[9..9 + m] == o.scriptPubkey && b[9 + m..] == rest
  {
    PackedFields(0, o.amount);
    Nested(I64(o.amount), |o.scriptPubkey|, o.scriptPubkey, rest);
    Parts(I64(o.amount), |o.scriptPubkey|, o.scriptPubkey, rest);
  }

  /** What stands between the counts and the lock time */
  function Body(tx: Transaction): seq<byte>
    requires Packs(tx)
  {
    InputsThen(tx.inputs, []) + [|tx.outputs|] + OutputsThen(tx.outputs, [])
  }

  lemma {:induction false} SerializedParts(tx: Transaction)
    requires Packs(tx)
    ensures Serialized(tx) == U32(tx.version) + [|tx.inputs|] + Body(tx) + U32(tx.locktime)
  {
    SerializedAppends(tx);
    JoinMiddle(U32(tx.version) + [|tx.inputs|], InputsThen(tx.inputs, []), [|tx.outputs|],
               OutputsThen(tx.outputs, []), U32(tx.locktime));
  }

  lemma JoinMiddle(a: seq<byte>, b: seq<byte>, c: seq<byte>, d: seq<byte>, e: seq<byte>)
    ensures a + b + c + d + e == a + (b + c + d) + e
  {}

  /** Version, number of inputs, inputs, number of outputs, outputs, lock time */
  lemma {:induction false} SerializedLayout(tx: Transaction)
    requires Packs(tx)
    ensures var b := Serialized(tx);
      && 10 <= |b| && FromLittle(b[..4]) == tx.version && b[4] == |tx.inputs|
      && FromLittle(b[|b| - 4..]) == tx.locktime
      && b[5..|b| - 4] == InputsThen(tx.inputs, []) + [|tx.outputs|] + OutputsThen(tx.outputs, [])
  {
    PackedFields(tx.version, 0);
    PackedFields(tx.locktime, 0);
    SerializedParts(tx);
    Parts(U32(tx.version), |tx.inputs|, Body(tx), U32(tx.locktime));
  }

  // ----- Unique decodability -----

  /** Two strings that begin with parts of one length share them and what follows. */
  lemma Peel(a: seq<byte>, r: seq<byte>, b: seq<byte>, s: seq<byte>)
    requires |a| == |b| && a + r == b + s
    ensures a == b && r == s
  {
    assert a == (a + r)[..|a|] == b;
    assert r == (a + r)[|a|..] == s;
  }

  /** The fields of an input that are encoded */
  predicate SameInput(i: TxInput, j: TxInput) {
    i.prevTxid == j.prevTxid && i.prevVout == j.prevVout && i.scriptSig == j.scriptSig && i.sequence == j.sequence
  }

  predicate SameOutput(o: TxOutput, p: TxOutput) {
    o.amount == p.amount && o.scriptPubkey == p.scriptPubkey
  }

  /** A length byte and a script, followed by something */
  lemma ScriptPeels(a: seq<byte>, r: seq<byte>, b: seq<byte>, s: seq<byte>)
    requires FitsByte(|a|) && FitsByte(|b|) && [|a|] + (a + r) == [|b|] + (b + s)
    ensures a == b && r == s
  {
    Peel([|a|], a + r, [|b|], b + s);
    assert [|a|][0] == [|b|][0];
    Peel(a, r, b, s);
  }

  lemma AfterIdPeels(i: TxInput, r: seq<byte>, j: TxInput, s: seq<byte>)
    requires InputPacks(i) && InputPacks(j) && AfterId(i, r) == AfterId(j, s)
    ensures i.prevVout == j.prevVout && i.scriptSig == j.scriptSig && i.sequence == j.sequence && r == s
  {
    var r3: seq<byte>, s3: seq<byte> := U32(i.sequence) + r, U32(j.sequence) + s;
    Peel(U32(i.prevVout), [|i.scriptSig|] + (i.scriptSig + r3), U32(j.prevVout), [|j.scriptSig|] + (j.scriptSig + s3));
    U32Injective(i.prevVout, j.prevVout);
    ScriptPeels(i.scriptSig, r3, j.scriptSig, s3);
    Peel(U32(i.sequence), r, U32(j.sequence), s);
    U32Injective(i.sequence, j.sequence);
  }

  lemma InputPeels(i: TxInput, r: seq<byte>, j: TxInput, s: seq<byte>)
    requires InputPacks(i) && InputPacks(j) && |i.prevTxid| == |j.prevTxid|
    requires InputThen(i, r) == InputThen(j, s)
    ensures SameInput(i, j) && r == s
  {
    Peel(Reverse(i.prevTxid), AfterId(i, r), Reverse(j.prevTxid), AfterId(j, s));
    ReverseInjective(i.prevTxid, j.prevTxid);
    AfterIdPeels(i, r, j, s);
  }

  lemma OutputPeels(o: TxOutput, r: seq<byte>, p: TxOutput, s: seq<byte>)
    requires OutputPacks(o) && OutputPacks(p) && OutputThen(o, r) == OutputThen(p, s)
    ensures SameOutput(o, p) && r == s
  {
    var r2, s2 := [|o.scriptPubkey|] + (o.scriptPubkey + r), [|p.scriptPubkey|] + (p.scriptPubkey + s);
    Peel(I64(o.amount), r2, I64(p.amount), s2);
    I64Injective(o.amount, p.amount);
    ScriptPeels(o.scriptPubkey, r, p.scriptPubkey, s);
  }

  ghost predicate AllPrevSized(ins: seq<TxInput>) {
    forall i :: 0 <= i < |ins| ==> |ins[i].prevTxid| == 32
  }

  lemma {:induction false} InputsPeel(a: seq<TxInput>, r: seq<byte>, b: seq<TxInput>, s: seq<byte>)
    requires |a| == |b| && AllPrevSized(a) && AllPrevSized(b)
    requires forall i :: 0 <= i < |a| ==> InputPacks(a[i]) && InputPacks(b[i])
    requires InputsThen(a, r) == InputsThen(b, s)
    ensures (forall i :: 0 <= i < |a| ==> SameInput(a[i], b[i])) && r == s
  {
    if a != [] {
      InputPeels(a[0], InputsThen(a[1..], r), b[0], InputsThen(b[1..], s));
      InputsPeel(a[1..], r, b[1..], s);
      forall i | 0 <= i < |a|
        ensures SameInput(a[i], b[i])
      {
        if i > 0 {
          assert SameInput(a[1..][i - 1], b[1..][i - 1]);
        }
      }
    }
  }

  lemma {:induction false} OutputsPeel(a: seq<TxOutput>, r: seq<byte>, b: seq<TxOutput>, s: seq<byte>)
    requires |a| == |b|
    requires forall i :: 0 <= i < |a| ==> OutputPacks(a[i]) && OutputPacks(b[i])
    requires OutputsThen(a, r) == OutputsThen(b, s)
    ensures (forall i :: 0 <= i < |a| ==> SameOutput(a[i], b[i])) && r == s
  {
    if a != [] {
      OutputPeels(a[0], OutputsThen(a[1..], r), b[0], OutputsThen(b[1..], s));
      OutputsPeel(a[1..], r, b[1..], s);
      forall i | 0 <= i < |a|
        ensures SameOutput(a[i], b[i])
      {
        if i > 0 {
          assert SameOutput(a[1..][i - 1], b[1..][i - 1]);
        }
      }
    }
  }

  /** Equal bytes come from equal transactions, field by encoded field. */
  lemma SerializedInjective(t: Transaction, u: Transaction)
    requires Packs(t) && Packs(u) && AllPrevSized(t.inputs) && AllPrevSized(u.inputs)
    requires Serialized(t) == Serialized(u)
    ensures t.version == u.version && t.locktime == u.locktime
    ensures |t.inputs| == |u.inputs| && forall i :: 0 <= i < |t.inputs| ==> SameInput(t.inputs[i], u.inputs[i])
    ensures |t.outputs| == |u.outputs| && forall i :: 0 <= i < |t.outputs| ==> SameOutput(t.outputs[i], u.outputs[i])
  {
    var r2, s2 := OutputsThen(t.outputs, U32(t.locktime)), OutputsThen(u.outputs, U32(u.locktime));
    var r1, s1 := InputsThen(t.inputs, [|t.outputs|] + r2), InputsThen(u.inputs, [|u.outputs|] + s2);
    Peel(U32(t.version), [|t.inputs|] + r1, U32(u.version), [|u.inputs|] + s1);
    U32Injective(t.version, u.version);
    Peel([|t.inputs|], r1, [|u.inputs|], s1);
    assert [|t.inputs|][0] == [|u.inputs|][0];
    InputsPeel(t.inputs, [|t.outputs|] + r2, u.inputs, [|u.outputs|] + s2);
    Peel([|t.outputs|], r2, [|u.outputs|], s2);
    assert [|t.outputs|][0] == [|u.outputs|][0];
    OutputsPeel(t.outputs, U32(t.locktime), u.outputs, U32(u.locktime));
    U32Injective(t.locktime, u.locktime);
  }
}
