/** Block templates: the coinbase, the selection of transactions, and what validation makes of a mined template. */
module Mining {
  import opened Arithmetic
  import opened Bytes
  import opened Difficulty
  import opened Rewards
  import opened Transactions
  import opened Chain
  import opened ChainRuns
  import opened Wrappers
  import Merkle

  const BITCHCHAIN_VERSION := 1

  /** "0" * 64 */
  function ZeroHash(): (b: seq<byte>)
    ensures |b| == 32
  {
    seq(32, _ => 0)
  }

  /** Height, extra nonce zero, and the name of the chain */
  function CoinbaseScript(height: int): (b: seq<byte>)
    requires FitsU32(height)
    ensures |b| == 22
  {
    U32(height) + [0, 0, 0, 0, 0, 0, 0, 0] + [0x42, 0x69, 0x74, 0x63, 0x68, 0x63, 0x68, 0x61, 0x69, 0x6e]
  }

  /** Pays to the hash of a public key. */
  function PayTo(minerHash: seq<byte>): seq<byte> {
    [0x76, 0xa9, 0x14] + minerHash + [0x88, 0xac]
  }

  lemma RewardFits(height: nat)
    ensures FitsI64(BlockReward(height))
  {
    var k := height / HALVING_INTERVAL;
    if k < 64 {
      DivModForm(COINBASE_REWARD_SATOSHIS, Pow(2, k));
      MulMonotone(1, Pow(2, k), Halved(k), Halved(k));
    }
  }

  function UnnamedCoinbase(height: nat, minerHash: seq<byte>): (tx: Transaction)
    requires FitsU32(height) && |minerHash| == 20
    ensures Packs(tx)
  {
    RewardFits(height);
    Transaction(1, [TxInput(ZeroHash(), 0xFFFF_FFFF, CoinbaseScript(height), 0xFFFF_FFFF, None)],
                [TxOutput(BlockReward(height), PayTo(minerHash), None)], 0, true, [])
  }

  /** build_coinbase_tx: it pays the reward of its height and nothing else. */
  function Coinbase(env: Env, height: nat, minerHash: seq<byte>): (tx: Transaction)
    requires FitsU32(height) && |minerHash| == 20
    ensures IsCoinbase(tx, height)
  {
    Named(env, UnnamedCoinbase(height, minerHash))
  }

  /** Everything the coinbase is made of: one input that refers to nothing, with the height and the name of the chain in
      its script, and one output that pays the reward to the miner */
  lemma {:induction false} CoinbaseExactly(env: Env, height: nat, minerHash: seq<byte>)
    requires FitsU32(height) && |minerHash| == 20
    ensures var tx := Coinbase(env, height, minerHash);
      && tx.version == 1 && tx.locktime == 0 && tx.isCoinbase
      && Packs(tx.(txid := [])) && tx.txid == env.hash(Serialized(tx.(txid := [])))
      && |tx.inputs| == 1 && tx.inputs[0].prevTxid == seq(32, _ => 0)
      && tx.inputs[0].prevVout == 0xFFFF_FFFF && tx.inputs[0].sequence == 0xFFFF_FFFF
      && |tx.inputs[0].scriptSig| == 22 && FromLittle(tx.inputs[0].scriptSig[..4]) == height
      && tx.inputs[0].scriptSig[4..12] == [0, 0, 0, 0, 0, 0, 0, 0]
      && tx.inputs[0].scriptSig[12..] == [0x42, 0x69, 0x74, 0x63, 0x68, 0x63, 0x68, 0x61, 0x69, 0x6e]
      && |tx.outputs| == 1 && tx.outputs[0].amount == BlockReward(height)
      && tx.outputs[0].scriptPubkey == [0x76, 0xa9, 0x14] + minerHash + [0x88, 0xac]
  {
    PackedFields(height, 0);
    var script := CoinbaseScript(height);
    assert script[..4] == U32(height);
    assert script[4..12] == [0, 0, 0, 0, 0, 0, 0, 0];
    assert script[12..] == [0x42, 0x69, 0x74, 0x63, 0x68, 0x63, 0x68, 0x61, 0x69, 0x6e];
  }

  predicate IsCoinbase(tx: Transaction, height: nat) {
    tx.isCoinbase && tx.txid != [] && |tx.outputs| == 1 && tx.outputs[0].amount == BlockReward(height)
  }

  // ----- Order -----

  /** The key of the sort. Transactions have no fee field, so it is what they pay out. */
  function SortKey(tx: Transaction): int {
    OutputTotal(tx.outputs)
  }

  /** Before the first that has a smaller key: equal keys keep their order. */
  function Inserted(tx: Transaction, sorted: seq<Transaction>): seq<Transaction> {
    if sorted == [] || SortKey(sorted[0]) <= SortKey(tx) then [tx] + sorted
    else [sorted[0]] + Inserted(tx, sorted[1..])
  }

  /** sorted(..., reverse=True), which is stable */
  function Sorted(txs: seq<Transaction>): seq<Transaction> {
    if txs == [] then [] else Inserted(txs[0], Sorted(txs[1..]))
  }

  predicate Descending(txs: seq<Transaction>) {
    forall i, j :: 0 <= i < j < |txs| ==> OutputTotal(txs[j].outputs) <= OutputTotal(txs[i].outputs)
  }

  /** The transactions with one key, in their order */
  function WithKey(txs: seq<Transaction>, key: int): seq<Transaction> {
    if txs == [] then []
    else if OutputTotal(txs[0].outputs) == key then [txs[0]] + WithKey(txs[1..], key) else WithKey(txs[1..], key)
  }

  lemma {:induction false} InsertedPermutes(tx: Transaction, sorted: seq<Transaction>)
    ensures multiset(Inserted(tx, sorted)) == multiset{tx} + multiset(sorted)
    decreases sorted
  {
    if sorted == [] || SortKey(sorted[0]) <= SortKey(tx) {
      assert multiset([tx] + sorted) == multiset{tx} + multiset(sorted);
    } else {
      InsertedPermutes(tx, sorted[1..]);
      assert sorted == [sorted[0]] + sorted[1..];
    }
  }

  lemma {:induction false} InsertedBelow(tx: Transaction, sorted: seq<Transaction>, bound: int)
    requires SortKey(tx) <= bound && forall i :: 0 <= i < |sorted| ==> SortKey(sorted[i]) <= bound
    ensures forall i :: 0 <= i < |Inserted(tx, sorted)| ==> SortKey(Inserted(tx, sorted)[i]) <= bound
    decreases sorted
  {
    if sorted != [] && SortKey(tx) < SortKey(sorted[0]) {
      InsertedBelow(tx, sorted[1..], bound);
    }
  }

  lemma {:induction false} InsertedDescends(tx: Transaction, sorted: seq<Transaction>)
    requires Descending(sorted)
    ensures Descending(Inserted(tx, sorted))
    decreases sorted
  {
    if sorted != [] && SortKey(tx) < SortKey(sorted[0]) {
      InsertedDescends(tx, sorted[1..]);
      InsertedBelow(tx, sorted[1..], SortKey(sorted[0]));
    }
  }

  lemma {:induction false} InsertedKeepsOrder(tx: Transaction, sorted: seq<Transaction>, key: int)
    ensures WithKey(Inserted(tx, sorted), key) == WithKey([tx] + sorted, key)
    decreases sorted
  {
    assert ([tx] + sorted)[1..] == sorted;
    if sorted != [] && SortKey(tx) < SortKey(sorted[0]) {
      var rest := sorted[1..];
      InsertedKeepsOrder(tx, rest, key);
      assert ([tx] + rest)[1..] == rest;
      assert ([sorted[0]] + Inserted(tx, rest))[1..] == Inserted(tx, rest);
    }
  }

  /** The sort permutes, orders by falling key, and keeps the order of equal keys. */
  lemma {:induction false} SortedStably(txs: seq<Transaction>, key: int)
    ensures multiset(Sorted(txs)) == multiset(txs)
    ensures Descending(Sorted(txs))
    ensures WithKey(Sorted(txs), key) == WithKey(txs, key)
    decreases txs
  {
    if txs != [] {
      var rest := Sorted(txs[1..]);
      SortedStably(txs[1..], key);
      InsertedPermutes(txs[0], rest);
      InsertedDescends(txs[0], rest);
      InsertedKeepsOrder(txs[0], rest, key);
      assert txs == [txs[0]] + txs[1..];
      assert ([txs[0]] + rest)[1..] == rest;
    }
  }

  // ----- Selection -----

  /** The candidates that still fit when their turn comes */
  function Selected(sizeOf: Transaction -> nat, candidates: seq<Transaction>, used: nat): seq<Transaction> {
    if candidates == [] then []
    else if used + sizeOf(candidates[0]) <= MAX_BLOCK_SIZE_BYTES then
      [candidates[0]] + Selected(sizeOf, candidates[1..], used + sizeOf(candidates[0]))
    else Selected(sizeOf, candidates[1..], used)
  }

  function SizeTotal(sizeOf: Transaction -> nat, txs: seq<Transaction>): nat {
    if txs == [] then 0 else sizeOf(txs[0]) + SizeTotal(sizeOf, txs[1..])
  }

  /** A selection stays within the limit and holds only candidates. */
  lemma {:induction false} SelectionFits(sizeOf: Transaction -> nat, candidates: seq<Transaction>, used: nat)
    requires used <= MAX_BLOCK_SIZE_BYTES
    ensures used + SizeTotal(sizeOf, Selected(sizeOf, candidates, used)) <= MAX_BLOCK_SIZE_BYTES
    ensures forall tx :: tx in Selected(sizeOf, candidates, used) ==> tx in candidates
    decreases candidates
  {
    if candidates != [] {
      var size := sizeOf(candidates[0]);
      if used + size <= MAX_BLOCK_SIZE_BYTES {
        SelectionFits(sizeOf, candidates[1..], used + size);
        assert Selected(sizeOf, candidates, used)[1..] == Selected(sizeOf, candidates[1..], used + size);
      } else {
        SelectionFits(sizeOf, candidates[1..], used);
      }
    }
  }

  /** One candidate after others is selected exactly when it fits with those selected before it. */
  lemma {:induction false} SelectionIsGreedy(sizeOf: Transaction -> nat, candidates: seq<Transaction>, used: nat,
                                             tx: Transaction)
    ensures Selected(sizeOf, candidates + [tx], used)
         == Selected(sizeOf, candidates, used)
            + if used + SizeTotal(sizeOf, Selected(sizeOf, candidates, used)) + sizeOf(tx) <= 4_194_304
              then [tx] else []
    decreases candidates
  {
    var all := candidates + [tx];
    if candidates == [] {
      assert all == [tx];
    } else {
      assert all[0] == candidates[0] && all[1..] == candidates[1..] + [tx];
      var size := sizeOf(candidates[0]);
      if used + size <= MAX_BLOCK_SIZE_BYTES {
        SelectionIsGreedy(sizeOf, candidates[1..], used + size, tx);
        assert Selected(sizeOf, candidates, used)[1..] == Selected(sizeOf, candidates[1..], used + size);
      } else {
        SelectionIsGreedy(sizeOf, candidates[1..], used, tx);
      }
    }
  }

  /** It leaves out only what does not fit beside it. */
  lemma {:induction false} SelectionIsMaximal(sizeOf: Transaction -> nat, candidates: seq<Transaction>, used: nat,
                                              tx: Transaction)
    requires tx in candidates && tx !in Selected(sizeOf, candidates, used)
    ensures MAX_BLOCK_SIZE_BYTES < used + SizeTotal(sizeOf, Selected(sizeOf, candidates, used)) + sizeOf(tx)
    decreases candidates
  {
    var size := sizeOf(candidates[0]);
    if used + size <= MAX_BLOCK_SIZE_BYTES {
      assert Selected(sizeOf, candidates, used)[1..] == Selected(sizeOf, candidates[1..], used + size);
      SelectionIsMaximal(sizeOf, candidates[1..], used + size, tx);
    } else if tx in candidates[1..] {
      SelectionIsMaximal(sizeOf, candidates[1..], used, tx);
    }
  }

  // ----- Templates -----

  /** What build_block_template makes of a coinbase and the selected transactions at a state of the chain */
  predicate IsTemplate(env: Env, s: State, coinbase: Transaction, selected: seq<Transaction>, block: Block) {
    && AllNameable(selected) && block.transactions == [coinbase] + NamedAll(env, selected)
    && IsTemplateHeader(env, s, Ids(block.transactions), block.header)
  }

  predicate IsTemplateHeader(env: Env, s: State, ids: seq<seq<byte>>, header: Header) {
    && header.version == BITCHCHAIN_VERSION && header.nonce == 0 && header.height == s.height + 1
    && header.prevHash == Predecessor(s.tip)
    && header.merkleRoot == Merkle.MerkleRoot(env.hash, ids)
    && 0 <= header.bits && NextBits(s.rows, s.tip, s.height) == Returned(header.bits)
  }

  /** tip_hash or "0" * 64 */
  function Predecessor(tip: Option<seq<byte>>): seq<byte> {
    if tip.Some? && tip.value != [] then tip.value else ZeroHash()
  }

  /** The loop over the candidates */
  method SelectTransactions(sizeOf: Transaction -> nat, candidates: seq<Transaction>)
    returns (selected: seq<Transaction>)
    ensures selected == Selected(sizeOf, candidates, 1000)
  {
    selected := [];
    var blockSize: nat := 1000;
    for k := 0 to |candidates|
      invariant selected + Selected(sizeOf, candidates[k..], blockSize) == Selected(sizeOf, candidates, 1000)
    {
      assert candidates[k..][0] == candidates[k] && candidates[k..][1..] == candidates[k + 1..];
      var txSize := sizeOf(candidates[k]);
      if blockSize + txSize <= MAX_BLOCK_SIZE_BYTES {
        selected := selected + [candidates[k]];
        blockSize := blockSize + txSize;
      }
    }
  }

  method BuildBlockTemplate(chain: Blockchain, minerHash: seq<byte>, sizeOf: Transaction -> nat,
                            mempool: seq<Transaction>, now: int) returns (r: Outcome<Block>)
    requires |minerHash| == 20
    ensures r.Raised? <==> || NextBits(chain.rows, chain.chainTip, chain.height).Raised?
                           || !FitsU32(chain.height + 1)
                           || !AllNameable(Selected(sizeOf, Sorted(mempool), 1000))
    ensures r.Returned? ==>
              && IsTemplate(chain.env, chain.Contents(), Coinbase(chain.env, chain.height + 1, minerHash),
                            Selected(sizeOf, Sorted(mempool), 1000), r.value)
              && r.value.header.timestamp == now && r.value.header.version == 1 && r.value.header.nonce == 0
              && r.value.header.height == chain.height + 1
              && NextBits(chain.rows, chain.chainTip, chain.height) == Returned(r.value.header.bits)
              && r.value.header.merkleRoot == Merkle.MerkleRoot(chain.env.hash, Ids(r.value.transactions))
              && r.value.header.prevHash
                 == (if chain.chainTip.Some? && chain.chainTip.value != [] then chain.chainTip.value
                     else seq(32, _ => 0))
  {
    var newHeight := chain.height + 1;
    var bits := chain.GetNextBits();
    if bits == Raised || !FitsU32(newHeight) {
      return Raised;
    }
    var coinbase := Coinbase(chain.env, newHeight, minerHash);
    var selected := SelectTransactions(sizeOf, Sorted(mempool));
    r := AssembleTemplate(chain, coinbase, selected, bits.value, now);
  }

  method AssembleTemplate(chain: Blockchain, coinbase: Transaction, selected: seq<Transaction>, bits: nat, now: int)
    returns (r: Outcome<Block>)
    requires NextBits(chain.rows, chain.chainTip, chain.height) == Returned(bits)
    ensures r.Raised? <==> !AllNameable(selected)
    ensures r.Returned? ==> IsTemplate(chain.env, chain.Contents(), coinbase, selected, r.value)
                            && r.value.header.timestamp == now
  {
    var named := chain.NameTransactions(selected);
    if named == None {
      return Raised;
    }
    var txs := [coinbase] + named.value;
    var root := Merkle.ComputeMerkleRoot(chain.env.hash, Ids(txs));
    var header := Header(BITCHCHAIN_VERSION, Predecessor(chain.chainTip), root, now, bits, 0, chain.height + 1);
    return Returned(Block(header, txs));
  }

  /** What mining changes in a template; mine_regtest changes the bits too. */
  function Mined(header: Header, timestamp: int, bits: int, nonce: int): Header {
    header.(timestamp := timestamp, bits := bits, nonce := nonce)
  }

  predicate AllNamed(txs: seq<Transaction>) {
    forall i :: 0 <= i < |txs| ==> txs[i].txid != []
  }

  lemma NamedAlready(env: Env, txs: seq<Transaction>)
    requires AllNamed(txs)
    ensures AllNameable(txs) && NamedAll(env, txs) == txs
  {}

  predicate CoinbaseFirst(txs: seq<Transaction>) {
    txs != [] && txs[0].isCoinbase
  }

  /** A block on the tip, with its ids and its Merkle root */
  predicate Placed(env: Env, s: State, block: Block) {
    && HeaderPacks(block.header) && AllNamed(block.transactions)
    && block.header.prevHash == Predecessor(s.tip) && s.tip != Some([])
    && block.header.merkleRoot == Merkle.MerkleRoot(env.hash, Ids(block.transactions))
  }

  /** Such a block, a coinbase first */
  predicate WellPlaced(env: Env, s: State, block: Block) {
    Placed(env, s, block) && CoinbaseFirst(block.transactions)
  }

  /** A block without a coinbase in front fails, whatever else it has. */
  lemma PlacedWithoutCoinbase(env: Env, now: int, s: State, block: Block)
    requires Placed(env, s, block) && !CoinbaseFirst(block.transactions)
    ensures Validated(env, now, s, block) == Failed
  {
    NamedAlready(env, block.transactions);
  }

  /** The remaining checks of such a block */
  lemma WellPlacedPasses(env: Env, now: int, s: State, block: Block)
    requires WellPlaced(env, s, block)
    ensures var header, hash := block.header, BlockHash(env, block.header);
            Validated(env, now, s, block)
            == if IsBelowTarget(FromBig(hash), header.bits) && env.size(block.transactions) <= MAX_BLOCK_SIZE_BYTES
                  && header.timestamp <= now + 7200
               then Passed(Row(hash, header.height, header.timestamp, header.bits), block.transactions) else Failed
  {
    NamedAlready(env, block.transactions);
  }

  /** A mined template passes validation on the state it was built for exactly when its hash is below its
      target, its size within the limit and its timestamp within two hours of the clock. */
  lemma TemplatePasses(env: Env, now: int, s: State, coinbase: Transaction, selected: seq<Transaction>,
                       block: Block, mined: Header)
    requires IsTemplate(env, s, coinbase, selected, block) && coinbase.isCoinbase && coinbase.txid != []
    requires mined == Mined(block.header, mined.timestamp, mined.bits, mined.nonce)
    requires s.tip != Some([]) && HeaderPacks(mined)
    ensures Validated(env, now, s, Block(mined, block.transactions))
            == if IsBelowTarget(FromBig(BlockHash(env, mined)), mined.bits)
                  && env.size(block.transactions) <= MAX_BLOCK_SIZE_BYTES
                  && mined.timestamp <= now + 7200
               then Passed(Row(BlockHash(env, mined), s.height + 1, mined.timestamp, mined.bits), block.transactions)
               else Failed
  {
    WellPlacedPasses(env, now, s, Block(mined, block.transactions));
  }

  lemma SelectedFromCandidates(env: Env, selected: seq<Transaction>, candidates: seq<Transaction>)
    requires AllNameable(selected) && NonNegativeOutputs(candidates)
    requires forall i :: 0 <= i < |candidates| ==> !candidates[i].isCoinbase
    requires forall tx :: tx in selected ==> tx in candidates
    ensures var named := NamedAll(env, selected);
            NonNegativeOutputs(named) && forall i :: 0 <= i < |named| ==> !named[i].isCoinbase
  {
    var named := NamedAll(env, selected);
    forall i | 0 <= i < |named|
      ensures !named[i].isCoinbase && forall j :: 0 <= j < |named[i].outputs| ==> 0 <= named[i].outputs[j].amount
    {
      assert selected[i] in candidates;
    }
  }

  /** A coinbase for the height after the tip's, then transactions that are none */
  lemma {:induction false} CoinbaseFirstPays(s: State, row: Row, coinbase: Transaction, named: seq<Transaction>)
    requires 0 <= s.height + 1 == row.height && IsCoinbase(coinbase, s.height + 1)
    requires NonNegativeOutputs(named) && forall i :: 0 <= i < |named| ==> !named[i].isCoinbase
    requires Conserves(s.utxos, [coinbase] + named, row.height)
    ensures PaysReward(s, row, [coinbase] + named)
  {
    assert coinbase.outputs[1..] == [];
  }

  lemma {:induction false} SelectedFromMempool(sizeOf: Transaction -> nat, mempool: seq<Transaction>, tx: Transaction)
    requires tx in Selected(sizeOf, Sorted(mempool), 1000)
    ensures tx in mempool
  {
    SelectionFits(sizeOf, Sorted(mempool), 1000);
    SortedStably(mempool, 0);
    assert tx in multiset(Sorted(mempool));
  }

  /** A template of a mempool without coinbases, of transactions that create no value, is a block that the supply
      bounds are about. */
  lemma {:induction false} TemplatePaysReward(env: Env, s: State, coinbase: Transaction, sizeOf: Transaction -> nat,
                           mempool: seq<Transaction>, block: Block, row: Row)
    requires IsTemplate(env, s, coinbase, Selected(sizeOf, Sorted(mempool), 1000), block)
    requires 0 <= s.height + 1 == row.height && IsCoinbase(coinbase, s.height + 1)
    requires NonNegativeOutputs(mempool) && forall i :: 0 <= i < |mempool| ==> !mempool[i].isCoinbase
    requires Conserves(s.utxos, block.transactions, row.height)
    ensures PaysReward(s, row, block.transactions)
  {
    var selected := Selected(sizeOf, Sorted(mempool), 1000);
    forall tx | tx in selected
      ensures tx in mempool
    {
      SelectedFromMempool(sizeOf, mempool, tx);
    }
    SelectedFromCandidates(env, selected, mempool);
    CoinbaseFirstPays(s, row, coinbase, NamedAll(env, selected));
  }
}
