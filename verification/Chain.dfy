/** The chain: block validation, block application with its two database connections, difficulty. */
module Chain {
  import opened Bytes
  import opened Difficulty
  import opened Transactions
  import opened Utxo
  import opened Wrappers
  import Merkle

  const MAX_BLOCK_SIZE_BYTES := 4 * 1024 * 1024

  datatype Header = Header(
    version: int, prevHash: seq<byte>, merkleRoot: seq<byte>, timestamp: int, bits: int, nonce: int, height: int)

  datatype Block = Block(header: Header, transactions: seq<Transaction>)

  /** The columns of a stored block that are read back */
  datatype Row = Row(hash: seq<byte>, height: int, timestamp: int, bits: nat)

  /** The unspent outputs as their connection sees them and as they are committed, the rows of blocks in rowid
      order, and the tip that the object holds */
  datatype State = State(utxos: Utxos, saved: Utxos, rows: seq<Row>, tip: Option<seq<byte>>, height: int)

  const EMPTY := State(map[], map[], [], None, -1)

  /** Double SHA-256, and the length of the JSON of the transactions */
  datatype Env = Env(hash: Hash, size: seq<Transaction> -> nat)

  // ----- The table of blocks -----

  /** WHERE hash=? */
  function RowOf(rows: seq<Row>, hash: seq<byte>): (r: Option<Row>)
    ensures r.Some? ==> r.value in rows && r.value.hash == hash
    ensures r.None? ==> forall i :: 0 <= i < |rows| ==> rows[i].hash != hash
  {
    if rows == [] then None else if rows[0].hash == hash then Some(rows[0]) else RowOf(rows[1..], hash)
  }

  /** WHERE height=? ORDER BY rowid ASC LIMIT 1 */
  function FirstAt(rows: seq<Row>, height: int): (r: Option<Row>)
    ensures r.Some? ==> r.value in rows && r.value.height == height
  {
    if rows == [] then None else if rows[0].height == height then Some(rows[0]) else FirstAt(rows[1..], height)
  }

  function Without(rows: seq<Row>, hash: seq<byte>): (r: seq<Row>)
    ensures forall row :: row in r <==> row in rows && row.hash != hash
  {
    if rows == [] then [] else (if rows[0].hash == hash then [] else [rows[0]]) + Without(rows[1..], hash)
  }

  /** INSERT OR REPLACE: a replaced row gets a new rowid, after all others. */
  function Stored(rows: seq<Row>, row: Row): seq<Row> {
    Without(rows, row.hash) + [row]
  }

  // ----- Validation -----

  predicate HeaderPacks(header: Header) {
    FitsU32(header.version) && FitsU32(header.timestamp) && FitsU32(header.bits) && FitsU32(header.nonce)
  }

  function HeaderBytes(header: Header): seq<byte>
    requires HeaderPacks(header)
  {
    U32(header.version) + Reverse(header.prevHash) + Reverse(header.merkleRoot)
    + U32(header.timestamp) + U32(header.bits) + U32(header.nonce)
  }

  function BlockHash(env: Env, header: Header): seq<byte>
    requires HeaderPacks(header)
  {
    env.hash(HeaderBytes(header))
  }

  /** A transaction without an id is given one, which may raise. */
  predicate Nameable(tx: Transaction) {
    tx.txid != [] || Packs(tx)
  }

  function Named(env: Env, tx: Transaction): (r: Transaction)
    requires Nameable(tx)
    ensures r.txid != [] && r == tx.(txid := r.txid)
  {
    if tx.txid != [] then tx else tx.(txid := env.hash(Serialized(tx)))
  }

  predicate AllNameable(txs: seq<Transaction>) {
    forall i :: 0 <= i < |txs| ==> Nameable(txs[i])
  }

  function NamedAll(env: Env, txs: seq<Transaction>): (r: seq<Transaction>)
    requires AllNameable(txs)
    ensures |r| == |txs| && forall i :: 0 <= i < |txs| ==> r[i] == Named(env, txs[i])
  {
    seq(|txs|, i requires 0 <= i < |txs| => Named(env, txs[i]))
  }

  function Ids(txs: seq<Transaction>): (r: seq<seq<byte>>)
    ensures |r| == |txs|
  {
    seq(|txs|, i requires 0 <= i < |txs| => txs[i].txid)
  }

  /** The tip's row exists and the block names another predecessor. */
  predicate Misplaced(s: State, prevHash: seq<byte>) {
    s.tip.Some? && RowOf(s.rows, s.tip.value).Some? && prevHash != s.tip.value
  }

  /** What validate_block leaves in a block that passes, its row and the transactions with their ids; that
      the block fails; or that the call raises */
  datatype Verdict = Passed(row: Row, txs: seq<Transaction>) | Failed | Raises

  /** validate_block, its checks in its order */
  function Validated(env: Env, now: int, s: State, block: Block): Verdict {
    var header, txs := block.header, block.transactions;
    if !HeaderPacks(header) then Raises
    else if !IsBelowTarget(FromBig(BlockHash(env, header)), header.bits) then Failed
    else if MAX_BLOCK_SIZE_BYTES < env.size(txs) then Failed
    else if !AllNameable(txs) then Raises
    else if Merkle.MerkleRoot(env.hash, Ids(NamedAll(env, txs))) != header.merkleRoot then Failed
    else if now + 7200 < header.timestamp then Failed
    else if Misplaced(s, header.prevHash) then Failed
    else if txs == [] || !txs[0].isCoinbase then Failed
    else Passed(Row(BlockHash(env, header), header.height, header.timestamp, header.bits), NamedAll(env, txs))
  }

  // ----- Application -----

  /** apply_block after the verdict. The UTXO set keeps whatever was done to it; the chain's own tables and
      fields change only when nothing raised, the height of the block's row included. */
  function Applied(s: State, verdict: Verdict): (State, Outcome<bool>) {
    match verdict
    case Raises => (s, Raised)
    case Failed => (s, Returned(false))
    case Passed(row, txs) =>
      var log := BlockLog(s.utxos, txs, row.height);
      var utxos, saved := Replay(s.utxos, log.0), Saved(s.saved, s.utxos, log.0);
      if log.1 && FitsI64(row.height) then
        (State(utxos, saved, Stored(s.rows, row), Some(row.hash), row.height), Returned(true))
      else (s.(utxos := utxos, saved := saved), Returned(false))
  }

  /** The state an object has that opens a database with these tables */
  function Loaded(utxos: Utxos, rows: seq<Row>, savedTip: Option<seq<byte>>): State {
    var height :=
      if savedTip.Some? && RowOf(rows, savedTip.value).Some? then RowOf(rows, savedTip.value).value.height else -1;
    State(utxos, utxos, rows, savedTip, height)
  }

  // ----- Difficulty -----

  function TipRow(rows: seq<Row>, tip: Option<seq<byte>>): Option<Row> {
    if tip.Some? then RowOf(rows, tip.value) else None
  }

  /** The retarget from the first row of a period and the tip's */
  function RetargetedFrom(past: Row, tipRow: Row): Outcome<nat> {
    Retargeted(past.bits, tipRow.timestamp - past.timestamp)
  }

  /** get_next_bits */
  function NextBits(rows: seq<Row>, tip: Option<seq<byte>>, height: int): Outcome<nat> {
    var tipRow := TipRow(rows, tip);
    if height < DIFFICULTY_ADJUSTMENT_BLOCKS then Returned(GENESIS_BITS)
    else if height % DIFFICULTY_ADJUSTMENT_BLOCKS != 0 then
      Returned(if tipRow.Some? then tipRow.value.bits else GENESIS_BITS)
    else
      var past := FirstAt(rows, height - DIFFICULTY_ADJUSTMENT_BLOCKS);
      if past.None? || tipRow.None? then Returned(GENESIS_BITS)
      else RetargetedFrom(past.value, tipRow.value)
  }

  class Blockchain {
    const env: Env
    const utxoSet: UtxoSet
    var rows: seq<Row>
    var savedTip: Option<seq<byte>>
    var chainTip: Option<seq<byte>>
    var height: int

    ghost function Contents(): State
      reads this, utxoSet
    {
      State(utxoSet.table, utxoSet.saved, rows, chainTip, height)
    }

    /** chain_meta holds the tip that the object holds. */
    ghost predicate Valid()
      reads this
    {
      savedTip == chainTip
    }

    /** Opens a database; a new one has empty tables. */
    constructor (env: Env, utxoSet: UtxoSet, rows: seq<Row>, savedTip: Option<seq<byte>>)
      requires utxoSet.table == utxoSet.saved
      ensures Valid() && this.env == env && this.utxoSet == utxoSet
      ensures Contents() == Loaded(utxoSet.table, rows, savedTip)
    {
      this.env, this.utxoSet, this.rows, this.savedTip := env, utxoSet, rows, savedTip;
      chainTip := savedTip;
      height := -1;
      if savedTip.Some? {
        var row := RowOf(rows, savedTip.value);
        if row.Some? {
          height := row.value.height;
        }
      }
    }

    /** Gives ids to the transactions without one; None when an encoding raises. */
    method NameTransactions(txs: seq<Transaction>) returns (r: Option<seq<Transaction>>)
      ensures r.Some? <==> AllNameable(txs)
      ensures r.Some? ==> r.value == NamedAll(env, txs)
    {
      var named: seq<Transaction> := txs;
      for k := 0 to |txs|
        invariant |named| == |txs| && AllNameable(txs[..k])
        invariant forall i :: 0 <= i < k ==> Nameable(txs[i]) && named[i] == Named(env, txs[i])
        invariant forall i :: k <= i < |txs| ==> named[i] == txs[i]
      {
        if named[k].txid == [] {
          var bytes := SerializeForSigning(named[k]);
          if bytes == None {
            return None;
          }
          named := named[k := named[k].(txid := env.hash(bytes.value))];
        }
      }
      return Some(named);
    }

    method ValidateBlock(block: Block, now: int) returns (verdict: Verdict)
      ensures verdict == Validated(env, now, Contents(), block)
    {
      var header := block.header;
      if !HeaderPacks(header) {
        return Raises;
      }
      var hash := env.hash(HeaderBytes(header));
      if !IsBelowTarget(FromBig(hash), header.bits) {
        return Failed;
      }
      if env.size(block.transactions) > MAX_BLOCK_SIZE_BYTES {
        return Failed;
      }
      var named := NameTransactions(block.transactions);
      if named == None {
        return Raises;
      }
      var txs := named.value;
      var computedRoot := Merkle.ComputeMerkleRoot(env.hash, Ids(txs));
      if computedRoot != header.merkleRoot {
        return Failed;
      }
      if header.timestamp > now + 7200 {
        return Failed;
      }
      if chainTip.Some? {
        var prev := RowOf(rows, chainTip.value);
        if prev.Some? && header.prevHash != prev.value.hash {
          return Failed;
        }
      }
      if txs == [] || !txs[0].isCoinbase {
        return Failed;
      }
      return Passed(Row(hash, header.height, header.timestamp, header.bits), txs);
    }

    method ApplyBlock(block: Block, now: int) returns (r: Outcome<bool>)
      requires Valid()
      modifies this, utxoSet
      ensures Valid()
      ensures (Contents(), r) == Applied(old(Contents()), Validated(env, now, old(Contents()), block))
    {
      var verdict := ValidateBlock(block, now);
      match verdict
      case Raises => r := Raised;
      case Failed => r := Returned(false);
      case Passed(row, txs) =>
        var ok := utxoSet.ApplyTransactions(txs, row.height);
        ok := ok && FitsI64(row.height);
        if ok {
          rows := Stored(rows, row);
          savedTip := Some(row.hash);
          chainTip, height := Some(row.hash), row.height;
        }
        r := Returned(ok);
    }

    method GetNextBits() returns (r: Outcome<nat>)
      ensures r == NextBits(rows, chainTip, height)
    {
      if height < DIFFICULTY_ADJUSTMENT_BLOCKS {
        return Returned(GENESIS_BITS);
      }
      var tipRow: Option<Row> := None;
      if chainTip.Some? {
        tipRow := RowOf(rows, chainTip.value);
      }
      if height % DIFFICULTY_ADJUSTMENT_BLOCKS != 0 {
        return Returned(if tipRow.Some? then tipRow.value.bits else GENESIS_BITS);
      }
      var pastRow := FirstAt(rows, height - DIFFICULTY_ADJUSTMENT_BLOCKS);
      if pastRow.None? || tipRow.None? {
        return Returned(GENESIS_BITS);
      }
      return Retargeted(pastRow.value.bits, tipRow.value.timestamp - pastRow.value.timestamp);
    }
  }
}
