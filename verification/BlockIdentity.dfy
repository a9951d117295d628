/** What the hash of a block that passes validation determines about it, and what it does not: everything when
    the transactions come without ids, and no more than the ids when they come with them. */
module BlockIdentity {
  import opened Bytes
  import opened Transactions
  import opened Chain
  import Merkle

  /** Hashes have 32 bytes. */
  predicate Sized(header: Header) {
    |header.prevHash| == 32 && |header.merkleRoot| == 32
  }

  lemma PeelU32(m: int, r: seq<byte>, n: int, s: seq<byte>)
    requires FitsU32(m) && FitsU32(n) && U32(m) + r == U32(n) + s
    ensures m == n && r == s
  {
    Peel(U32(m), r, U32(n), s);
    U32Injective(m, n);
  }

  lemma {:induction false} PeelReversed(a: seq<byte>, r: seq<byte>, b: seq<byte>, s: seq<byte>)
    requires |a| == |b| && Reverse(a) + r == Reverse(b) + s
    ensures a == b && r == s
  {
    Peel(Reverse(a), r, Reverse(b), s);
    ReverseInjective(a, b);
  }

  /** What follows the two hashes in the encoding */
  function Tail(header: Header): seq<byte>
    requires HeaderPacks(header)
  {
    U32(header.timestamp) + (U32(header.bits) + (U32(header.nonce) + []))
  }

  lemma Grouped(header: Header)
    requires HeaderPacks(header)
    ensures HeaderBytes(header)
         == U32(header.version) + (Reverse(header.prevHash) + (Reverse(header.merkleRoot) + Tail(header)))
  {}

  lemma TailInjective(g: Header, h: Header)
    requires HeaderPacks(g) && HeaderPacks(h) && Tail(g) == Tail(h)
    ensures g.timestamp == h.timestamp && g.bits == h.bits && g.nonce == h.nonce
  {
    PeelU32(g.timestamp, U32(g.bits) + (U32(g.nonce) + []), h.timestamp, U32(h.bits) + (U32(h.nonce) + []));
    PeelU32(g.bits, U32(g.nonce) + [], h.bits, U32(h.nonce) + []);
    PeelU32(g.nonce, [], h.nonce, []);
  }

  lemma SixParts(a: seq<byte>, b: seq<byte>, c: seq<byte>, d: seq<byte>, e: seq<byte>, f: seq<byte>)
    requires |a| == |d| == |e| == |f| == 4 && |b| == |c| == 32
    ensures var s := a + b + c + d + e + f;
      && |s| == 80 && s[..4] == a && s[4..36] == b && s[36..68] == c && s[68..72] == d && s[72..76] == e && s[76..] == f
  {}

  /** 80 bytes: version, previous hash in reverse, Merkle root in reverse, timestamp, bits, nonce */
  lemma {:induction false} HeaderLayout(header: Header)
    requires HeaderPacks(header) && Sized(header)
    ensures var b := HeaderBytes(header);
      && |b| == 80
      && b[..4] == U32(header.version) && b[4..36] == Reverse(header.prevHash)
      && b[36..68] == Reverse(header.merkleRoot) && b[68..72] == U32(header.timestamp)
      && b[72..76] == U32(header.bits) && b[76..] == U32(header.nonce)
  {
    SixParts(U32(header.version), Reverse(header.prevHash), Reverse(header.merkleRoot), U32(header.timestamp),
             U32(header.bits), U32(header.nonce));
  }

  /** The encoding of a header determines every field but the height. */
  lemma HeaderInjective(g: Header, h: Header)
    requires HeaderPacks(g) && HeaderPacks(h) && Sized(g) && Sized(h)
    requires HeaderBytes(g) == HeaderBytes(h)
    ensures g == h.(height := g.height)
  {
    Grouped(g);
    Grouped(h);
    PeelU32(g.version, Reverse(g.prevHash) + (Reverse(g.merkleRoot) + Tail(g)),
            h.version, Reverse(h.prevHash) + (Reverse(h.merkleRoot) + Tail(h)));
    PeelReversed(g.prevHash, Reverse(g.merkleRoot) + Tail(g), h.prevHash, Reverse(h.merkleRoot) + Tail(h));
    PeelReversed(g.merkleRoot, Tail(g), h.merkleRoot, Tail(h));
    TailInjective(g, h);
  }

  /** The hash does not collide on the strings that two blocks feed into it. */
  ghost predicate NoCollision(env: Env, a: Block, b: Block)
    requires HeaderPacks(a.header) && HeaderPacks(b.header)
    requires AllNameable(a.transactions) && AllNameable(b.transactions) && |a.transactions| == |b.transactions|
  {
    && (BlockHash(env, a.header) == BlockHash(env, b.header) ==> HeaderBytes(a.header) == HeaderBytes(b.header))
    && Merkle.NoCollision(env.hash, Merkle.Leaves(Ids(NamedAll(env, a.transactions))),
                          Merkle.Leaves(Ids(NamedAll(env, b.transactions))))
  }

  lemma PassedHasRoot(env: Env, now: int, s: State, block: Block)
    requires Validated(env, now, s, block).Passed?
    ensures HeaderPacks(block.header) && AllNameable(block.transactions)
    ensures Validated(env, now, s, block).row.hash == BlockHash(env, block.header)
    ensures Validated(env, now, s, block).txs == NamedAll(env, block.transactions)
    ensures block.header.merkleRoot == Merkle.MerkleRoot(env.hash, Ids(NamedAll(env, block.transactions)))
  {}

  /** Two blocks that pass, wherever and whenever, with one hash and one number of transactions have the same
      header but for the height and the same transaction ids. */
  lemma HashBindsBlock(env: Env, now: int, s: State, a: Block, now': int, s': State, b: Block)
    requires Validated(env, now, s, a).Passed? && Validated(env, now', s', b).Passed?
    requires Validated(env, now, s, a).row.hash == Validated(env, now', s', b).row.hash
    requires Sized(a.header) && Sized(b.header) && |a.transactions| == |b.transactions|
    requires Merkle.Sized(Ids(Validated(env, now, s, a).txs)) && Merkle.Sized(Ids(Validated(env, now', s', b).txs))
    requires HeaderPacks(a.header) && HeaderPacks(b.header)
    requires AllNameable(a.transactions) && AllNameable(b.transactions) && NoCollision(env, a, b)
    ensures a.header == b.header.(height := a.header.height)
    ensures Ids(Validated(env, now, s, a).txs) == Ids(Validated(env, now', s', b).txs)
  {
    PassedHasRoot(env, now, s, a);
    PassedHasRoot(env, now', s', b);
    HeaderInjective(a.header, b.header);
    Merkle.RootBinds(env.hash, Ids(NamedAll(env, a.transactions)), Ids(NamedAll(env, b.transactions)));
  }

  /** The height is neither hashed nor checked: a block that passes does so with any height, under one hash. */
  lemma HeightIsFree(env: Env, now: int, s: State, block: Block, height: int)
    requires Validated(env, now, s, block).Passed?
    ensures var other := block.(header := block.header.(height := height));
            Validated(env, now, s, other)
            == Passed(Validated(env, now, s, block).row.(height := height), Validated(env, now, s, block).txs)
  {
    assert HeaderBytes(block.header.(height := height)) == HeaderBytes(block.header);
  }

  /** Ids that come with the transactions are never recomputed: a block that passes does so with any other
      inputs, outputs and amounts under the same ids, with the same row. */
  lemma {:induction false} BodiesAreFree(env: Env, now: int, s: State, block: Block, others: seq<Transaction>)
    requires Validated(env, now, s, block).Passed?
    requires others != [] && others[0].isCoinbase && env.size(others) <= MAX_BLOCK_SIZE_BYTES
    requires forall i :: 0 <= i < |others| ==> others[i].txid != []
    requires Ids(others) == Ids(Validated(env, now, s, block).txs)
    ensures Validated(env, now, s, block.(transactions := others))
         == Passed(Validated(env, now, s, block).row, others)
  {
    PassedHasRoot(env, now, s, block);
    assert AllNameable(others) && NamedAll(env, others) == others;
  }

  /** No ids come with the transactions. */
  predicate Unnamed(txs: seq<Transaction>) {
    forall i :: 0 <= i < |txs| ==> txs[i].txid == []
  }

  /** The fields of a transaction that its id commits to */
  predicate SameBody(t: Transaction, u: Transaction) {
    && t.version == u.version && t.locktime == u.locktime
    && |t.inputs| == |u.inputs| && (forall i :: 0 <= i < |t.inputs| ==> SameInput(t.inputs[i], u.inputs[i]))
    && |t.outputs| == |u.outputs| && (forall i :: 0 <= i < |t.outputs| ==> SameOutput(t.outputs[i], u.outputs[i]))
  }

  /** The hash does not collide on the encodings of two transactions. */
  ghost predicate NoIdCollision(env: Env, t: Transaction, u: Transaction)
    requires Packs(t) && Packs(u)
  {
    env.hash(Serialized(t)) == env.hash(Serialized(u)) ==> Serialized(t) == Serialized(u)
  }

  lemma {:induction false} IdBindsBody(env: Env, t: Transaction, u: Transaction)
    requires t.txid == [] && u.txid == [] && Packs(t) && Packs(u)
    requires AllPrevSized(t.inputs) && AllPrevSized(u.inputs) && NoIdCollision(env, t, u)
    requires Named(env, t).txid == Named(env, u).txid
    ensures SameBody(t, u)
  {
    SerializedInjective(t, u);
  }

  /** When no ids come with the transactions, the hash determines their bodies too. */
  lemma {:induction false} HashBindsBodies(env: Env, now: int, s: State, a: Block, now': int, s': State, b: Block)
    requires Validated(env, now, s, a).Passed? && Validated(env, now', s', b).Passed?
    requires Validated(env, now, s, a).row.hash == Validated(env, now', s', b).row.hash
    requires Sized(a.header) && Sized(b.header) && |a.transactions| == |b.transactions|
    requires HeaderPacks(a.header) && HeaderPacks(b.header)
    requires AllNameable(a.transactions) && AllNameable(b.transactions) && NoCollision(env, a, b)
    requires Unnamed(a.transactions) && Unnamed(b.transactions)
    requires forall i {:trigger a.transactions[i]} :: 0 <= i < |a.transactions| ==>
      && AllPrevSized(a.transactions[i].inputs) && AllPrevSized(b.transactions[i].inputs)
      && NoIdCollision(env, a.transactions[i], b.transactions[i])
    ensures forall i :: 0 <= i < |a.transactions| ==> SameBody(a.transactions[i], b.transactions[i])
  {
    var ts, us := NamedAll(env, a.transactions), NamedAll(env, b.transactions);
    PassedHasRoot(env, now, s, a);
    PassedHasRoot(env, now', s', b);
    IdsAreDigests(env, a.transactions);
    IdsAreDigests(env, b.transactions);
    HashBindsBlock(env, now, s, a, now', s', b);
    forall i | 0 <= i < |a.transactions|
      ensures SameBody(a.transactions[i], b.transactions[i])
    {
      assert Ids(ts)[i] == Ids(us)[i];
      IdBindsBody(env, a.transactions[i], b.transactions[i]);
    }
  }

  lemma {:induction false} IdsAreDigests(env: Env, txs: seq<Transaction>)
    requires AllNameable(txs) && Unnamed(txs)
    ensures Merkle.Sized(Ids(NamedAll(env, txs)))
  {
    forall i | 0 <= i < |txs|
      ensures |Ids(NamedAll(env, txs))[i]| == 32
    {
      assert txs[i].txid == [];
    }
  }
}
