/** The Merkle root of a block: the pairing loop, the tree it computes, and what a root determines. */
module Merkle {
  import opened Arithmetic
  import opened Bytes

  // ----- The tree, from the root down -----

  /** The number of nodes k levels above n leaves */
  function Width(n: nat, k: nat): nat {
    if k == 0 then n else (Width(n, k - 1) + 1) / 2
  }

  /** The level at which one node is left */
  function Depth(n: nat): nat
    requires 1 <= n
  {
    if n == 1 then 0 else 1 + Depth((n + 1) / 2)
  }

  /** The right child; a node without one has its left child twice. */
  function RightChild(n: nat, k: nat, i: nat): nat {
    if 2 * i + 1 < Width(n, k) then 2 * i + 1 else 2 * i
  }

  function Node(h: Hash, leaves: seq<seq<byte>>, k: nat, i: nat): seq<byte>
    requires i < Width(|leaves|, k)
    decreases k, 1
  {
    if k == 0 then leaves[i] else h(Preimage(h, leaves, k, i))
  }

  /** What is hashed at an inner node */
  function Preimage(h: Hash, leaves: seq<seq<byte>>, k: nat, i: nat): seq<byte>
    requires 1 <= k && i < Width(|leaves|, k)
    decreases k, 0
  {
    Node(h, leaves, k - 1, 2 * i) + Node(h, leaves, k - 1, RightChild(|leaves|, k - 1, i))
  }

  lemma {:induction false} WidthShift(n: nat, k: nat)
    ensures Width(n, k + 1) == Width((n + 1) / 2, k)
  {
    if k != 0 {
      WidthShift(n, k - 1);
    }
  }

  lemma {:induction false} WidthAtDepth(n: nat)
    requires 1 <= n
    ensures Width(n, Depth(n)) == 1
  {
    if n != 1 {
      WidthAtDepth((n + 1) / 2);
      WidthShift(n, Depth(n) - 1);
    }
  }

  function TreeRoot(h: Hash, leaves: seq<seq<byte>>): seq<byte>
    requires leaves != []
  {
    WidthAtDepth(|leaves|);
    Node(h, leaves, Depth(|leaves|), 0)
  }

  /** Transaction ids enter in reverse byte order and the root leaves in it. */
  function Leaves(txids: seq<seq<byte>>): (r: seq<seq<byte>>)
    ensures |r| == |txids|
  {
    seq(|txids|, i requires 0 <= i < |txids| => Reverse(txids[i]))
  }

  function MerkleRoot(h: Hash, txids: seq<seq<byte>>): seq<byte> {
    if txids == [] then seq(32, _ => 0) else Reverse(TreeRoot(h, Leaves(txids)))
  }

  /** The nodes of level k, left to right */
  ghost predicate IsLevel(h: Hash, leaves: seq<seq<byte>>, k: nat, level: seq<seq<byte>>) {
    |level| == Width(|leaves|, k) && forall i :: 0 <= i < |level| ==> level[i] == Node(h, leaves, k, i)
  }

  function Padded(level: seq<seq<byte>>): (r: seq<seq<byte>>)
    ensures |r| % 2 == 0
  {
    if |level| % 2 == 1 then level + [level[|level| - 1]] else level
  }

  function Paired(h: Hash, level: seq<seq<byte>>): seq<seq<byte>> {
    seq(|level| / 2, i requires 0 <= i < |level| / 2 => h(level[2 * i] + level[2 * i + 1]))
  }

  lemma LevelUp(h: Hash, leaves: seq<seq<byte>>, k: nat, level: seq<seq<byte>>)
    requires IsLevel(h, leaves, k, level)
    ensures IsLevel(h, leaves, k + 1, Paired(h, Padded(level)))
  {
    var padded, next := Padded(level), Paired(h, Padded(level));
    forall i | 0 <= i < |next|
      ensures next[i] == Node(h, leaves, k + 1, i)
    {
      assert padded[2 * i] == level[2 * i];
      assert padded[2 * i + 1] == level[RightChild(|leaves|, k, i)];
    }
  }

  /** The loop of compute_merkle_root, which rewrites the list level by level. */
  method ComputeMerkleRoot(h: Hash, txids: seq<seq<byte>>) returns (root: seq<byte>)
    ensures root == MerkleRoot(h, txids)
  {
    if txids == [] {
      return seq(32, _ => 0);
    }
    var level := Leaves(txids);
    ghost var leaves := level;
    ghost var k := 0;
    while |level| > 1
      invariant 1 <= |level| && IsLevel(h, leaves, k, level)
      invariant Depth(|leaves|) == k + Depth(|level|)
      decreases |level|
    {
      LevelUp(h, leaves, k, level);
      if |level| % 2 == 1 {
        level := level + [level[|level| - 1]];
      }
      level := Paired(h, level);
      k := k + 1;
    }
    return Reverse(level[0]);
  }

  // ----- The root, level by level -----


  lemma {:induction false} NodeOfPairs(h: Hash, leaves: seq<seq<byte>>, next: seq<seq<byte>>, k: nat, i: nat)
    requires |next| == (|leaves| + 1) / 2 && i < Width(|leaves|, k + 1)
    requires forall j {:trigger next[j]} :: 0 <= j < |next| ==>
      next[j] == h(leaves[2 * j] + (if 2 * j + 1 < |leaves| then leaves[2 * j + 1] else leaves[2 * j]))
    ensures i < Width(|next|, k) && Node(h, leaves, k + 1, i) == Node(h, next, k, i)
    decreases k
  {
    WidthShift(|leaves|, k);
    if k != 0 {
      WidthShift(|leaves|, k - 1);
      NodeOfPairs(h, leaves, next, k - 1, 2 * i);
      NodeOfPairs(h, leaves, next, k - 1, RightChild(|leaves|, k, i));
      assert RightChild(|leaves|, k, i) == RightChild(|next|, k - 1, i);
      assert Preimage(h, leaves, k + 1, i) == Preimage(h, next, k, i);
    } else {
      assert Preimage(h, leaves, 1, i)
          == leaves[2 * i] + (if 2 * i + 1 < |leaves| then leaves[2 * i + 1] else leaves[2 * i]);
    }
  }

  /** One level: the hashes of neighbours, the last without one beside itself, have the same root. */
  lemma {:induction false} RootOfPairs(h: Hash, leaves: seq<seq<byte>>, next: seq<seq<byte>>)
    requires 2 <= |leaves| && |next| == (|leaves| + 1) / 2
    requires forall j {:trigger next[j]} :: 0 <= j < |next| ==>
      next[j] == h(leaves[2 * j] + (if 2 * j + 1 < |leaves| then leaves[2 * j + 1] else leaves[2 * j]))
    ensures TreeRoot(h, leaves) == TreeRoot(h, next)
  {
    WidthAtDepth(|leaves|);
    WidthAtDepth(|next|);
    NodeOfPairs(h, leaves, next, Depth(|next|), 0);
  }

  /** No ids give zeros, one is its own root, and of more the root is that of the reversed ids, reversed. */
  lemma {:induction false} RootExactly(h: Hash, ids: seq<seq<byte>>)
    ensures |MerkleRoot(h, [])| == 32 && forall i :: 0 <= i < 32 ==> MerkleRoot(h, [])[i] == 0
    ensures |ids| == 1 ==> MerkleRoot(h, ids) == ids[0]
    ensures |ids| == 2 ==> MerkleRoot(h, ids) == Reverse(h(Reverse(ids[0]) + Reverse(ids[1])))
    ensures ids != [] ==>
              MerkleRoot(h, ids) == Reverse(TreeRoot(h, seq(|ids|, i requires 0 <= i < |ids| => Reverse(ids[i]))))
  {
    if |ids| == 1 {
      assert Reverse(Reverse(ids[0])) == ids[0];
    } else if |ids| == 2 {
      var leaves := Leaves(ids);
      RootOfPairs(h, leaves, [h(leaves[0] + leaves[1])]);
    }
  }

  // ----- Binding -----

  /** Two different strings hashed at the same place of the two trees, with one hash */
  ghost predicate CollisionAt(h: Hash, a: seq<seq<byte>>, b: seq<seq<byte>>, k: nat, i: nat)
    requires |a| == |b|
  {
    1 <= k && i < Width(|a|, k)
    && Preimage(h, a, k, i) != Preimage(h, b, k, i) && h(Preimage(h, a, k, i)) == h(Preimage(h, b, k, i))
  }

  ghost predicate NoCollision(h: Hash, a: seq<seq<byte>>, b: seq<seq<byte>>)
    requires |a| == |b|
  {
    forall k: nat, i: nat :: !CollisionAt(h, a, b, k, i)
  }

  ghost predicate Sized(leaves: seq<seq<byte>>) {
    forall i :: 0 <= i < |leaves| ==> |leaves[i]| == 32
  }

  lemma {:induction false} NodeSized(h: Hash, leaves: seq<seq<byte>>, k: nat, i: nat)
    requires Sized(leaves) && i < Width(|leaves|, k)
    ensures |Node(h, leaves, k, i)| == 32
  {}

  /** Equal inner nodes have equal children. */
  lemma {:induction false} ChildrenEqual(h: Hash, a: seq<seq<byte>>, b: seq<seq<byte>>, k: nat, i: nat)
    requires Sized(a) && Sized(b) && |a| == |b| && 1 <= k && i < Width(|a|, k)
    requires NoCollision(h, a, b) && Node(h, a, k, i) == Node(h, b, k, i)
    ensures Node(h, a, k - 1, 2 * i) == Node(h, b, k - 1, 2 * i)
    ensures var j := RightChild(|a|, k - 1, i); Node(h, a, k - 1, j) == Node(h, b, k - 1, j)
  {
    var j := RightChild(|a|, k - 1, i);
    assert !CollisionAt(h, a, b, k, i);
    NodeSized(h, a, k - 1, 2 * i);
    NodeSized(h, b, k - 1, 2 * i);
    var x, y := Preimage(h, a, k, i), Preimage(h, b, k, i);
    assert x[..32] == Node(h, a, k - 1, 2 * i) && y[..32] == Node(h, b, k - 1, 2 * i);
    assert x[32..] == Node(h, a, k - 1, j) && y[32..] == Node(h, b, k - 1, j);
  }

  /** The leaf below node i of level k on the path to it */
  lemma {:induction false} LeafBelow(n: nat, k: nat, j: nat)
    requires j < n
    ensures j / Pow(2, k) < Width(n, k)
  {
    if k != 0 {
      LeafBelow(n, k - 1, j);
      DivDiv(j, Pow(2, k - 1), 2);
      assert Pow(2, k) == Pow(2, k - 1) * 2;
    } else {
      assert j / Pow(2, 0) == j;
    }
  }

  /** Equality of a node goes down to every leaf below it. */
  lemma {:induction false} LeafEqual(h: Hash, a: seq<seq<byte>>, b: seq<seq<byte>>, k: nat, j: nat)
    requires Sized(a) && Sized(b) && |a| == |b| && j < |a| && NoCollision(h, a, b)
    requires j / Pow(2, k) < Width(|a|, k)
    requires Node(h, a, k, j / Pow(2, k)) == Node(h, b, k, j / Pow(2, k))
    ensures a[j] == b[j]
  {
    if k == 0 {
      assert j / Pow(2, 0) == j;
    } else {
      var i, c := j / Pow(2, k), j / Pow(2, k - 1);
      DivDiv(j, Pow(2, k - 1), 2);
      assert Pow(2, k) == Pow(2, k - 1) * 2;
      assert c == 2 * i || c == 2 * i + 1;
      LeafBelow(|a|, k - 1, j);
      ChildrenEqual(h, a, b, k, i);
      LeafEqual(h, a, b, k - 1, j);
    }
  }

  lemma {:induction false} DepthCovers(n: nat)
    requires 1 <= n
    ensures n <= Pow(2, Depth(n))
  {
    if n != 1 {
      DepthCovers((n + 1) / 2);
    }
  }

  /** Lists of one length with one root are equal, or a collision of the hash lies at some node. */
  lemma RootBinds(h: Hash, s: seq<seq<byte>>, t: seq<seq<byte>>)
    requires |s| == |t| && Sized(s) && Sized(t)
    requires NoCollision(h, Leaves(s), Leaves(t))
    requires MerkleRoot(h, s) == MerkleRoot(h, t)
    ensures s == t
  {
    if s != [] {
      var a, b := Leaves(s), Leaves(t);
      var d := Depth(|a|);
      ReverseInjective(TreeRoot(h, a), TreeRoot(h, b));
      DepthCovers(|a|);
      WidthAtDepth(|a|);
      forall j | 0 <= j < |s|
        ensures s[j] == t[j]
      {
        ModSmall(j, Pow(2, d));
        LeafEqual(h, a, b, d, j);
        ReverseInjective(s[j], t[j]);
      }
    }
  }

  // ----- Lists of different lengths -----

  lemma {:induction false} SameWidths(n: nat, k: nat)
    requires n % 2 == 1
    ensures Width(n + 1, k + 1) == Width(n, k + 1)
  {
    if k != 0 {
      SameWidths(n, k - 1);
    }
  }

  lemma {:induction false} SameNodes(h: Hash, a: seq<seq<byte>>, k: nat, i: nat)
    requires |a| % 2 == 1 && i < Width(|a|, k + 1)
    ensures i < Width(|a| + 1, k + 1)
    ensures Node(h, a + [a[|a| - 1]], k + 1, i) == Node(h, a, k + 1, i)
    decreases k
  {
    var b := a + [a[|a| - 1]];
    SameWidths(|a|, k);
    if k != 0 {
      SameWidths(|a|, k - 1);
      var j := RightChild(|a|, k, i);
      SameNodes(h, a, k - 1, 2 * i);
      SameNodes(h, a, k - 1, j);
      assert Preimage(h, b, k + 1, i) == Preimage(h, a, k + 1, i);
    } else {
      assert Preimage(h, b, 1, i) == Preimage(h, a, 1, i);
    }
  }

  /** The length is not bound: repeating the last of an odd number of ids, above one, keeps the root. */
  lemma RepeatedLastSameRoot(h: Hash, s: seq<seq<byte>>)
    requires |s| % 2 == 1 && 1 < |s|
    ensures MerkleRoot(h, s + [s[|s| - 1]]) == MerkleRoot(h, s)
  {
    var a := Leaves(s);
    var d := Depth(|a|);
    assert Leaves(s + [s[|s| - 1]]) == a + [a[|a| - 1]];
    WidthAtDepth(|a|);
    assert (|a| + 1 + 1) / 2 == (|a| + 1) / 2;
    SameNodes(h, a, d - 1, 0);
  }
}
