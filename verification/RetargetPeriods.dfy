/** The difficulty of a chain of template blocks: from which bits each period is retargeted. */
module RetargetPeriods {
  import opened Arithmetic
  import opened Bytes
  import opened Difficulty
  import opened Chain
  import opened ChainRuns
  import opened Wrappers

  /** What the chain asks for when its first h blocks are there */
  function BitsAfter(rows: seq<Row>, h: nat): Outcome<nat>
    requires 1 <= h <= |rows|
  {
    NextBits(rows[..h], Some(rows[h - 1].hash), h - 1)
  }

  /** Blocks stored at consecutive heights, each after the first with the bits that the chain asked for */
  predicate Templates(rows: seq<Row>) {
    && DistinctHashes(rows)
    && (forall h :: 0 <= h < |rows| ==> rows[h].height == h)
    && (forall h {:trigger AskedFor(rows, h)} :: 1 <= h < |rows| ==> AskedFor(rows, h))
  }

  predicate AskedFor(rows: seq<Row>, h: nat)
    requires 1 <= h < |rows|
  {
    BitsAfter(rows, h) == Returned(rows[h].bits)
  }

  lemma {:induction false} FirstAtIndex(rows: seq<Row>, start: nat, h: nat)
    requires start <= h < start + |rows| && forall i :: 0 <= i < |rows| ==> rows[i].height == start + i
    ensures FirstAt(rows, h) == Some(rows[h - start])
  {
    if start != h {
      FirstAtIndex(rows[1..], start + 1, h);
    }
  }

  lemma PrefixTip(rows: seq<Row>, h: nat)
    requires DistinctHashes(rows) && 1 <= h <= |rows|
    ensures TipRow(rows[..h], Some(rows[h - 1].hash)) == Some(rows[h - 1])
  {
    RowOfLast(rows[..h - 1], rows[h - 1]);
    assert rows[..h - 1] + [rows[h - 1]] == rows[..h];
  }

  lemma HeightInPeriod(k: nat, j: nat)
    requires j < DIFFICULTY_ADJUSTMENT_BLOCKS
    ensures (DIFFICULTY_ADJUSTMENT_BLOCKS * k + j) % DIFFICULTY_ADJUSTMENT_BLOCKS == j
  {
    DivModUnique(DIFFICULTY_ADJUSTMENT_BLOCKS * k + j, DIFFICULTY_ADJUSTMENT_BLOCKS, k, j);
  }

  lemma {:induction false} PrefixRows(rows: seq<Row>, start: nat, end: nat)
    requires Templates(rows) && start <= end < |rows|
    ensures FirstAt(rows[..end + 1], start) == Some(rows[start])
    ensures TipRow(rows[..end + 1], Some(rows[end].hash)) == Some(rows[end])
  {
    PrefixTip(rows, end + 1);
    FirstAtIndex(rows[..end + 1], 0, start);
  }

  lemma {:induction false} BitsAtBoundary(rows: seq<Row>, tip: Option<seq<byte>>, start: nat, height: nat, past: Row,
        tipRow: Row)
    requires start + DIFFICULTY_ADJUSTMENT_BLOCKS == height && height % DIFFICULTY_ADJUSTMENT_BLOCKS == 0
    requires TipRow(rows, tip) == Some(tipRow) && FirstAt(rows, start) == Some(past)
    ensures NextBits(rows, tip, height) == RetargetedFrom(past, tipRow)
  {}

  lemma {:induction false} BitsOfRow(rows: seq<Row>, h: nat)
    requires Templates(rows) && 1 <= h < |rows|
    ensures Returned(rows[h].bits) == NextBits(rows[..h], Some(rows[h - 1].hash), h - 1)
  {
    assert AskedFor(rows, h);
  }

  /** The block after a boundary */
  lemma {:induction false} BoundaryBlock(rows: seq<Row>, start: nat, end: nat)
    requires Templates(rows) && start + DIFFICULTY_ADJUSTMENT_BLOCKS == end && end + 1 < |rows|
    requires end % DIFFICULTY_ADJUSTMENT_BLOCKS == 0
    ensures Returned(rows[end + 1].bits) == RetargetedFrom(rows[start], rows[end])
  {
    PrefixRows(rows, start, end);
    BitsAtBoundary(rows[..end + 1], Some(rows[end].hash), start, end, rows[start], rows[end]);
    BitsOfRow(rows, end + 1);
  }

  /** The first block of period k, which retargets */
  lemma FirstOfPeriod(rows: seq<Row>, k: nat)
    requires Templates(rows) && 1 <= k && DIFFICULTY_ADJUSTMENT_BLOCKS * k + 1 < |rows|
    ensures Returned(rows[DIFFICULTY_ADJUSTMENT_BLOCKS * k + 1].bits)
         == RetargetedFrom(rows[DIFFICULTY_ADJUSTMENT_BLOCKS * (k - 1)], rows[DIFFICULTY_ADJUSTMENT_BLOCKS * k])
  {
    HeightInPeriod(k, 0);
    BoundaryBlock(rows, DIFFICULTY_ADJUSTMENT_BLOCKS * (k - 1), DIFFICULTY_ADJUSTMENT_BLOCKS * k);
  }

  /** Elsewhere the bits of the tip are asked for, and below the first boundary GENESIS_BITS. */
  lemma InnerBlock(rows: seq<Row>, h: nat)
    requires Templates(rows) && 1 <= h < |rows|
    ensures h <= DIFFICULTY_ADJUSTMENT_BLOCKS ==> rows[h].bits == GENESIS_BITS
    ensures DIFFICULTY_ADJUSTMENT_BLOCKS < h && (h - 1) % DIFFICULTY_ADJUSTMENT_BLOCKS != 0 ==>
              rows[h].bits == rows[h - 1].bits
  {
    BitsOfRow(rows, h);
    PrefixTip(rows, h);
  }

  /** All blocks of a period have the bits of its first. */
  lemma {:induction false} RestOfPeriod(rows: seq<Row>, k: nat, j: nat)
    requires Templates(rows) && 1 <= j <= DIFFICULTY_ADJUSTMENT_BLOCKS && DIFFICULTY_ADJUSTMENT_BLOCKS * k + j < |rows|
    ensures rows[DIFFICULTY_ADJUSTMENT_BLOCKS * k + j].bits == rows[DIFFICULTY_ADJUSTMENT_BLOCKS * k + 1].bits
    ensures k == 0 ==> rows[j].bits == GENESIS_BITS
    decreases j
  {
    InnerBlock(rows, DIFFICULTY_ADJUSTMENT_BLOCKS * k + j);
    if j != 1 {
      RestOfPeriod(rows, k, j - 1);
      HeightInPeriod(k, j - 1);
    }
  }

  /** The bits of block j of period k are the retarget, by the duration of period k - 1, of the bits of period
      k - 2: for k == 1 of the genesis block, for k == 2 of GENESIS_BITS. */
  predicate SkipsPeriod(rows: seq<Row>, k: nat, j: nat)
    requires 1 <= k && DIFFICULTY_ADJUSTMENT_BLOCKS * k + j < |rows|
  {
    var n := DIFFICULTY_ADJUSTMENT_BLOCKS;
    var from := if k == 1 then rows[0].bits else rows[n * (k - 2) + 1].bits;
    && Returned(rows[n * k + j].bits) == Retargeted(from, rows[n * k].timestamp - rows[n * (k - 1)].timestamp)
    && (k == 2 ==> from == GENESIS_BITS)
  }

  /** The last block of a period ends it, and its row is where the next but one retarget starts. */
  lemma LastOfPeriod(rows: seq<Row>, k: nat)
    requires Templates(rows) && DIFFICULTY_ADJUSTMENT_BLOCKS * (k + 1) < |rows|
    ensures rows[DIFFICULTY_ADJUSTMENT_BLOCKS * (k + 1)].bits == rows[DIFFICULTY_ADJUSTMENT_BLOCKS * k + 1].bits
    ensures k == 0 ==> rows[1].bits == GENESIS_BITS
  {
    assert DIFFICULTY_ADJUSTMENT_BLOCKS * k + DIFFICULTY_ADJUSTMENT_BLOCKS == DIFFICULTY_ADJUSTMENT_BLOCKS * (k + 1);
    RestOfPeriod(rows, k, DIFFICULTY_ADJUSTMENT_BLOCKS);
    RestOfPeriod(rows, k, 1);
  }

  /** Every retarget skips the bits of the period whose duration it measures. */
  lemma RetargetSkipsPeriod(rows: seq<Row>, k: nat, j: nat)
    requires Templates(rows) && 1 <= k && 1 <= j <= DIFFICULTY_ADJUSTMENT_BLOCKS
    requires DIFFICULTY_ADJUSTMENT_BLOCKS * k + j < |rows|
    ensures SkipsPeriod(rows, k, j)
  {
    RestOfPeriod(rows, k, j);
    FirstOfPeriod(rows, k);
    if k != 1 {
      LastOfPeriod(rows, k - 2);
    }
  }

  // ----- Runs of template blocks are such chains -----

  /** A block at the next height with the bits that the chain asks for, and a hash not yet stored */
  predicate IsNextBlock(s: State, row: Row) {
    && row.height == s.height + 1 && RowOf(s.rows, row.hash).None?
    && (0 <= s.height ==> NextBits(s.rows, s.tip, s.height) == Returned(row.bits))
  }

  predicate TemplateRun(s: State, verdicts: seq<Verdict>)
    decreases verdicts
  {
    verdicts == [] ||
    (&& IsAccepted(s, verdicts[0]) && IsNextBlock(s, verdicts[0].row)
     && TemplateRun(Next(s, verdicts[0]), verdicts[1..]))
  }

  /** The stored blocks are a chain of template blocks up to the tip. */
  predicate Follows(s: State) {
    && Templates(s.rows) && |s.rows| == s.height + 1
    && s.tip == if s.rows == [] then None else Some(s.rows[|s.rows| - 1].hash)
  }

  lemma {:induction false} WithoutNone(rows: seq<Row>, hash: seq<byte>)
    requires RowOf(rows, hash).None?
    ensures Without(rows, hash) == rows
  {
    if rows != [] {
      WithoutNone(rows[1..], hash);
    }
  }

  /** What is asked for after h blocks does not depend on later ones. */
  lemma {:induction false} BitsOfPrefix(rows: seq<Row>, row: Row, h: nat)
    requires 1 <= h <= |rows|
    ensures BitsAfter(rows + [row], h) == BitsAfter(rows, h)
  {
    assert (rows + [row])[..h] == rows[..h];
  }

  lemma {:induction false} ExtendTemplates(rows: seq<Row>, row: Row)
    requires Templates(rows) && row.height == |rows| && RowOf(rows, row.hash).None?
    requires rows != [] ==> BitsAfter(rows, |rows|) == Returned(row.bits)
    ensures Templates(rows + [row])
  {
    var rows' := rows + [row];
    forall h | 1 <= h < |rows'|
      ensures AskedFor(rows', h)
    {
      BitsOfPrefix(rows, row, h);
      if h < |rows| {
        BitsOfRow(rows, h);
      }
    }
  }

  lemma FollowsStep(s: State, verdict: Verdict)
    requires Follows(s) && IsAccepted(s, verdict) && IsNextBlock(s, verdict.row)
    ensures Follows(Next(s, verdict))
  {
    WithoutNone(s.rows, verdict.row.hash);
    assert s.rows[..|s.rows|] == s.rows;
    ExtendTemplates(s.rows, verdict.row);
  }

  /** Every run of accepted template blocks, from any such chain, leaves such a chain. */
  lemma {:induction false} TemplateRunFollows(s: State, verdicts: seq<Verdict>)
    requires Follows(s) && TemplateRun(s, verdicts)
    ensures Follows(Run(s, verdicts)) && |Run(s, verdicts).rows| == |s.rows| + |verdicts|
    decreases verdicts
  {
    if verdicts != [] {
      FollowsStep(s, verdicts[0]);
      TemplateRunFollows(Next(s, verdicts[0]), verdicts[1..]);
    }
  }

  /** So the difficulty of every run from an empty database skips a period. */
  lemma {:induction false} RunSkipsPeriod(verdicts: seq<Verdict>, k: nat, j: nat)
    requires TemplateRun(EMPTY, verdicts) && 1 <= k && 1 <= j <= DIFFICULTY_ADJUSTMENT_BLOCKS
    requires DIFFICULTY_ADJUSTMENT_BLOCKS * k + j < |verdicts|
    ensures |Run(EMPTY, verdicts).rows| == |verdicts|
    ensures SkipsPeriod(Run(EMPTY, verdicts).rows, k, j)
  {
    TemplateRunFollows(EMPTY, verdicts);
    RetargetSkipsPeriod(Run(EMPTY, verdicts).rows, k, j);
  }
}
