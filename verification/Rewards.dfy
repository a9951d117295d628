/** The block reward and the money supply it adds up to. */
module Rewards {
  import opened Arithmetic

  const COINBASE_REWARD_SATOSHIS := 50 * 100_000_000
  const HALVING_INTERVAL: nat := 210_000

  /** What all rewards together come to */
  const SUPPLY_CAP := 2_099_999_997_690_000

  /** The first height that pays nothing */
  const LAST_REWARD: nat := 33 * HALVING_INTERVAL

  /** COINBASE_REWARD_SATOSHIS >> k */
  function Halved(k: nat): (r: nat) {
    COINBASE_REWARD_SATOSHIS / Pow(2, k)
  }

  function BlockReward(height: nat): (r: nat) {
    var halvings := height / HALVING_INTERVAL;
    if halvings >= 64 then 0 else Halved(halvings)
  }

  function SumRewards(n: nat): nat {
    if n == 0 then 0 else SumRewards(n - 1) + BlockReward(n - 1)
  }

  // ----- Halving by halving -----

  /** The initial reward inside a record, so that the solver does not evaluate the functions below at every
      numeral. */
  datatype Initial = Initial(reward: nat)

  type Schedule = s: Initial | s.reward == COINBASE_REWARD_SATOSHIS witness Initial(COINBASE_REWARD_SATOSHIS)

  /** The shift by k as k halvings */
  function HalvedTimes(s: Schedule, k: nat): nat {
    if k == 0 then s.reward else HalvedTimes(s, k - 1) / 2
  }

  lemma {:induction false} HalvedIsHalvedTimes(s: Schedule, k: nat)
    ensures Halved(k) == HalvedTimes(s, k)
  {
    if k != 0 {
      HalvedIsHalvedTimes(s, k - 1);
      DivDiv(COINBASE_REWARD_SATOSHIS, Pow(2, k - 1), 2);
    }
  }

  /** What the first k intervals pay */
  function Intervals(s: Schedule, k: nat): nat {
    if k == 0 then 0 else Intervals(s, k - 1) + HALVING_INTERVAL * HalvedTimes(s, k - 1)
  }

  lemma {:induction false} FourOn(s: Schedule, k: nat, reward: nat, paid: nat)
    requires HalvedTimes(s, k) == reward && Intervals(s, k) == paid
    ensures HalvedTimes(s, k + 4) == reward / 16
    ensures Intervals(s, k + 4) == paid + 210_000 * (reward + reward / 2 + reward / 4 + reward / 8)
  {
    assert HalvedTimes(s, k + 1) == reward / 2 && Intervals(s, k + 1) == paid + 210_000 * reward;
    assert HalvedTimes(s, k + 2) == reward / 4 && HalvedTimes(s, k + 3) == reward / 8;
    assert Intervals(s, k + 3) == paid + 210_000 * (reward + reward / 2 + reward / 4);
  }

  /** Half of the intervals that pay */
  lemma MiddleInterval(s: Schedule) returns (k: nat)
    ensures k == 16 && HalvedTimes(s, k) == 76293 && Intervals(s, k) == 2_099_967_955_890_000
  {
    k := 0;
    FourOn(s, k, 5000000000, 0);
    k := k + 4;
    FourOn(s, k, 312500000, 1968750000000000);
    k := k + 4;
    FourOn(s, k, 19531250, 2091796875000000);
    k := k + 4;
    FourOn(s, k, 1220703, 2099487304530000);
    k := k + 4;
  }

  /** The interval that pays one satoshi a block is the last to pay. */
  lemma LastInterval(s: Schedule) returns (last: nat)
    ensures last == 32 && HalvedTimes(s, last) == 1 && Intervals(s, last) == SUPPLY_CAP - HALVING_INTERVAL
  {
    last := MiddleInterval(s);
    FourOn(s, last, 76293, 2099967955890000);
    last := last + 4;
    FourOn(s, last, 4768, 2099997995970000);
    last := last + 4;
    FourOn(s, last, 298, 2099999873370000);
    last := last + 4;
    FourOn(s, last, 18, 2099999990550000);
    last := last + 4;
  }

  lemma {:induction false} ZeroStays(s: Schedule, k: nat, n: nat)
    requires k <= n && HalvedTimes(s, k) == 0
    ensures HalvedTimes(s, n) == 0
  {
    if k != n {
      ZeroStays(s, k, n - 1);
    }
  }

  lemma {:induction false} NothingAfter(s: Schedule, n: nat)
    requires 33 <= n
    ensures HalvedTimes(s, n) == 0
  {
    var last := LastInterval(s);
    ZeroStays(s, last + 1, n);
  }

  lemma {:induction false} RewardInInterval(s: Schedule, k: nat, j: nat)
    requires j < HALVING_INTERVAL
    ensures BlockReward(k * HALVING_INTERVAL + j) == HalvedTimes(s, k)
  {
    DivModUnique(k * HALVING_INTERVAL + j, HALVING_INTERVAL, k, j);
    HalvedIsHalvedTimes(s, k);
    if k >= 64 {
      NothingAfter(s, k);
    }
  }

  lemma {:induction false} SumByIntervals(s: Schedule, k: nat, j: nat)
    requires j <= HALVING_INTERVAL
    ensures SumRewards(k * HALVING_INTERVAL + j) == Intervals(s, k) + j * HalvedTimes(s, k)
    decreases k, j
  {
    if j != 0 {
      SumByIntervals(s, k, j - 1);
      RewardInInterval(s, k, j - 1);
      assert k * HALVING_INTERVAL + j - 1 == k * HALVING_INTERVAL + (j - 1);
      assert j * HalvedTimes(s, k) == (j - 1) * HalvedTimes(s, k) + HalvedTimes(s, k);
    } else if k != 0 {
      SumByIntervals(s, k - 1, HALVING_INTERVAL);
      assert k * HALVING_INTERVAL == (k - 1) * HALVING_INTERVAL + HALVING_INTERVAL;
    }
  }

  /** Short of the last reward, less than the cap */
  lemma {:induction false} SumInLastInterval(s: Schedule, j: nat)
    requires j <= HALVING_INTERVAL
    ensures SumRewards(LAST_REWARD - HALVING_INTERVAL + j) == SUPPLY_CAP - HALVING_INTERVAL + j
  {
    var last := LastInterval(s);
    SumByIntervals(s, last, j);
    assert last * HALVING_INTERVAL + j == LAST_REWARD - HALVING_INTERVAL + j;
  }

  lemma {:induction false} SumMonotone(m: nat, n: nat)
    requires m <= n
    ensures SumRewards(m) <= SumRewards(n)
  {
    if m != n {
      SumMonotone(m, n - 1);
    }
  }

  lemma NoRewardLate(s: Schedule, height: nat)
    requires LAST_REWARD <= height
    ensures BlockReward(height) == 0
  {
    var k, j := height / HALVING_INTERVAL, height % HALVING_INTERVAL;
    DivModForm(height, HALVING_INTERVAL);
    RewardInInterval(s, k, j);
    NothingAfter(s, k);
  }

  lemma {:induction false} SumStays(s: Schedule, m: nat, n: nat)
    requires LAST_REWARD <= m <= n
    ensures SumRewards(n) == SumRewards(m)
  {
    if m != n {
      SumStays(s, m, n - 1);
      NoRewardLate(s, n - 1);
    }
  }

  /** The rewards never exceed the cap, and reach it exactly after 33 intervals. */
  lemma {:induction false} SupplyCapped(n: nat)
    ensures SumRewards(n) <= SUPPLY_CAP
    ensures SumRewards(n) == SUPPLY_CAP <==> LAST_REWARD <= n
  {
    var s: Schedule := Initial(COINBASE_REWARD_SATOSHIS);
    SumInLastInterval(s, HALVING_INTERVAL);
    SumInLastInterval(s, HALVING_INTERVAL - 1);
    if LAST_REWARD <= n {
      SumStays(s, LAST_REWARD, n);
    } else {
      SumMonotone(n, LAST_REWARD - 1);
    }
  }
}
