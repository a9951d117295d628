/** Baby-step giant-step recovery of a committed amount from its blinding factor. */
module AmountDecoder {
  import opened Arithmetic
  import opened Bytes
  import opened EllipticCurve
  import opened CurveGroup
  import opened GroupLaws
  import opened Pedersen
  import opened Wrappers

  /** The commitment is to this amount under this blinding, within the range of the search. */
  ghost predicate Hides(c: Group, commitment: seq<byte>, blinding: int, maxValue: int, amount: int) {
    && 0 <= amount <= maxValue
    && c.decode(commitment) != Infinity
    && c.decode(commitment) == Commit(c, blinding, amount)
  }

  /** Amounts below the order are told apart by their commitments. */
  lemma AmountsSeparate(c: Group, blinding: int, a: int, b: int)
    requires 0 <= a < c.order && 0 <= b < c.order
    requires Commit(c, blinding, a) == Commit(c, blinding, b)
    ensures a == b
  {
    CommitSeparates(c, blinding, a, b);
    CongSmall(a, b, c.order);
  }

  lemma TargetIsMultiple(c: Group, blinding: int, amount: int)
    ensures c.add(Commit(c, blinding, amount), c.neg(c.Mul(blinding, c.g))) == c.Times(amount, c.h)
  {
    CommitParts(c, blinding, amount);
    CommitSub(c, blinding, amount, blinding, 0, amount);
  }

  lemma StepDown(c: Group, x: int, step: int)
    ensures c.add(c.Times(x, c.h), c.neg(c.Mul(step, c.h))) == c.Times(x - step, c.h)
  {
    MulIsTimes(c, step, c.h);
    TimesNeg(c, step, c.h);
    TimesAdd(c, x, -step, c.h);
  }

  /** Every entry names a multiple of h, and every finite multiple below k has an entry. */
  ghost predicate IsTable(c: Curve, table: map<Point, int>, k: int) {
    && (forall p {:trigger table[p]} :: p in table ==> 0 <= table[p] < k && c.Mul(table[p], c.h) == p && p != Infinity)
    && (forall j {:trigger c.Mul(j, c.h)} :: 0 <= j < k && c.Mul(j, c.h) != Infinity ==> c.Mul(j, c.h) in table)
  }

  /** In a table no longer than the order, a finite multiple below the order is found exactly when it
      is below the table size, and under its own index. */
  lemma TableLookup(c: Group, table: map<Point, int>, size: int, x: int)
    requires IsTable(c, table, size) && size <= c.order && 0 <= x < c.order
    ensures c.Times(x, c.h) == Infinity <==> x == 0
    ensures c.Times(x, c.h) in table <==> 0 < x < size
    ensures c.Times(x, c.h) in table ==> table[c.Times(x, c.h)] == x
  {
    var p := c.Times(x, c.h);
    ModSmall(x, c.order);
    MulIsTimes(c, x, c.h);
    TimesVanishes(c, x, c.h);
    if p in table {
      var j := table[p];
      MulIsTimes(c, j, c.h);
      TimesInjective(c, j, x, c.h);
      CongSmall(j, x, c.order);
    }
  }

  method BuildTable(c: Curve, size: pos) returns (table: map<Point, int>)
    ensures IsTable(c, table, size)
  {
    table := map[];
    for j := 0 to size
      invariant IsTable(c, table, j)
    {
      var point := c.Mul(j, c.h);
      if point != Infinity {
        table := table[point := j];
      }
    }
  }

  lemma DivStep(a: int, maxValue: int, m: int, size: pos)
    requires 0 <= m && m * size <= a <= maxValue
    ensures m < maxValue / size + 2
  {
    DivMonotone(m * size, maxValue, size);
    ModOfMultiple(0, m, size);
    ModSmall(0, size);
  }

  /** Whether a multiple m * size is the last one not above a. */
  lemma LastStep(a: int, m: int, size: pos)
    requires 0 <= m && m * size <= a
    ensures a - m * size < size ==> a % size == a - m * size
    ensures size <= a - m * size ==> (m + 1) * size <= a
  {
    if a - m * size < size {
      DivModUnique(a, size, m, a - m * size);
    }
  }

  /** point == r * g + v * h for this amount only, and the search space is below the order. */
  ghost predicate Sought(c: Group, point: Point, rG: Point, maxValue: int, size: pos, amount: int) {
    && 0 <= amount <= maxValue < c.order && size <= c.order
    && c.add(rG, c.Mul(amount, c.h)) == point
    && forall v {:trigger c.Mul(v, c.h)} :: 0 <= v <= maxValue && c.add(rG, c.Mul(v, c.h)) == point ==> v == amount
  }

  /** The giant steps. The ghost arguments say whether an amount is sought, and which. */
  method GiantSteps(c: Group, point: Point, rG: Point, target: Point, table: map<Point, int>, maxValue: int, size: pos,
                    ghost known: bool, ghost amount: int)
    returns (r: Option<int>)
    requires IsTable(c, table, size)
    requires known ==> Sought(c, point, rG, maxValue, size, amount) && target == c.Times(amount, c.h)
    ensures r.Some? ==> 0 <= r.value <= maxValue && c.add(rG, c.Mul(r.value, c.h)) == point
    ensures known ==> r == if amount % size != 0 then Some(amount) else None
  {
    var step := c.Mul(size, c.h);
    var current := target;
    var m := 0;
    while m < maxValue / size + 2
      invariant 0 <= m
      invariant known ==> m * size <= amount && current == c.Times(amount - m * size, c.h)
    {
      if known {
        TableLookup(c, table, size, amount - m * size);
        LastStep(amount, m, size);
      }
      if current == Infinity {
        return None;
      }
      if current in table {
        var v := m * size + table[current];
        if 0 <= v <= maxValue {
          var check := c.add(rG, c.Mul(v, c.h));
          if check == point {
            return Some(v);
          }
        }
      }
      if known {
        StepDown(c, amount - m * size, size);
        assert amount - m * size - size == amount - (m + 1) * size;
      }
      current := c.add(current, c.neg(step));
      m := m + 1;
    }
    if known {
      DivStep(amount, maxValue, m, size);
    }
    return None;
  }

  lemma HiddenIsSought(c: Group, commitment: seq<byte>, blinding: int, maxValue: int, size: pos, amount: int)
    requires Hides(c, commitment, blinding, maxValue, amount) && maxValue < c.order && size <= c.order
    ensures Sought(c, c.decode(commitment), c.Mul(blinding, c.g), maxValue, size, amount)
  {
    forall v {:trigger c.Mul(v, c.h)} |
      0 <= v <= maxValue && c.add(c.Mul(blinding, c.g), c.Mul(v, c.h)) == c.decode(commitment)
      ensures v == amount
    {
      AmountsSeparate(c, blinding, amount, v);
    }
  }

  lemma HiddenTarget(c: Group, commitment: seq<byte>, blinding: int, maxValue: int, amount: int)
    requires Hides(c, commitment, blinding, maxValue, amount) && maxValue < c.order
    ensures c.add(c.decode(commitment), c.neg(c.Mul(blinding, c.g))) == c.Times(amount, c.h)
    ensures c.Times(amount, c.h) == Infinity <==> amount == 0
  {
    TargetIsMultiple(c, blinding, amount);
    TimesVanishes(c, amount, c.h);
    ModSmall(amount, c.order);
  }

  lemma HiddenIsUnique(c: Group, commitment: seq<byte>, blinding: int, maxValue: int, amount: int)
    requires Hides(c, commitment, blinding, maxValue, amount) && maxValue < c.order
    ensures forall b {:trigger Hides(c, commitment, blinding, maxValue, b)} ::
      Hides(c, commitment, blinding, maxValue, b) ==> b == amount
  {
    forall b | Hides(c, commitment, blinding, maxValue, b)
      ensures b == amount
    {
      AmountsSeparate(c, blinding, amount, b);
    }
  }

  /** _baby_step_giant_step_decode. Any answer is right; a hidden amount is found unless it is a
      positive multiple of the table size, and then the search gives up. */
  method Decode(c: Group, commitment: seq<byte>, blinding: int, maxValue: int, tableSize: pos) returns (r: Option<int>)
    ensures r.Some? ==>
      && (r.value == 0 || 0 <= r.value <= maxValue)
      && c.decode(commitment) == Commit(c, blinding, r.value)
    ensures forall amount {:trigger Hides(c, commitment, blinding, maxValue, amount)} ::
      Hides(c, commitment, blinding, maxValue, amount)
      && blinding % c.order != 0 && maxValue < c.order && tableSize <= c.order ==>
      r == if amount == 0 || amount % tableSize != 0 then Some(amount) else None
  {
    ghost var known := blinding % c.order != 0 && maxValue < c.order && tableSize <= c.order
                       && exists a :: Hides(c, commitment, blinding, maxValue, a);
    ghost var amount: int :| known ==> Hides(c, commitment, blinding, maxValue, amount);
    if known {
      HiddenIsSought(c, commitment, blinding, maxValue, tableSize, amount);
      HiddenTarget(c, commitment, blinding, maxValue, amount);
      HiddenIsUnique(c, commitment, blinding, maxValue, amount);
    }
    var point := c.decode(commitment);
    if point == Infinity {
      return None;
    }
    var rG := c.Mul(blinding, c.g);
    BlindingFinite(c, blinding);
    if rG == Infinity {
      return None;
    }
    var target := c.add(point, c.neg(rG));
    InfiniteTarget(c, point, blinding);
    if target == Infinity {
      return Some(0);
    }
    var table := BuildTable(c, tableSize);
    r := GiantSteps(c, point, rG, target, table, maxValue, tableSize, known, amount);
  }

  lemma BlindingFinite(c: Group, blinding: int)
    ensures c.Mul(blinding, c.g) == Infinity <==> blinding % c.order == 0
  {
    MulIsTimes(c, blinding, c.g);
    TimesVanishes(c, blinding, c.g);
  }

  /** An infinite target means the commitment is r * g, a commitment to 0. */
  lemma InfiniteTarget(c: Group, point: Point, blinding: int)
    requires c.on(point)
    ensures c.add(point, c.neg(c.Mul(blinding, c.g))) == Infinity ==> point == Commit(c, blinding, 0)
  {
    var rG := c.Mul(blinding, c.g);
    CommitParts(c, blinding, 0);
    CommitIsTimes(c, blinding, 0);
    Assoc(c, point, c.neg(rG), rG);
    AddZero(c, point);
    AddZero(c, rG);
  }
}
