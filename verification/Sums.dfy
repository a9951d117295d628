/** Sums of weights over finite sets. */
module Sums {

  ghost function Sum<K(!new)>(w: K -> int, s: set<K>): int {
    if s == {} then 0
    else
      var x :| x in s;
      w(x) + Sum(w, s - {x})
  }

  /** The order in which elements are picked does not matter. */
  lemma {:induction false} SumRemove<K(!new)>(w: K -> int, s: set<K>, x: K)
    requires x in s
    ensures Sum(w, s) == w(x) + Sum(w, s - {x})
    decreases s
  {
    var y :| y in s && Sum(w, s) == w(y) + Sum(w, s - {y});
    if x != y {
      SumRemove(w, s - {y}, x);
      SumRemove(w, s - {x}, y);
      assert s - {y} - {x} == s - {x} - {y};
    }
  }

  lemma {:induction false} SumAdd<K(!new)>(w: K -> int, s: set<K>, x: K)
    requires x !in s
    ensures Sum(w, s + {x}) == Sum(w, s) + w(x)
  {
    SumRemove(w, s + {x}, x);
    assert s + {x} - {x} == s;
  }

  lemma {:induction false} SumCong<K(!new)>(w: K -> int, v: K -> int, s: set<K>)
    requires forall x :: x in s ==> w(x) == v(x)
    ensures Sum(w, s) == Sum(v, s)
    decreases s
  {
    if s != {} {
      var x :| x in s;
      SumRemove(w, s, x);
      SumRemove(v, s, x);
      SumCong(w, v, s - {x});
    }
  }

  lemma {:induction false} SumUnion<K(!new)>(w: K -> int, s: set<K>, t: set<K>)
    requires s !! t
    ensures Sum(w, s + t) == Sum(w, s) + Sum(w, t)
    decreases t
  {
    if t == {} {
      assert s + t == s;
    } else {
      var x :| x in t;
      SumUnion(w, s, t - {x});
      SumRemove(w, t, x);
      SumRemove(w, s + t, x);
      assert s + t - {x} == s + (t - {x});
    }
  }

  lemma {:induction false} SumNonneg<K(!new)>(w: K -> int, s: set<K>)
    requires forall x :: x in s ==> 0 <= w(x)
    ensures 0 <= Sum(w, s)
    decreases s
  {
    if s != {} {
      var x :| x in s;
      SumRemove(w, s, x);
      SumNonneg(w, s - {x});
    }
  }

  lemma {:induction false} SumSubset<K(!new)>(w: K -> int, s: set<K>, t: set<K>)
    requires s <= t && forall x :: x in t ==> 0 <= w(x)
    ensures Sum(w, s) <= Sum(w, t)
  {
    assert s + (t - s) == t;
    SumUnion(w, s, t - s);
    SumNonneg(w, t - s);
  }

  /** Two parts of a whole overlap in at least what they exceed it by. */
  lemma {:induction false} SumOverlap<K(!new)>(w: K -> int, s: set<K>, t: set<K>, whole: set<K>)
    requires s <= whole && t <= whole && forall x :: x in whole ==> 0 <= w(x)
    ensures Sum(w, s * t) >= Sum(w, s) + Sum(w, t) - Sum(w, whole)
  {
    assert s == s * t + (s - t);
    SumUnion(w, s * t, s - t);
    assert t + (s - t) <= whole;
    SumUnion(w, t, s - t);
    SumSubset(w, t + (s - t), whole);
  }
}
