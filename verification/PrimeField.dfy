/** Arithmetic modulo a prime: no zero divisors, Fermat's little theorem, the inverse by
    exponentiation and the square root by the exponent (p + 1) / 4. */
module PrimeField {
  import opened Arithmetic

  ghost predicate IsPrime(p: int) {
    2 <= p && forall d :: 2 <= d < p ==> p % d != 0
  }

  /** Euclid's lemma: a prime that divides a product divides a factor. */
  lemma {:induction false} NoZeroDivisors(p: int, a: int, b: int)
    requires IsPrime(p) && (a * b) % p == 0
    ensures a % p == 0 || b % p == 0
  {
    MulMod(a, b, p);
    ModMod(b, p);
    if a % p != 0 {
      EuclidDescent(p, a % p, b % p);
    }
  }

  /** The remainder p % a replaces a until it reaches 1. */
  lemma {:induction false} EuclidDescent(p: int, a: int, b: int)
    requires IsPrime(p) && 1 <= a < p && (a * b) % p == 0
    ensures b % p == 0
    decreases a
  {
    if a == 1 {
      assert a * b == b;
    } else {
      var q, r := p / a, p % a;
      assert p == a * q + r;
      assert r * b == p * b - q * (a * b) by {
        assert r * b == (p - a * q) * b;
        assert (p - a * q) * b == p * b - q * (a * b);
      }
      ModOfMultiple(0, b, p);
      CongMul(q, q, a * b, 0, p);
      assert (p * b) % p == 0 by { assert p * b == 0 + b * p; }
      CongSub(p * b, 0, q * (a * b), 0, p);
      EuclidDescent(p, r, b);
    }
  }

  lemma Cancel(p: int, a: int, b: int, c: int)
    requires IsPrime(p) && a % p != 0 && (a * b) % p == (a * c) % p
    ensures b % p == c % p
  {
    CongMeansDivides(a * b, a * c, p);
    assert a * b - a * c == a * (b - c);
    NoZeroDivisors(p, a, b - c);
    CongMeansDivides(b, c, p);
  }

  // ----- Fermat's little theorem, by the two products over a permutation of 1, ..., p - 1 -----

  ghost function Product(s: seq<int>): int {
    if s == [] then 1 else s[0] * Product(s[1..])
  }

  lemma {:induction false} ProductRemove(s: seq<int>, i: nat)
    requires i < |s|
    ensures Product(s) == s[i] * Product(s[..i] + s[i + 1..])
  {
    if i == 0 {
      assert s[..0] + s[1..] == s[1..];
    } else {
      var t := s[..i] + s[i + 1..];
      ProductRemove(s[1..], i - 1);
      assert t[1..] == s[1..][..i - 1] + s[1..][i..];
      assert s[0] * (s[i] * Product(t[1..])) == s[i] * (s[0] * Product(t[1..]));
    }
  }

  /** Removing an element that two permutations share leaves permutations. */
  lemma RemoveShared(s: seq<int>, t: seq<int>, i: nat)
    requires s != [] && i < |t| && t[i] == s[0] && multiset(s) == multiset(t)
    ensures multiset(s[1..]) == multiset(t[..i] + t[i + 1..])
  {
    assert s == [s[0]] + s[1..];
    assert t == t[..i] + ([t[i]] + t[i + 1..]);
    assert multiset(s[1..]) == multiset(s) - multiset{s[0]};
    assert multiset(t[..i] + t[i + 1..]) == multiset(t) - multiset{s[0]};
  }

  lemma {:induction false} ProductOfPermutation(s: seq<int>, t: seq<int>)
    requires multiset(s) == multiset(t)
    ensures Product(s) == Product(t)
  {
    if s == [] {
      assert t == [] by { assert |multiset(t)| == 0; }
    } else {
      assert s[0] in multiset(t);
      var i :| 0 <= i < |t| && t[i] == s[0];
      RemoveShared(s, t, i);
      ProductOfPermutation(s[1..], t[..i] + t[i + 1..]);
      ProductRemove(t, i);
    }
  }

  ghost function Nonzero(n: nat): seq<int> {
    seq(n, i => i + 1)
  }

  ghost function Scaled(a: int, n: nat, p: int): seq<int>
    requires 0 < p
  {
    seq(n, i => (a * (i + 1)) % p)
  }

  lemma {:induction false} ProductLast(s: seq<int>, x: int)
    ensures Product(s + [x]) == x * Product(s)
  {
    ProductRemove(s + [x], |s|);
    assert (s + [x])[..|s|] + (s + [x])[|s| + 1..] == s;
  }

  lemma {:induction false} ProductOfScaled(a: int, n: nat, p: int)
    requires 0 < p
    ensures Product(Scaled(a, n, p)) % p == (Pow(a, n) * Product(Nonzero(n))) % p
  {
    if n == 0 {
    } else {
      assert Scaled(a, n, p) == Scaled(a, n - 1, p) + [(a * n) % p];
      assert Nonzero(n) == Nonzero(n - 1) + [n];
      ProductLast(Scaled(a, n - 1, p), (a * n) % p);
      ProductLast(Nonzero(n - 1), n);
      ProductOfScaled(a, n - 1, p);
      ScaledStep(a, n, p, Product(Scaled(a, n - 1, p)), Pow(a, n - 1), Product(Nonzero(n - 1)));
    }
  }

  lemma ScaledStep(a: int, n: int, p: int, x: int, u: int, v: int)
    requires 0 < p && x % p == (u * v) % p
    ensures ((a * n) % p * x) % p == (a * u * (n * v)) % p
  {
    ModMod(a * n, p);
    CongMul((a * n) % p, a * n, x, u * v, p);
    assert (a * n) * (u * v) == (a * u) * (n * v);
  }

  /** What is left of n distinct numbers up to n, without the greatest */
  lemma WithoutTop(s: seq<int>, n: nat, k: nat, t: seq<int>)
    requires k < |s| == n && s[k] == n && t == s[..k] + s[k + 1..]
    requires forall i :: 0 <= i < n ==> 1 <= s[i] <= n
    requires forall i, j :: 0 <= i < j < n ==> s[i] != s[j]
    ensures |t| == n - 1
    ensures forall i :: 0 <= i < n - 1 ==> 1 <= t[i] <= n - 1
    ensures forall i, j :: 0 <= i < j < n - 1 ==> t[i] != t[j]
  {
    assert forall i :: 0 <= i < n - 1 ==> t[i] == s[if i < k then i else i + 1];
  }

  lemma TopMultiset(s: seq<int>, n: nat, k: nat, t: seq<int>)
    requires k < |s| == n && s[k] == n && t == s[..k] + s[k + 1..]
    ensures multiset(s) == multiset(t) + multiset{n}
    ensures multiset(Nonzero(n)) == multiset(Nonzero(n - 1)) + multiset{n}
  {
    assert s == s[..k] + [n] + s[k + 1..];
    assert Nonzero(n) == Nonzero(n - 1) + [n];
  }

  /** An injective sequence of n numbers drawn from 1, ..., n is a permutation of them. */
  lemma {:induction false} PigeonholePermutation(s: seq<int>, n: nat)
    requires |s| == n
    requires forall i :: 0 <= i < n ==> 1 <= s[i] <= n
    requires forall i, j :: 0 <= i < j < n ==> s[i] != s[j]
    ensures multiset(s) == multiset(Nonzero(n))
  {
    if n == 0 {
    } else {
      var k := IndexOfTop(s, n);
      var t := s[..k] + s[k + 1..];
      WithoutTop(s, n, k, t);
      PigeonholePermutation(t, n - 1);
      TopMultiset(s, n, k, t);
    }
  }

  lemma {:induction false} IndexOfTop(s: seq<int>, n: nat) returns (k: nat)
    requires |s| == n && 0 < n
    requires forall i :: 0 <= i < n ==> 1 <= s[i] <= n
    requires forall i, j :: 0 <= i < j < n ==> s[i] != s[j]
    ensures k < n && s[k] == n
  {
    if n !in s {
      DistinctFit(s, n - 1);
    }
    k :| 0 <= k < n && s[k] == n;
  }

  lemma {:induction false} DistinctFit(s: seq<int>, n: nat)
    requires forall i :: 0 <= i < |s| ==> 1 <= s[i] <= n
    requires forall i, j :: 0 <= i < j < |s| ==> s[i] != s[j]
    ensures |s| <= n
    decreases n
  {
    if s == [] {
    } else if n in s {
      var k :| 0 <= k < |s| && s[k] == n;
      assert 1 <= s[k];
      DistinctFit(s[..k] + s[k + 1..], n - 1);
    } else {
      assert s[0] in s && 1 <= s[0] <= n - 1;
      DistinctFit(s, n - 1);
    }
  }

  lemma ProductOfNext(n: nat)
    requires 1 <= n
    ensures Product(Nonzero(n)) == n * Product(Nonzero(n - 1))
  {
    var t := Nonzero(n);
    ProductRemove(t, n - 1);
    assert t[..n - 1] + t[n..] == Nonzero(n - 1);
  }

  lemma {:induction false} ProductNonzero(n: nat, p: int)
    requires IsPrime(p) && n < p
    ensures Product(Nonzero(n)) % p != 0
  {
    if n == 0 {
      ModSmall(1, p);
    } else {
      ProductOfNext(n);
      ProductNonzero(n - 1, p);
      ModSmall(n, p);
      if Product(Nonzero(n)) % p == 0 {
        NoZeroDivisors(p, n, Product(Nonzero(n - 1)));
      }
    }
  }

  /** Multiplication by a permutes the nonzero residues. */
  lemma ScaledIsPermutation(a: int, p: int)
    requires IsPrime(p) && a % p != 0
    ensures multiset(Scaled(a, p - 1, p)) == multiset(Nonzero(p - 1))
  {
    var s := Scaled(a, p - 1, p);
    forall i | 0 <= i < p - 1
      ensures 1 <= s[i] <= p - 1
    {
      ModSmall(i + 1, p);
      if (a * (i + 1)) % p == 0 {
        NoZeroDivisors(p, a, i + 1);
      }
    }
    forall i, j | 0 <= i < j < p - 1
      ensures s[i] != s[j]
    {
      if s[i] == s[j] {
        Cancel(p, a, i + 1, j + 1);
        CongSmall(i + 1, j + 1, p);
      }
    }
    PigeonholePermutation(s, p - 1);
  }

  lemma {:induction false} FermatLittle(a: int, p: int)
    requires IsPrime(p) && a % p != 0
    ensures Pow(a, p - 1) % p == 1
  {
    var w, x := Product(Nonzero(p - 1)), Pow(a, p - 1);
    ScaledIsPermutation(a, p);
    ProductOfPermutation(Scaled(a, p - 1, p), Nonzero(p - 1));
    ProductOfScaled(a, p - 1, p);
    ProductNonzero(p - 1, p);
    assert (w * x) % p == (w * 1) % p by { assert x * w == w * x; }
    Cancel(p, w, x, 1);
    ModSmall(1, p);
  }

  // ----- Inverse and square root -----

  /** pow(base, exponent, m): the three-argument power of the program. */
  function ModPow(base: int, exponent: nat, m: int): int
    requires 0 < m
  {
    Pow(base, exponent) % m
  }

  function ModInverse(a: int, m: int): int
    requires 2 <= m
  {
    ModPow(a, m - 2, m)
  }

  lemma InverseMultiplies(a: int, m: int)
    requires IsPrime(m) && a % m != 0
    ensures (a * ModInverse(a, m)) % m == 1
    ensures 1 <= ModInverse(a, m) < m
  {
    FermatLittle(a, m);
    assert Pow(a, m - 1) == a * Pow(a, m - 2);
    ModMod(Pow(a, m - 2), m);
    CongMul(a, a, ModInverse(a, m), Pow(a, m - 2), m);
    if ModInverse(a, m) == 0 {
      ModSmall(0, m);
    }
  }

  /** Division: the inverse cancels its argument in any product. */
  lemma InverseCancels(a: int, b: int, m: int)
    requires IsPrime(m) && a % m != 0
    ensures (b * ModInverse(a, m) * a) % m == b % m
  {
    InverseMultiplies(a, m);
    ModSmall(1, m);
    CongMul(b, b, a * ModInverse(a, m), 1, m);
    assert b * ModInverse(a, m) * a == b * (a * ModInverse(a, m));
  }

  /** For p = 3 mod 4 every square y * y has the root (y * y)^((p + 1) / 4). */
  lemma RootOfSquare(w: int, y: int, p: int)
    requires IsPrime(p) && p % 4 == 3 && w % p == (y * y) % p
    ensures var root := ModPow(w, (p + 1) / 4, p); (root * root) % p == w % p
  {
    var e := (p + 1) / 4;
    var root := ModPow(w, e, p);
    var z := Pow(w, e);
    ModMod(z, p);
    CongMul(root, z, root, z, p);
    PowAdd(w, e, e);
    assert z * z == Pow(w, 2 * e);
    PowMod(w, 2 * e, p);
    PowMod(y * y, 2 * e, p);
    assert Pow(y, 2) == y * Pow(y, 1) == y * y;
    PowMul(y, 2, 2 * e);
    assert 2 * (2 * e) == 2 + (p - 1);
    PowAdd(y, 2, p - 1);
    assert (z * z) % p == (y * y * Pow(y, p - 1)) % p;
    if y % p == 0 {
      CongMul(y, 0, y, 0, p);
      CongMul(y * y, 0, Pow(y, p - 1), Pow(y, p - 1), p);
    } else {
      FermatLittle(y, p);
      ModSmall(1, p);
      CongMul(y * y, y * y, Pow(y, p - 1), 1, p);
    }
  }

  /** A square has at most two roots in range, y and p - y. */
  lemma RootsAreOpposite(y: int, z: int, p: int)
    requires IsPrime(p) && 0 <= y < p && 0 <= z < p && (y * y) % p == (z * z) % p
    ensures z == y || z == p - y
  {
    CongMeansDivides(y * y, z * z, p);
    assert y * y - z * z == (y - z) * (y + z);
    NoZeroDivisors(p, y - z, y + z);
    if (y - z) % p == 0 {
      CongMeansDivides(y, z, p);
      CongSmall(y, z, p);
    } else if y + z == 0 {
    } else if y + z < p {
      ModSmall(y + z, p);
    } else {
      ModOfMultiple(y + z - p, 1, p);
      ModSmall(y + z - p, p);
    }
  }
}
