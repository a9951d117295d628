/** ECDSA over an abstract curve group, sections 4.1.3 and 4.1.4 of SEC 1. The RFC 6979 nonces,
    first choice and retry, are parameters. */
module Ecdsa {
  import opened Arithmetic
  import opened Bytes
  import opened PrimeField
  import opened EllipticCurve
  import opened CurveGroup
  import opened GroupLaws

  datatype Signature = Signature(r: int, s: int)

  /** A nonce or private key in [1, order - 1] has a finite multiple of g. */
  lemma FiniteMultiple(c: Group, k: int)
    requires 1 <= k < c.order
    ensures c.Mul(k, c.g).Affine? && c.Mul(k, c.g) == c.Times(k, c.g) && c.on(c.Mul(k, c.g))
  {
    ModSmall(k, c.order);
    MulIsTimes(c, k, c.g);
    TimesVanishes(c, k, c.g);
  }

  /** x of k * g modulo the order */
  function NonceR(c: Group, k: int): (r: int)
    requires 1 <= k < c.order
    ensures 0 <= r < c.order
  {
    FiniteMultiple(c, k);
    c.Mul(k, c.g).x % c.order
  }

  /** The nonce the signer ends up with: the retry when the first gives r = 0. */
  function UsedNonce(c: Group, k: int, retry: int): (n: int)
    requires 1 <= k < c.order && 1 <= retry < c.order
    ensures 1 <= n < c.order
    ensures n == k || (n == retry && NonceR(c, k) == 0)
    ensures NonceR(c, n) == 0 <==> NonceR(c, k) == 0 && NonceR(c, retry) == 0
  {
    if NonceR(c, k) == 0 then retry else k
  }

  function Sign(c: Group, privateKey: int, messageHash: seq<byte>, k: int, retry: int): Signature
    requires 1 <= privateKey < c.order
    requires 1 <= k < c.order && 1 <= retry < c.order
  {
    var n := UsedNonce(c, k, retry);
    var r := NonceR(c, n);
    var s := (ModInverse(n, c.order) * (FromBig(messageHash) + r * privateKey)) % c.order;
    Signature(r, if s > c.order / 2 then c.order - s else s)
  }

  /** u1 * g + u2 * publicKey */
  function CheckPoint(c: Curve, publicKey: Point, z: int, r: int, s: int): Point
    requires 2 <= c.order
  {
    var inverse := ModInverse(s, c.order);
    c.add(c.Mul((z * inverse) % c.order, c.g), c.Mul((r * inverse) % c.order, publicKey))
  }

  predicate Verify(c: Curve, publicKey: Point, messageHash: seq<byte>, sig: Signature) {
    && 1 <= sig.r < c.order && 1 <= sig.s < c.order
    && var point := CheckPoint(c, publicKey, FromBig(messageHash), sig.r, sig.s);
    point.Affine? && point.x % c.order == sig.r
  }

  // ----- Correctness -----

  /** The two multiples are one multiple of the generator. */
  lemma SumOfMultiples(c: Group, d: int, u1: int, u2: int)
    ensures c.add(c.Mul(u1, c.g), c.Mul(u2, c.Mul(d, c.g))) == c.Times(u1 + u2 * d, c.g)
  {
    MulIsTimes(c, d, c.g);
    MulIsTimes(c, u1, c.g);
    MulIsTimes(c, u2, c.Mul(d, c.g));
    TimesTimes(c, u2, d, c.g);
    TimesAdd(c, u1, u2 * d, c.g);
  }

  lemma MultipliersCombine(n: int, d: int, z: int, r: int, w: int)
    requires 0 < n
    ensures ((z * w) % n + (r * w) % n * d) % n == (w * (z + r * d)) % n
  {
    ModMod(z * w, n);
    ModMod(r * w, n);
    CongMul((r * w) % n, r * w, d, d, n);
    CongAdd((z * w) % n, z * w, (r * w) % n * d, r * w * d, n);
    assert z * w + r * w * d == w * (z + r * d);
  }

  lemma CheckPointIsTimes(c: Group, d: int, z: int, r: int, s: int)
    requires 1 <= s < c.order
    ensures CheckPoint(c, c.Mul(d, c.g), z, r, s) == c.Times(ModInverse(s, c.order) * (z + r * d), c.g)
  {
    var n, w := c.order, ModInverse(s, c.order);
    var u1, u2 := (z * w) % n, (r * w) % n;
    SumOfMultiples(c, d, u1, u2);
    MultipliersCombine(n, d, z, r, w);
    TimesCong(c, u1 + u2 * d, w * (z + r * d), c.g);
  }

  /** The signing equation, multiplied by the nonce */
  lemma SigningEquation(n: int, k: int, e: int, t: int)
    requires IsPrime(n) && 1 <= k < n && t == (ModInverse(k, n) * e) % n
    ensures (t * k) % n == e % n
  {
    var i := ModInverse(k, n);
    ModSmall(k, n);
    ModMod(i * e, n);
    InverseCancels(k, e, n);
    CongMul(t, i * e, k, k, n);
    assert e * i == i * e;
  }

  /** Dividing by s */
  lemma DividedBySignature(n: int, k: int, e: int, s: int)
    requires IsPrime(n) && 1 <= s < n && (s * k) % n == e % n
    ensures (ModInverse(s, n) * e) % n == k % n
  {
    var w := ModInverse(s, n);
    ModSmall(s, n);
    InverseCancels(s, k, n);
    CongMul(w, w, e, s * k, n);
    Rotate(w, s, k);
  }

  lemma Rotate(w: int, s: int, k: int)
    ensures w * (s * k) == k * w * s
  {
    assert w * (s * k) == w * (k * s);
    assert w * (k * s) == (w * k) * s;
  }

  lemma OppositeProduct(n: int, s: int, k: int)
    requires 0 < n
    ensures (s * -k) % n == ((n - s) * k) % n
  {
    assert (n - s) * k == n * k - s * k;
    assert s * -k == -(s * k);
    ModOfMultiple(s * -k, k, n);
  }

  /** Whichever of s and order - s was kept, w * (z + r * d) is the nonce or its negation. */
  lemma NonceRecovered(n: int, k: int, e: int, s: int)
    requires IsPrime(n) && 1 <= k < n && 1 <= s < n
    requires s == (ModInverse(k, n) * e) % n || n - s == (ModInverse(k, n) * e) % n
    ensures (ModInverse(s, n) * e) % n == k % n || (ModInverse(s, n) * e) % n == (-k) % n
  {
    if s == (ModInverse(k, n) * e) % n {
      SigningEquation(n, k, e, s);
      DividedBySignature(n, k, e, s);
    } else {
      SigningEquation(n, k, e, n - s);
      OppositeProduct(n, s, k);
      DividedBySignature(n, -k, e, s);
    }
  }

  lemma SameX(c: Group, k: int, j: int)
    requires 1 <= k < c.order
    requires j % c.order == k % c.order || j % c.order == (-k) % c.order
    ensures c.Times(j, c.g).Affine? && c.Times(j, c.g).x % c.order == NonceR(c, k)
  {
    FiniteMultiple(c, k);
    if j % c.order == k % c.order {
      TimesCong(c, j, k, c.g);
    } else {
      TimesCong(c, j, -k, c.g);
      TimesNeg(c, k, c.g);
    }
  }

  /** A signature verifies under the derived public key exactly when both components are nonzero;
      the kept s is never in the upper half. */
  lemma SignedVerifies(c: Group, privateKey: int, messageHash: seq<byte>, k: int, retry: int)
    requires 1 <= privateKey < c.order
    requires 1 <= k < c.order && 1 <= retry < c.order
    ensures var sig := Sign(c, privateKey, messageHash, k, retry);
      && (Verify(c, c.Mul(privateKey, c.g), messageHash, sig) <==> sig.r != 0 && sig.s != 0)
      && sig.s <= c.order / 2
  {
    var sig := Sign(c, privateKey, messageHash, k, retry);
    var n := UsedNonce(c, k, retry);
    var z := FromBig(messageHash);
    assert c.order % 2 != 0;
    if sig.r != 0 && sig.s != 0 {
      var e := z + sig.r * privateKey;
      NonceRecovered(c.order, n, e, sig.s);
      CheckPointIsTimes(c, privateKey, z, sig.r, sig.s);
      SameX(c, n, ModInverse(sig.s, c.order) * e);
    }
  }

  /** The nonce is used for r, and s or its opposite solves the signing equation for it. */
  lemma {:induction false} SignedEquation(c: Group, privateKey: int, messageHash: seq<byte>, k: int, retry: int)
    requires 1 <= privateKey < c.order
    requires 1 <= k < c.order && 1 <= retry < c.order
    ensures var sig, n := Sign(c, privateKey, messageHash, k, retry), UsedNonce(c, k, retry);
      var e := FromBig(messageHash) + sig.r * privateKey;
      && sig.r == NonceR(c, n) && 0 <= sig.s <= c.order / 2
      && ((sig.s * n) % c.order == e % c.order || ((c.order - sig.s) * n) % c.order == e % c.order)
  {
    var sig, n := Sign(c, privateKey, messageHash, k, retry), UsedNonce(c, k, retry);
    var e := FromBig(messageHash) + sig.r * privateKey;
    SigningEquation(c.order, n, e, (ModInverse(n, c.order) * e) % c.order);
  }

  // ----- Both halves of s verify -----

  lemma InverseOfOpposite(n: int, s: int)
    requires IsPrime(n) && 1 <= s < n
    ensures ModInverse(n - s, n) % n == (-ModInverse(s, n)) % n
  {
    var w, w' := ModInverse(s, n), ModInverse(n - s, n);
    ModSmall(s, n);
    ModSmall(n - s, n);
    InverseMultiplies(s, n);
    InverseMultiplies(n - s, n);
    OppositeProduct(n, s, w');
    Cancel(n, s, -w', w);
    CongSub(0, 0, -w', w, n);
  }

  lemma CheckPointOpposite(c: Group, publicKey: Point, z: int, r: int, s: int)
    requires c.on(publicKey) && 1 <= s < c.order
    ensures CheckPoint(c, publicKey, z, r, c.order - s) == c.neg(CheckPoint(c, publicKey, z, r, s))
    ensures c.on(CheckPoint(c, publicKey, z, r, s))
  {
    var n := c.order;
    var w, w' := ModInverse(s, n), ModInverse(n - s, n);
    InverseOfOpposite(n, s);
    TimesOfProduct(c, z, w, w', c.g);
    TimesOfProduct(c, r, w, w', publicKey);
    var a, b := c.Times(z * w, c.g), c.Times(r * w, publicKey);
    TimesOn(c, z * w, c.g);
    TimesOn(c, r * w, publicKey);
    Interchange(c, a, b, c.neg(a), c.neg(b));
    AddZero(c, Infinity);
    NegUnique(c, c.add(a, b), c.add(c.neg(a), c.neg(b)));
  }

  lemma TimesOfProduct(c: Group, z: int, w: int, w': int, q: Point)
    requires c.on(q) && w' % c.order == (-w) % c.order
    ensures c.Mul((z * w) % c.order, q) == c.Times(z * w, q)
    ensures c.Mul((z * w') % c.order, q) == c.neg(c.Times(z * w, q))
  {
    var n := c.order;
    ModMod(z * w, n);
    ModMod(z * w', n);
    MulIsTimes(c, (z * w) % n, q);
    MulIsTimes(c, (z * w') % n, q);
    CongMul(z, z, w', -w, n);
    assert z * -w == -(z * w);
    TimesCong(c, (z * w') % n, -(z * w), q);
    TimesNeg(c, z * w, q);
  }

  /** Replacing s by order - s never changes the verdict; this is why signing may keep the lower. */
  lemma OppositeVerifies(c: Group, publicKey: Point, messageHash: seq<byte>, r: int, s: int)
    requires c.on(publicKey)
    ensures Verify(c, publicKey, messageHash, Signature(r, s))
       <==> Verify(c, publicKey, messageHash, Signature(r, c.order - s))
  {
    if 1 <= s < c.order {
      CheckPointOpposite(c, publicKey, FromBig(messageHash), r, s);
      CheckPointOpposite(c, publicKey, FromBig(messageHash), r, c.order - s);
    }
  }

  // ----- Exactly which signatures verify -----

  lemma CheckPointForKey(c: Group, publicKey: Point, z: int, r: int, s: int)
    requires c.on(publicKey) && 1 <= s < c.order
    ensures var sum := c.add(c.Times(z, c.g), c.Times(r, publicKey));
      && c.on(sum) && CheckPoint(c, publicKey, z, r, s) == c.Times(ModInverse(s, c.order), sum)
  {
    var n, w := c.order, ModInverse(s, c.order);
    ModMod(z * w, n);
    ModMod(r * w, n);
    MulIsTimes(c, (z * w) % n, c.g);
    MulIsTimes(c, (r * w) % n, publicKey);
    TimesOn(c, z, c.g);
    TimesOn(c, r, publicKey);
    TimesSum(c, w, c.Times(z, c.g), c.Times(r, publicKey));
    TimesTimes(c, w, z, c.g);
    TimesTimes(c, w, r, publicKey);
    assert w * z == z * w && w * r == r * w;
  }

  /** Dividing by s, on points */
  lemma PointDivided(c: Group, s: int, point: Point, sum: Point)
    requires 1 <= s < c.order && c.on(point) && c.on(sum)
    ensures c.Times(s, point) == sum <==> point == c.Times(ModInverse(s, c.order), sum)
  {
    var w := ModInverse(s, c.order);
    ModSmall(s, c.order);
    InverseMultiplies(s, c.order);
    assert w * s == s * w;
    ModSmall(1, c.order);
    TimesTimes(c, w, s, point);
    TimesCong(c, w * s, 1, point);
    TimesZeroOne(c, point);
    TimesTimes(c, s, w, sum);
    TimesCong(c, s * w, 1, sum);
    TimesZeroOne(c, sum);
  }

  /** For every public key: r is the x of a point that s takes to z * g + r * publicKey. */
  ghost predicate HasPoint(c: Group, publicKey: Point, z: int, r: int, s: int) {
    exists point {:trigger c.Times(s, point)} ::
      && c.on(point) && point.Affine? && point.x % c.order == r
      && c.Times(s, point) == c.add(c.Times(z, c.g), c.Times(r, publicKey))
  }

  lemma {:induction false} VerifiesExactly(c: Group, publicKey: Point, messageHash: seq<byte>, r: int, s: int)
    requires c.on(publicKey)
    ensures Verify(c, publicKey, messageHash, Signature(r, s))
       <==> 1 <= r < c.order && 1 <= s < c.order && HasPoint(c, publicKey, FromBig(messageHash), r, s)
  {
    if 1 <= s < c.order {
      var z := FromBig(messageHash);
      var sum := c.add(c.Times(z, c.g), c.Times(r, publicKey));
      var check := CheckPoint(c, publicKey, z, r, s);
      CheckPointForKey(c, publicKey, z, r, s);
      TimesOn(c, ModInverse(s, c.order), sum);
      PointDivided(c, s, check, sum);
      forall point {:trigger c.Times(s, point)} | c.on(point) && c.Times(s, point) == sum
        ensures point == check
      {
        PointDivided(c, s, point, sum);
      }
    }
  }

  /** For a known key: r comes from a nonce that satisfies the signing equation. */
  ghost predicate HasNonce(c: Group, privateKey: int, z: int, r: int, s: int) {
    exists k {:trigger NonceR(c, k)} ::
      1 <= k < c.order && NonceR(c, k) == r && (s * k) % c.order == (z + r * privateKey) % c.order
  }

  lemma NonceOfCheckPoint(c: Group, j: int)
    requires c.Times(j, c.g).Affine?
    ensures 1 <= j % c.order < c.order && NonceR(c, j % c.order) == c.Times(j, c.g).x % c.order
  {
    var k := j % c.order;
    TimesVanishes(c, j, c.g);
    ModMod(j, c.order);
    SameX(c, k, j);
  }

  /** A signature verifies exactly when signing could have made it, but for the choice between s and order - s: in
      particular every other pair in range is refused. */
  lemma {:induction false} VerifiesExactlyForKey(c: Group, privateKey: int, messageHash: seq<byte>, r: int, s: int)
    ensures Verify(c, c.Mul(privateKey, c.g), messageHash, Signature(r, s))
       <==> 1 <= r < c.order && 1 <= s < c.order && HasNonce(c, privateKey, FromBig(messageHash), r, s)
  {
    if 1 <= s < c.order {
      var n, e := c.order, FromBig(messageHash) + r * privateKey;
      var j := ModInverse(s, n) * e;
      CheckPointIsTimes(c, privateKey, FromBig(messageHash), r, s);
      if c.Times(j, c.g).Affine? {
        NonceOfCheckPoint(c, j);
        EquationFromNonce(n, s, e);
      }
      forall k {:trigger NonceR(c, k)} | 1 <= k < n && NonceR(c, k) == r && (s * k) % n == e % n
        ensures c.Times(j, c.g).Affine? && c.Times(j, c.g).x % n == r
      {
        DividedBySignature(n, k, e, s);
        SameX(c, k, j);
      }
    }
  }

  lemma EquationFromNonce(n: int, s: int, e: int)
    requires IsPrime(n) && 1 <= s < n
    ensures (s * ((ModInverse(s, n) * e) % n)) % n == e % n
  {
    var w := ModInverse(s, n);
    ModSmall(s, n);
    InverseCancels(s, e, n);
    ModMod(w * e, n);
    CongMul(s, s, (w * e) % n, w * e, n);
    Rotate(s, w, e);
    assert e * w * s == s * (w * e);
  }
}
