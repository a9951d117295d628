/** Compact difficulty targets: decoding, encoding through the hexadecimal digits, and retargeting. */
module Difficulty {
  import opened Arithmetic

  /** What a call returns, or that it raises an exception */
  datatype Outcome<+T> = Returned(value: T) | Raised

  const GENESIS_BITS: nat := 0x1d00ffff
  const DIFFICULTY_ADJUSTMENT_BLOCKS: nat := 2016
  const TARGET_BLOCK_TIME_SEC := 600
  const TARGET_TIMESPAN := DIFFICULTY_ADJUSTMENT_BLOCKS * TARGET_BLOCK_TIME_SEC

  // ----- Decoding -----

  /** bits >> 24 */
  function Exponent(bits: nat): nat {
    bits / 0x100_0000
  }

  /** bits & 0x7FFFFF */
  function Coefficient(bits: nat): nat {
    bits % 0x80_0000
  }

  /** The integer a compact target stands for; below exponent 3 Python's power is a float. */
  function BitsToTarget(bits: nat): nat
    requires 3 <= Exponent(bits)
  {
    Coefficient(bits) * Pow(256, Exponent(bits) - 3)
  }

  /** A hash against the target. The float is a power of two times 23 bits, hence exact, and so is the comparison. */
  predicate IsBelowTarget(hash: nat, bits: nat) {
    if 3 <= Exponent(bits) then hash < BitsToTarget(bits)
    else hash * Pow(256, 3 - Exponent(bits)) < Coefficient(bits)
  }

  lemma ScaledLess(a: int, b: int, m: int)
    requires 0 < m
    ensures a < b <==> a * m < b * m
  {}

  lemma ScaledRight(a: int, c: int, u: int, m: int)
    requires 0 < m
    ensures a < c * u <==> a * m < c * (u * m)
  {
    ScaledLess(a, c * u, m);
    assert c * (u * m) == c * u * m;
  }

  lemma ScaledLeft(a: int, c: int, u: int, m: int)
    requires 0 < m
    ensures a * u < c <==> a * (u * m) < c * m
  {
    ScaledLess(a * u, c, m);
    assert a * (u * m) == a * u * m;
  }

  /** Integer or float, the target is the coefficient times 256^(exponent - 3). */
  lemma BelowTargetMeans(hash: nat, bits: nat)
    ensures IsBelowTarget(hash, bits) <==>
            hash * Pow(256, 3) < Coefficient(bits) * Pow(256, Exponent(bits))
  {
    var e, c := Exponent(bits), Coefficient(bits);
    if 3 <= e {
      PowAdd(256, e - 3, 3);
      ScaledRight(hash, c, Pow(256, e - 3), Pow(256, 3));
    } else {
      PowAdd(256, 3 - e, e);
      ScaledLeft(hash, c, Pow(256, 3 - e), Pow(256, e));
    }
  }

  lemma FieldsRead(bits: nat, e: nat, high: nat, c: nat)
    requires high < 2 && c < 0x80_0000 && bits == e * 0x100_0000 + high * 0x80_0000 + c
    ensures Exponent(bits) == e && Coefficient(bits) == c
  {
    DivModUnique(bits, 0x100_0000, e, high * 0x80_0000 + c);
    DivModUnique(bits, 0x80_0000, 2 * e + high, c);
  }

  /** In terms of the stored fields: bit 23 does not enter the target. */
  lemma {:induction false} TargetFields(hash: nat, bits: nat, e: nat, high: nat, c: nat)
    requires high < 2 && c < 0x80_0000 && bits == e * 0x100_0000 + high * 0x80_0000 + c
    ensures IsBelowTarget(hash, bits) <==> hash * Pow(256, 3) < c * Pow(256, e)
  {
    FieldsRead(bits, e, high, c);
    BelowTargetMeans(hash, bits);
  }

  // ----- Encoding -----

  /** The hexadecimal digits without leading zeros, most significant first */
  function Hex(t: nat): (digits: seq<nat>)
    ensures t == 0 <==> digits == []
  {
    if t == 0 then [] else Hex(t / 16) + [t % 16]
  }

  function Zeros(n: nat): (s: seq<nat>)
    ensures |s| == n
  {
    seq(n, _ => 0)
  }

  /** f"{t:064x}" */
  function Formatted(t: nat): seq<nat> {
    var digits := Hex(t);
    if |digits| < 64 then Zeros(64 - |digits|) + digits else digits
  }

  function LeadingZeros(s: seq<nat>): nat {
    if s == [] || s[0] != 0 then 0 else 1 + LeadingZeros(s[1..])
  }

  function StoredExponent(t: nat): int {
    (64 - LeadingZeros(Formatted(t))) / 2
  }

  /** A negative shift count raises. */
  function TargetToBits(t: nat): (r: Outcome<nat>) {
    var e := StoredExponent(t);
    if e < 3 then Raised
    else Returned(e * 0x100_0000 + t / Pow(256, e - 3) % 0x80_0000)
  }

  // ----- The digits -----

  lemma {:induction false} HexSpan(t: nat)
    requires 0 < t
    ensures 1 <= |Hex(t)| && Pow(16, |Hex(t)| - 1) <= t < Pow(16, |Hex(t)|)
    ensures Hex(t)[0] == t / Pow(16, |Hex(t)| - 1) && 0 < Hex(t)[0]
  {
    if t < 16 {
      assert t / 16 == 0 && Hex(t) == [t];
      assert Pow(16, 1) == 16;
    } else {
      HexSpan(t / 16);
      var d := |Hex(t / 16)|;
      assert |Hex(t)| == d + 1;
      assert Pow(16, d) == 16 * Pow(16, d - 1) && Pow(16, d + 1) == 16 * Pow(16, d);
      DivDiv(t, 16, Pow(16, d - 1));
    }
  }

  /** The digit count is the only exponent whose powers enclose the number. */
  lemma {:induction false} DigitsUnique(t: nat, d: nat)
    requires 1 <= d && Pow(16, d - 1) <= t < Pow(16, d)
    ensures |Hex(t)| == d
  {
    HexSpan(t);
    var n := |Hex(t)|;
    if n < d {
      PowMonotone(16, n, d - 1);
    } else if d < n {
      PowMonotone(16, d, n - 1);
    }
  }

  lemma {:induction false} LeadingZerosThen(n: nat, s: seq<nat>)
    requires s == [] || s[0] != 0
    ensures LeadingZeros(Zeros(n) + s) == n
  {
    if n == 0 {
      assert Zeros(n) + s == s;
    } else {
      LeadingZerosThen(n - 1, s);
      assert (Zeros(n) + s)[1..] == Zeros(n - 1) + s;
    }
  }

  /** Half the digit count, which the formatting cuts at 64 */
  lemma {:induction false} ExponentFromDigits(t: nat)
    ensures StoredExponent(t) == (if |Hex(t)| <= 64 then |Hex(t)| else 64) / 2
  {
    if t != 0 {
      HexSpan(t);
    }
    var n := if |Hex(t)| < 64 then 64 - |Hex(t)| else 0;
    assert Zeros(n) + Hex(t) == Formatted(t);
    LeadingZerosThen(n, Hex(t));
  }

  /** The encoder raises exactly on targets of fewer than six digits. */
  lemma {:induction false} EncoderRaises(t: nat)
    ensures TargetToBits(t).Raised? <==> |Hex(t)| < 6
  {
    ExponentFromDigits(t);
  }

  // ----- Decoding what was encoded -----

  lemma FieldsOf(e: nat, c: nat)
    requires c < 0x80_0000
    ensures Exponent(e * 0x100_0000 + c) == e && Coefficient(e * 0x100_0000 + c) == c
  {
    DivModUnique(e * 0x100_0000 + c, 0x100_0000, e, c);
    DivModUnique(e * 0x100_0000 + c, 0x80_0000, 2 * e, c);
  }

  /** The exponent and the coefficient that are stored, and so the target that is read back */
  lemma {:induction false} EncodedFields(t: nat)
    requires 6 <= |Hex(t)|
    ensures 3 <= StoredExponent(t) && TargetToBits(t).Returned?
    ensures Exponent(TargetToBits(t).value) == StoredExponent(t)
    ensures Coefficient(TargetToBits(t).value) == t / Pow(256, StoredExponent(t) - 3) % 0x80_0000
  {
    ExponentFromDigits(t);
    var e := StoredExponent(t);
    FieldsOf(e, t / Pow(256, e - 3) % 0x80_0000);
  }

  /** The target read back after a target was encoded */
  function Reencoded(t: nat): nat
    requires 6 <= |Hex(t)|
  {
    EncodedFields(t);
    BitsToTarget(TargetToBits(t).value)
  }

  /** The unit of the stored exponent */
  function Unit(t: nat): (m: nat)
    requires 6 <= |Hex(t)|
    ensures 0 < m
  {
    ExponentFromDigits(t);
    Pow(256, StoredExponent(t) - 3)
  }

  lemma KeptPart(t: nat, m: nat)
    requires 0 < m
    ensures t / m % 0x80_0000 * m <= t
    ensures t - t / m % 0x80_0000 * m < m <==> t / m < 0x80_0000
    ensures t / m % 0x80_0000 * m == t <==> t / m < 0x80_0000 && t % m == 0
  {
    var q := t / m;
    DivModForm(t, m);
    if q < 0x80_0000 {
      ModSmall(q, 0x80_0000);
    } else {
      DivModForm(q, 0x80_0000);
      assert q % 0x80_0000 + 1 <= q;
      MulMonotone(q % 0x80_0000 + 1, q, m, m);
    }
  }

  /** Encoding a target and decoding it never makes mining easier. */
  lemma {:induction false} NeverRaised(t: nat)
    requires 6 <= |Hex(t)|
    ensures Reencoded(t) <= t
  {
    EncodedFields(t);
    KeptPart(t, Unit(t));
  }

  lemma {:induction false} Pow256(k: nat)
    ensures Pow(256, k) == Pow(16, 2 * k)
  {
    assert Pow(16, 2) == 256 by {
      assert Pow(16, 1) == 16;
    }
    PowMul(16, 2, k);
  }

  /** The digits that decide whether 23 bits hold what the shift leaves */
  predicate Fits(t: nat) {
    var digits := Hex(t);
    6 <= |digits| <= 64 && |digits| % 2 == 0 && digits[0] <= 7
  }

  lemma {:induction false} ShiftedPower(e: nat, j: nat)
    requires 3 <= e
    ensures Pow(16, 2 * e - 6 + j) == Pow(16, j) * Pow(256, e - 3)
  {
    Pow256(e - 3);
    PowAdd(16, j, 2 * (e - 3));
  }

  lemma SmallPowers()
    ensures Pow(16, 5) == 0x10_0000 && Pow(16, 6) == 0x100_0000
  {
    assert Pow(16, 1) == 16;
    assert Pow(16, 2) == 0x100;
    assert Pow(16, 3) == 0x1000;
    assert Pow(16, 4) == 0x1_0000;
  }

  lemma AtLeast(t: nat, m: nat, c: nat)
    requires 0 < m
    ensures c * m <= t <==> c <= t / m
  {
    DivModForm(t, m);
    if c * m <= t {
      if t / m < c {
        MulMonotone(t / m + 1, c, m, m);
      }
    }
    if c <= t / m {
      MulMonotone(c, t / m, m, m);
    }
  }

  /** An even digit count: the shift leaves six digits, the first of them the leading one. */
  lemma {:induction false} EvenDigits(t: nat, e: nat)
    requires 3 <= e && |Hex(t)| == 2 * e
    ensures t / Pow(256, e - 3) < 0x80_0000 <==> Hex(t)[0] <= 7
  {
    var m := Pow(256, e - 3);
    HexSpan(t);
    SmallPowers();
    ShiftedPower(e, 5);
    assert Pow(16, 2 * e - 1) == 0x10_0000 * m;
    AtLeast(t, m, 0x80_0000);
    AtLeast(t, Pow(16, 2 * e - 1), 8);
  }

  /** An odd count, or more than 64: the shift leaves more than six. */
  lemma {:induction false} MoreDigits(t: nat, e: nat)
    requires 3 <= e && 2 * e < |Hex(t)|
    ensures 0x80_0000 <= t / Pow(256, e - 3)
  {
    var m := Pow(256, e - 3);
    HexSpan(t);
    SmallPowers();
    ShiftedPower(e, 6);
    PowMonotone(16, 2 * e, |Hex(t)| - 1);
    AtLeast(t, m, 0x100_0000);
  }

  lemma {:induction false} FitsExactly(t: nat)
    requires 6 <= |Hex(t)|
    ensures t / Unit(t) < 0x80_0000 <==> Fits(t)
  {
    ExponentFromDigits(t);
    var e := StoredExponent(t);
    if |Hex(t)| <= 64 && |Hex(t)| % 2 == 0 {
      EvenDigits(t, e);
    } else {
      MoreDigits(t, e);
    }
  }

  /** The loss stays below one unit of the stored exponent exactly when 23 bits are enough. */
  lemma {:induction false} LossBelowUnit(t: nat)
    requires 6 <= |Hex(t)|
    ensures t - Reencoded(t) < Unit(t) <==> Fits(t)
  {
    EncodedFields(t);
    FitsExactly(t);
    KeptPart(t, Unit(t));
  }

  /** Nothing is lost exactly when, besides, the bytes that are shifted out are zero. */
  lemma {:induction false} Lossless(t: nat)
    requires 6 <= |Hex(t)|
    ensures Reencoded(t) == t <==> Fits(t) && t % Unit(t) == 0
  {
    EncodedFields(t);
    FitsExactly(t);
    KeptPart(t, Unit(t));
  }

  // ----- Encoding what was decoded -----

  /** Compact forms that are their own encoding: bit 23 clear and six digits in the coefficient */
  predicate Canonical(bits: nat) {
    Exponent(bits) <= 32 && bits % 0x100_0000 < 0x80_0000 && 0x10_0000 <= Coefficient(bits)
  }

  lemma ProductBelow(a: nat, b: nat, m: nat)
    requires a < b && 0 < m
    ensures a * m < b * m
  {}

  lemma {:induction false} DigitsBelow(t: nat, d: nat)
    requires 0 < t < Pow(16, d)
    ensures |Hex(t)| <= d
  {
    HexSpan(t);
    if d < |Hex(t)| {
      PowMonotone(16, d, |Hex(t)| - 1);
    }
  }

  /** Six digits and e - 3 zero bytes */
  lemma {:induction false} SixDigits(c: nat, e: nat)
    requires 3 <= e && 0x10_0000 <= c < 0x100_0000
    ensures |Hex(c * Pow(256, e - 3))| == 2 * e
  {
    var m := Pow(256, e - 3);
    SmallPowers();
    ShiftedPower(e, 5);
    ShiftedPower(e, 6);
    MulMonotone(0x10_0000, c, m, m);
    ProductBelow(c, 0x100_0000, m);
    DigitsUnique(c * m, 2 * e);
  }

  /** Such a number is stored with the exponent e, and the coefficient loses its bit 23. */
  lemma {:induction false} SixDigitsEncoded(c: nat, e: nat)
    requires 3 <= e <= 32 && 0x10_0000 <= c < 0x100_0000
    ensures TargetToBits(c * Pow(256, e - 3)) == Returned(e * 0x100_0000 + c % 0x80_0000)
  {
    SixDigits(c, e);
    ExponentFromDigits(c * Pow(256, e - 3));
    DivModUnique(c * Pow(256, e - 3), Pow(256, e - 3), c, 0);
  }

  lemma FewerDigits(bits: nat)
    requires 3 <= Exponent(bits) && Coefficient(bits) < 0x10_0000
    ensures |Hex(BitsToTarget(bits))| < 2 * Exponent(bits)
  {
    if BitsToTarget(bits) != 0 {
      SmallPowers();
      ShiftedPower(Exponent(bits), 5);
      ProductBelow(Coefficient(bits), 0x10_0000, Pow(256, Exponent(bits) - 3));
      DigitsBelow(BitsToTarget(bits), 2 * Exponent(bits) - 1);
    }
  }

  lemma SplitBits(bits: nat)
    requires bits % 0x100_0000 < 0x80_0000
    ensures bits == Exponent(bits) * 0x100_0000 + Coefficient(bits)
  {}

  lemma CanonicalEncodes(bits: nat)
    requires 3 <= Exponent(bits) && Canonical(bits)
    ensures TargetToBits(BitsToTarget(bits)) == Returned(bits)
  {
    SixDigitsEncoded(Coefficient(bits), Exponent(bits));
    ModSmall(Coefficient(bits), 0x80_0000);
    SplitBits(bits);
  }

  /** Decoding then encoding gives the same bits exactly for the canonical forms. */
  lemma EncodeDecoded(bits: nat)
    requires 3 <= Exponent(bits)
    ensures TargetToBits(BitsToTarget(bits)) == Returned(bits) <==> Canonical(bits)
  {
    var t := BitsToTarget(bits);
    if Canonical(bits) {
      CanonicalEncodes(bits);
    } else if TargetToBits(t) == Returned(bits) {
      ExponentFromDigits(t);
      var e := StoredExponent(t);
      var c := t / Pow(256, e - 3) % 0x80_0000;
      FieldsOf(e, c);
      DivModUnique(bits, 0x100_0000, e, c);
      FewerDigits(bits);
    }
  }

  // ----- Retargeting -----

  function Clamped(timespan: int): (r: nat)
    ensures TARGET_TIMESPAN / 4 <= r <= TARGET_TIMESPAN * 4
  {
    var atLeast := if timespan < TARGET_TIMESPAN / 4 then TARGET_TIMESPAN / 4 else timespan;
    if TARGET_TIMESPAN * 4 < atLeast then TARGET_TIMESPAN * 4 else atLeast
  }

  function NewTarget(past: nat, timespan: int): nat {
    past * Clamped(timespan) / TARGET_TIMESPAN
  }

  /** The arithmetic of get_next_bits; a float target cannot be formatted and raises. */
  function Retargeted(pastBits: nat, timespan: int): Outcome<nat> {
    if Exponent(pastBits) < 3 then Raised
    else TargetToBits(NewTarget(BitsToTarget(pastBits), timespan))
  }

  lemma ScaledDown(past: nat, k: nat)
    requires 302400 <= k <= 4838400
    ensures past / 4 <= past * k / 1209600 <= 4 * past
  {
    MulMonotone(past, past, 302400, k);
    MulMonotone(past, past, k, 4838400);
    DivMonotone(past * 302400, past * k, 1209600);
    DivMonotone(past * k, past * 4838400, 1209600);
  }

  /** From half a week to eight weeks the new target is the old one times the timespan over two weeks, rounded down;
      below and above, it is the one at the bound. */
  lemma NewTargetExactly(past: nat, timespan: int)
    ensures 302400 <= timespan <= 4838400 ==>
              NewTarget(past, timespan) * 1209600 <= past * timespan < (NewTarget(past, timespan) + 1) * 1209600
    ensures timespan < 302400 ==> NewTarget(past, timespan) == past / 4
    ensures 4838400 < timespan ==> NewTarget(past, timespan) == 4 * past
  {
    var product := past * Clamped(timespan);
    DivModForm(product, 1209600);
    if timespan < 302400 {
      DivModForm(past, 4);
      DivModUnique(product, 1209600, past / 4, past % 4 * 302400);
    } else if 4838400 < timespan {
      DivModUnique(product, 1209600, 4 * past, 0);
    }
  }

  /** A retarget moves the target by at most a factor of four. */
  lemma TargetWithinFour(past: nat, timespan: int)
    ensures past / 4 <= NewTarget(past, timespan) <= 4 * past
  {
    ScaledDown(past, Clamped(timespan));
  }

  /** A longer timespan, or an easier old target, never makes the new target harder. */
  lemma TargetMonotone(past: nat, past': nat, timespan: int, timespan': int)
    requires past <= past' && timespan <= timespan'
    ensures NewTarget(past, timespan) <= NewTarget(past', timespan')
  {
    MulMonotone(past, past', Clamped(timespan), Clamped(timespan'));
    DivMonotone(past * Clamped(timespan), past' * Clamped(timespan'), TARGET_TIMESPAN);
  }

  /** The target in force after a retarget is at most four times the one it was computed from. */
  lemma RetargetedBounds(pastBits: nat, timespan: int)
    requires Retargeted(pastBits, timespan).Returned?
    ensures 3 <= Exponent(Retargeted(pastBits, timespan).value)
    ensures BitsToTarget(Retargeted(pastBits, timespan).value) <= 4 * BitsToTarget(pastBits)
  {
    var target := NewTarget(BitsToTarget(pastBits), timespan);
    EncoderRaises(target);
    EncodedFields(target);
    NeverRaised(target);
    TargetWithinFour(BitsToTarget(pastBits), timespan);
  }

  /** A retarget raises exactly from bits with a float target and to targets of fewer than six digits; otherwise it
      encodes the new target. */
  lemma {:induction false} RetargetedExactly(pastBits: nat, timespan: int)
    ensures Exponent(pastBits) < 3 ==> Retargeted(pastBits, timespan) == Raised
    ensures 3 <= Exponent(pastBits) ==>
              var target := NewTarget(BitsToTarget(pastBits), timespan);
              && (Retargeted(pastBits, timespan) == Raised <==> |Hex(target)| < 6)
              && (6 <= |Hex(target)| ==> Retargeted(pastBits, timespan) == TargetToBits(target))
  {
    if 3 <= Exponent(pastBits) {
      EncoderRaises(NewTarget(BitsToTarget(pastBits), timespan));
    }
  }

  lemma OnScheduleTarget(past: nat)
    ensures NewTarget(past, TARGET_TIMESPAN) == past
  {
    DivModUnique(past * TARGET_TIMESPAN, TARGET_TIMESPAN, past, 0);
  }

  /** Blocks exactly on schedule keep the difficulty exactly when the bits are canonical. */
  lemma OnSchedule(bits: nat)
    requires 3 <= Exponent(bits)
    ensures Retargeted(bits, TARGET_TIMESPAN) == Returned(bits) <==> Canonical(bits)
  {
    OnScheduleTarget(BitsToTarget(bits));
    EncodeDecoded(bits);
  }

  /** The bits without the top bit of a 16-bit coefficient */
  function WithoutTopBit(bits: nat): nat
    requires 4 <= Exponent(bits) && 0x8000 <= Coefficient(bits) < 0x1_0000
  {
    (Exponent(bits) - 1) * 0x100_0000 + 256 * (Coefficient(bits) - 0x8000)
  }

  lemma OneByteMore(bits: nat)
    requires 4 <= Exponent(bits)
    ensures BitsToTarget(bits) == 256 * Coefficient(bits) * Pow(256, Exponent(bits) - 4)
  {}

  lemma WithoutTopBitFields(bits: nat)
    requires 4 <= Exponent(bits) && 0x8000 <= Coefficient(bits) < 0x1_0000
    ensures Exponent(WithoutTopBit(bits)) == Exponent(bits) - 1
    ensures BitsToTarget(WithoutTopBit(bits)) == 256 * (Coefficient(bits) - 0x8000) * Pow(256, Exponent(bits) - 4)
  {
    FieldsOf(Exponent(bits) - 1, 256 * (Coefficient(bits) - 0x8000));
  }

  lemma MoreThanHalf(c: nat, m: nat)
    requires 0x8000 <= c < 0x1_0000 && 0 < m
    ensures 2 * (256 * (c - 0x8000) * m) < 256 * c * m
  {
    ProductBelow(2 * (256 * (c - 0x8000)), 256 * c, m);
  }

  lemma WithoutTopBitTarget(bits: nat)
    requires 4 <= Exponent(bits) && 0x8000 <= Coefficient(bits) < 0x1_0000
    ensures Exponent(WithoutTopBit(bits)) == Exponent(bits) - 1
    ensures 2 * BitsToTarget(WithoutTopBit(bits)) < BitsToTarget(bits)
  {
    WithoutTopBitFields(bits);
    OneByteMore(bits);
    MoreThanHalf(Coefficient(bits), Pow(256, Exponent(bits) - 4));
  }

  lemma WithoutTopBitEncoded(bits: nat)
    requires 4 <= Exponent(bits) <= 33 && 0x8000 <= Coefficient(bits) < 0x1_0000
    ensures TargetToBits(BitsToTarget(bits)) == Returned(WithoutTopBit(bits))
  {
    var c := 256 * Coefficient(bits);
    OneByteMore(bits);
    SixDigitsEncoded(c, Exponent(bits) - 1);
    DivModUnique(c, 0x80_0000, 1, c - 0x80_0000);
  }

  /** A 16-bit coefficient with its top bit set, such as that of GENESIS_BITS, is not canonical: on schedule
      the retarget loses that bit, and the target more than halves. */
  lemma TopBitLost(bits: nat)
    requires 4 <= Exponent(bits) <= 33 && 0x8000 <= Coefficient(bits) < 0x1_0000
    ensures Retargeted(bits, TARGET_TIMESPAN) == Returned(WithoutTopBit(bits))
    ensures Exponent(WithoutTopBit(bits)) == Exponent(bits) - 1
    ensures 2 * BitsToTarget(WithoutTopBit(bits)) < BitsToTarget(bits)
  {
    OnScheduleTarget(BitsToTarget(bits));
    WithoutTopBitEncoded(bits);
    WithoutTopBitTarget(bits);
  }
}
