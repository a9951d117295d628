/** Byte strings and the fixed-width integer encodings of int.to_bytes and struct.pack. */
module Bytes {
  import opened Arithmetic

  type byte = x: int | 0 <= x < 256

  /** The result of SHA-256 */
  type Digest = d: seq<byte> | |d| == 32 witness seq(32, _ => 0)

  /** Double SHA-256 */
  type Hash = seq<byte> -> Digest

  /** int.from_bytes(b, "big") */
  function FromBig(b: seq<byte>): (n: nat) {
    if b == [] then 0 else FromBig(b[..|b| - 1]) * 256 + b[|b| - 1]
  }

  /** n.to_bytes(width, "big"); callers check n < 256^width, where Python raises OverflowError */
  function ToBig(n: nat, width: nat): (b: seq<byte>)
    ensures |b| == width
  {
    if width == 0 then [] else ToBig(n / 256, width - 1) + [n % 256]
  }

  function Reverse<T>(s: seq<T>): (r: seq<T>)
    ensures |r| == |s|
    ensures forall i :: 0 <= i < |s| ==> r[i] == s[|s| - 1 - i]
  {
    if s == [] then [] else Reverse(s[1..]) + [s[0]]
  }

  lemma {:induction false} ReverseInjective<T>(s: seq<T>, t: seq<T>)
    requires Reverse(s) == Reverse(t)
    ensures s == t
  {
    assert |s| == |t|;
    forall i | 0 <= i < |s|
      ensures s[i] == t[i]
    {
      assert s[i] == Reverse(s)[|s| - 1 - i] && t[i] == Reverse(t)[|s| - 1 - i];
    }
  }

  /** struct.pack("<I"), "<B" and "<q" at their widths: the little-endian order */
  function ToLittle(n: nat, width: nat): (b: seq<byte>)
    ensures |b| == width
  {
    Reverse(ToBig(n, width))
  }

  function FromLittle(b: seq<byte>): (n: nat) {
    FromBig(Reverse(b))
  }

  lemma {:induction false} FromBigBound(b: seq<byte>)
    ensures FromBig(b) < Pow(256, |b|)
  {
    if b == [] {
    } else {
      FromBigBound(b[..|b| - 1]);
    }
  }

  lemma {:induction false} FromToBig(n: nat, width: nat)
    requires n < Pow(256, width)
    ensures FromBig(ToBig(n, width)) == n
  {
    if width == 0 {
    } else {
      assert n / 256 < Pow(256, width - 1);
      FromToBig(n / 256, width - 1);
      assert ToBig(n, width)[..width - 1] == ToBig(n / 256, width - 1);
    }
  }

  lemma {:induction false} ToFromBig(b: seq<byte>)
    ensures ToBig(FromBig(b), |b|) == b
  {
    if b == [] {
    } else {
      ToFromBig(b[..|b| - 1]);
      assert b == b[..|b| - 1] + [b[|b| - 1]];
    }
  }

  lemma {:induction false} FromToLittle(n: nat, width: nat)
    requires n < Pow(256, width)
    ensures FromLittle(ToLittle(n, width)) == n
  {
    FromToBig(n, width);
    assert Reverse(Reverse(ToBig(n, width))) == ToBig(n, width);
  }

  lemma {:induction false} ToLittleInjective(m: nat, n: nat, width: nat)
    requires m < Pow(256, width) && n < Pow(256, width)
    requires ToLittle(m, width) == ToLittle(n, width)
    ensures m == n
  {
    FromToLittle(m, width);
    FromToLittle(n, width);
  }
}
