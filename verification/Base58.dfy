/** Base58Check: the encoder of addresses and the decoder that recovers the 20-byte hash. */
module Base58 {
  import opened Arithmetic
  import opened Bytes

  datatype Result<+T> = Ok(value: T) | BadCharacter | Overflow | BadChecksum

  // ----- The alphabet 123456789ABCDEFGHJKLMNPQRSTUVWXYZabcdefghijkmnopqrstuvwxyz -----

  function Shift(base: char, k: nat): char
    requires base as int + k < 128
  {
    (base as int + k) as char
  }

  /** alphabet[digit] */
  function Symbol(digit: nat): char
    requires digit < 58
  {
    if digit < 9 then Shift('1', digit)
    else if digit < 17 then Shift('A', digit - 9)
    else if digit < 22 then Shift('J', digit - 17)
    else if digit < 33 then Shift('P', digit - 22)
    else if digit < 44 then Shift('a', digit - 33)
    else Shift('m', digit - 44)
  }

  function Offset(c: char, base: char): int {
    c as int - base as int
  }

  /** alphabet.index(c); BadCharacter where it raises */
  function Index(c: char): Result<nat> {
    if '1' <= c <= '9' then Ok(Offset(c, '1'))
    else if 'A' <= c <= 'H' then Ok(9 + Offset(c, 'A'))
    else if 'J' <= c <= 'N' then Ok(17 + Offset(c, 'J'))
    else if 'P' <= c <= 'Z' then Ok(22 + Offset(c, 'P'))
    else if 'a' <= c <= 'k' then Ok(33 + Offset(c, 'a'))
    else if 'm' <= c <= 'z' then Ok(44 + Offset(c, 'm'))
    else BadCharacter
  }

  /** n consecutive characters */
  function Run(base: char, n: nat): string
    requires base as int + n <= 128
  {
    if n == 0 then "" else Run(base, n - 1) + [Shift(base, n - 1)]
  }

  lemma {:induction false} RunAt(base: char, n: nat, i: nat)
    requires base as int + n <= 128 && i < n
    ensures |Run(base, n)| == n && Run(base, n)[i] == Shift(base, i)
  {
    if n > 1 {
      RunAt(base, n - 1, if i < n - 1 then i else 0);
    }
  }

  const ALPHABET := "123456789" + ("ABCDEFGH" + ("JKLMN" + ("PQRSTUVWXYZ" + ("abcdefghijk" + "mnopqrstuvwxyz"))))

  lemma UpperRuns()
    ensures Run('A', 8) == "ABCDEFGH" && Run('J', 5) == "JKLMN"
  {}

  lemma LateUpperRun()
    ensures Run('P', 11) == "PQRSTUVWXYZ"
  {}

  lemma DigitRun()
    ensures Run('1', 9) == "123456789"
  {}

  lemma LowerRun()
    ensures Run('a', 11) == "abcdefghijk"
  {}

  lemma LastRun()
    ensures Run('m', 14) == "mnopqrstuvwxyz"
  {}

  /** The symbol of a digit is the entry of the alphabet at it. */
  lemma SymbolIsEntry(digit: nat)
    requires digit < 58
    ensures |ALPHABET| == 58 && ALPHABET[digit] == Symbol(digit)
  {
    UpperRuns();
    LateUpperRun();
    DigitRun();
    LowerRun();
    LastRun();
    if digit < 9 {
      RunAt('1', 9, digit);
    } else if digit < 17 {
      RunAt('A', 8, digit - 9);
    } else if digit < 22 {
      RunAt('J', 5, digit - 17);
    } else if digit < 33 {
      RunAt('P', 11, digit - 22);
    } else if digit < 44 {
      RunAt('a', 11, digit - 33);
    } else {
      RunAt('m', 14, digit - 44);
    }
  }

  lemma IndexOfSymbol(digit: nat)
    requires digit < 58
    ensures Index(Symbol(digit)) == Ok(digit)
    ensures Symbol(digit) == '1' <==> digit == 0
  {}

  // ----- Encoding -----

  function Digits(n: nat): string {
    if n == 0 then "" else Digits(n / 58) + [Symbol(n % 58)]
  }

  function LeadingZeros(b: seq<byte>): (z: nat)
    ensures z <= |b|
    ensures forall i :: 0 <= i < z ==> b[i] == 0
    ensures z < |b| ==> b[z] != 0
  {
    if b == [] || b[0] != 0 then 0 else 1 + LeadingZeros(b[1..])
  }

  function Ones(z: nat): string {
    seq(z, _ => '1')
  }

  function WithChecksum(h: Hash, payload: seq<byte>): seq<byte> {
    payload + h(payload)[..4]
  }

  function Encoded(h: Hash, payload: seq<byte>): string {
    var data := WithChecksum(h, payload);
    Ones(LeadingZeros(data)) + Digits(FromBig(data))
  }

  /** The division loop */
  method EncodeDigits(value: nat) returns (result: string)
    ensures result == Digits(value)
  {
    var n := value;
    result := "";
    while n > 0
      invariant 0 <= n && Digits(value) == Digits(n) + result
    {
      var r;
      n, r := n / 58, n % 58;
      SymbolIsEntry(r);
      result := [ALPHABET[r]] + result;
    }
  }

  lemma OneInFront(i: nat, digits: string)
    ensures "1" + (Ones(i) + digits) == Ones(i + 1) + digits
  {
    assert Ones(i + 1) == "1" + Ones(i);
    assert "1" + (Ones(i) + digits) == "1" + Ones(i) + digits;
  }

  /** _base58check_encode */
  method Encode(h: Hash, payload: seq<byte>) returns (result: string)
    ensures result == Encoded(h, payload)
  {
    var data := WithChecksum(h, payload);
    ghost var digits := Digits(FromBig(data));
    result := EncodeDigits(FromBig(data));
    var i := 0;
    while i < |data| && data[i] == 0
      invariant i <= LeadingZeros(data)
      invariant result == Ones(i) + digits
    {
      assert "1" + result == Ones(i + 1) + digits by {
        OneInFront(i, digits);
      }
      result := "1" + result;
      i := i + 1;
    }
  }

  // ----- Both parts of an encoding can be read off it -----

  /** The sum the decoder accumulates */
  function ValueOf(s: string): Result<nat> {
    if s == "" then Ok(0)
    else
      match ValueOf(s[..|s| - 1])
      case Ok(n) => (match Index(s[|s| - 1]) case Ok(d) => Ok(n * 58 + d) case _ => BadCharacter)
      case _ => BadCharacter
  }

  lemma {:induction false} ValueOfDigits(z: nat, n: nat)
    ensures ValueOf(Ones(z) + Digits(n)) == Ok(n)
  {
    var s := Ones(z) + Digits(n);
    if n != 0 {
      ValueOfDigits(z, n / 58);
      IndexOfSymbol(n % 58);
      assert s == Ones(z) + Digits(n / 58) + [Symbol(n % 58)];
      assert s[..|s| - 1] == Ones(z) + Digits(n / 58);
    } else if z != 0 {
      ValueOfDigits(z - 1, 0);
      assert s[..|s| - 1] == Ones(z - 1) + Digits(0);
    }
  }

  function LeadingOnes(s: string): (z: nat)
    ensures z <= |s|
  {
    if s == "" || s[0] != '1' then 0 else 1 + LeadingOnes(s[1..])
  }

  lemma {:induction false} DigitsStart(n: nat)
    requires n != 0
    ensures Digits(n) != "" && Digits(n)[0] != '1'
  {
    IndexOfSymbol(n % 58);
    if n / 58 != 0 {
      DigitsStart(n / 58);
    }
  }

  lemma {:induction false} LeadingOnesOfDigits(z: nat, n: nat)
    ensures LeadingOnes(Ones(z) + Digits(n)) == z
  {
    var s := Ones(z) + Digits(n);
    if z == 0 {
      assert s == Digits(n);
      if n != 0 {
        DigitsStart(n);
      }
    } else {
      LeadingOnesOfDigits(z - 1, n);
      assert s[1..] == Ones(z - 1) + Digits(n);
    }
  }

  lemma {:induction false} LeadingZerosAddNothing(b: seq<byte>)
    requires b != [] && b[0] == 0
    ensures FromBig(b) == FromBig(b[1..])
  {
    if |b| > 1 {
      LeadingZerosAddNothing(b[..|b| - 1]);
      assert b[..|b| - 1][1..] == b[1..][..|b| - 2];
    }
  }

  /** The bytes of a string are determined by its zeros at the front and its value. */
  lemma {:induction false} BytesDetermined(a: seq<byte>, b: seq<byte>)
    requires LeadingZeros(a) == LeadingZeros(b) && FromBig(a) == FromBig(b)
    ensures a == b
    decreases |a|
  {
    if LeadingZeros(a) > 0 {
      LeadingZerosAddNothing(a);
      LeadingZerosAddNothing(b);
      BytesDetermined(a[1..], b[1..]);
    } else {
      SameWithoutZeros(a, b);
    }
  }

  lemma {:induction false} PositiveValue(a: seq<byte>)
    requires a != [] && a[0] != 0
    ensures FromBig(a) > 0
  {
    if |a| > 1 {
      PositiveValue(a[..|a| - 1]);
    }
  }

  lemma {:induction false} SameWithoutZeros(a: seq<byte>, b: seq<byte>)
    requires (a == [] || a[0] != 0) && (b == [] || b[0] != 0) && FromBig(a) == FromBig(b)
    ensures a == b
    decreases |a|
  {
    if a != [] {
      PositiveValue(a);
    }
    if b != [] {
      PositiveValue(b);
    }
    if a != [] && b != [] {
      SameWithoutZeros(a[..|a| - 1], b[..|b| - 1]);
      assert a == a[..|a| - 1] + [a[|a| - 1]] && b == b[..|b| - 1] + [b[|b| - 1]];
    }
  }

  /** No two payloads of any lengths share an encoding. */
  lemma EncodedInjective(h: Hash, p: seq<byte>, q: seq<byte>)
    requires Encoded(h, p) == Encoded(h, q)
    ensures p == q
  {
    var a, b := WithChecksum(h, p), WithChecksum(h, q);
    ValueOfDigits(LeadingZeros(a), FromBig(a));
    ValueOfDigits(LeadingZeros(b), FromBig(b));
    LeadingOnesOfDigits(LeadingZeros(a), FromBig(a));
    LeadingOnesOfDigits(LeadingZeros(b), FromBig(b));
    BytesDetermined(a, b);
    assert p == a[..|a| - 4] && q == b[..|b| - 4];
  }

  // ----- Decoding an address -----

  /** lstrip of zero bytes */
  function StripLeft(b: seq<byte>): seq<byte> {
    b[LeadingZeros(b)..]
  }

  /** The first width from w on that holds n; the widest does. */
  function FirstWidth(n: nat, w: nat, widest: nat): (r: nat)
    requires w <= widest && n < Pow(256, widest)
    ensures w <= r <= widest && n < Pow(256, r)
    ensures r == w || Pow(256, r - 1) <= n
    decreases widest - w
  {
    if n < Pow(256, w) then w else FirstWidth(n, w + 1, widest)
  }

  /** The bytes whose checksum is tested */
  function AddressBytes(n: nat): seq<byte>
    requires n < Pow(256, 25)
  {
    var data := StripLeft(ToBig(n, 25));
    if |data| != 25 then ToBig(n, FirstWidth(n, 20, 25)) else data
  }

  function Hash160Of(h: Hash, address: string): Result<seq<byte>> {
    match ValueOf(address)
    case Ok(n) =>
      if n >= Pow(256, 25) then Overflow
      else
        var data := AddressBytes(n);
        var payload := if |data| < 4 then [] else data[..|data| - 4];
        if data != WithChecksum(h, payload) then BadChecksum
        else if payload == [] then Ok([]) else Ok(payload[1..])
    case _ => BadCharacter
  }

  /** The widths are tried from 20 on. */
  method ToAddressBytes(n: nat) returns (data: seq<byte>)
    requires n < Pow(256, 25)
    ensures data == AddressBytes(n) && 20 <= |data|
  {
    data := StripLeft(ToBig(n, 25));
    if |data| != 25 {
      var length := 20;
      while length < 30 && n >= Pow(256, length)
        invariant 20 <= length <= 25 && FirstWidth(n, 20, 25) == FirstWidth(n, length, 25)
      {
        length := length + 1;
      }
      data := ToBig(n, length);
    }
  }

  /** The accumulation over the characters */
  method Accumulate(address: string) returns (r: Result<nat>)
    ensures r == ValueOf(address)
  {
    var n := 0;
    for i := 0 to |address|
      invariant 0 <= n && ValueOf(address[..i]) == Ok(n)
    {
      assert address[..i + 1][..i] == address[..i];
      var d := Index(address[i]);
      if d.BadCharacter? {
        BadPrefix(address, i + 1);
        return BadCharacter;
      }
      n := n * 58 + d.value;
    }
    assert address[..|address|] == address;
    return Ok(n);
  }

  lemma ChecksumSplits(h: Hash, data: seq<byte>, payload: seq<byte>, checksum: seq<byte>)
    requires 20 <= |data| && payload == data[..|data| - 4] && checksum == data[|data| - 4..]
    ensures checksum == h(payload)[..4] <==> data == WithChecksum(h, payload)
  {
    assert data == payload + checksum;
  }

  /** _address_to_hash160. Its inner loop over padding never runs: lstrip has left no zero in front. */
  method AddressToHash160(h: Hash, address: string) returns (r: Result<seq<byte>>)
    ensures r == Hash160Of(h, address)
  {
    var value := Accumulate(address);
    if value.BadCharacter? {
      return BadCharacter;
    }
    if value.value >= Pow(256, 25) {
      return Overflow;
    }
    var data := ToAddressBytes(value.value);
    var payload := data[..|data| - 4];
    var checksum := data[|data| - 4..];
    ChecksumSplits(h, data, payload, checksum);
    if checksum != h(payload)[..4] {
      return BadChecksum;
    }
    return Ok(payload[1..]);
  }

  lemma {:induction false} BadPrefix(s: string, k: nat)
    requires k <= |s| && ValueOf(s[..k]) == BadCharacter
    ensures ValueOf(s) == BadCharacter
    decreases |s| - k
  {
    if k == |s| {
      assert s[..k] == s;
    } else {
      assert s[..k + 1][..k] == s[..k];
      BadPrefix(s, k + 1);
    }
  }

  lemma {:induction false} NonzeroFrontFills(b: seq<byte>)
    requires b != [] && b[0] != 0
    ensures StripLeft(ToBig(FromBig(b), |b|)) == b
  {
    ToFromBig(b);
  }

  lemma {:induction false} ZeroFrontFits(b: seq<byte>)
    requires b != [] && b[0] == 0
    ensures FromBig(b) < Pow(256, |b| - 1)
  {
    LeadingZerosAddNothing(b);
    FromBigBound(b[1..]);
  }

  lemma ValueOfEncoded(h: Hash, payload: seq<byte>)
    ensures ValueOf(Encoded(h, payload)) == Ok(FromBig(WithChecksum(h, payload)))
  {
    var data := WithChecksum(h, payload);
    ValueOfDigits(LeadingZeros(data), FromBig(data));
  }

  /** 25 bytes without a zero in front come back as they were. */
  lemma {:induction false} FullBytes(data: seq<byte>)
    requires |data| == 25 && data[0] != 0
    ensures FromBig(data) < Pow(256, 25) && AddressBytes(FromBig(data)) == data
  {
    FromBigBound(data);
    NonzeroFrontFills(data);
  }

  /** With a zero in front they come back shorter. */
  lemma {:induction false} ShortBytes(data: seq<byte>)
    requires |data| == 25 && data[0] == 0
    ensures FromBig(data) < Pow(256, 25) && |AddressBytes(FromBig(data))| <= 24
  {
    FromBigBound(data);
    ZeroFrontFits(data);
    NarrowValue(FromBig(data));
  }

  /** What is decoded is four bytes of checksum and one of version shorter than the bytes. */
  lemma {:induction false} DecodedLength(h: Hash, address: string, n: nat)
    requires ValueOf(address) == Ok(n) && n < Pow(256, 25)
    ensures Hash160Of(h, address).Ok? ==>
              || (|AddressBytes(n)| < 5 && Hash160Of(h, address).value == [])
              || |Hash160Of(h, address).value| == |AddressBytes(n)| - 5
  {}

  lemma {:induction false} DecodedPayload(h: Hash, address: string, payload: seq<byte>)
    requires payload != [] && ValueOf(address) == Ok(FromBig(WithChecksum(h, payload)))
    requires FromBig(WithChecksum(h, payload)) < Pow(256, 25)
    requires AddressBytes(FromBig(WithChecksum(h, payload))) == WithChecksum(h, payload)
    ensures Hash160Of(h, address) == Ok(payload[1..])
  {
    assert WithChecksum(h, payload)[..|payload|] == payload;
  }

  /** An address decodes to the 20 bytes it was made from exactly when its version byte is not zero. */
  lemma RoundTrip(h: Hash, payload: seq<byte>)
    requires |payload| == 21
    ensures Hash160Of(h, Encoded(h, payload)) == Ok(payload[1..]) <==> payload[0] != 0
  {
    var data := WithChecksum(h, payload);
    ValueOfEncoded(h, payload);
    if payload[0] != 0 {
      FullBytes(data);
      DecodedPayload(h, Encoded(h, payload), payload);
    } else {
      ShortBytes(data);
      DecodedLength(h, Encoded(h, payload), FromBig(data));
    }
  }

  lemma {:induction false} ZeroInFront(n: nat, w: nat)
    requires n < Pow(256, w)
    ensures n < Pow(256, w + 1) && ToBig(n, w + 1)[0] == 0
  {
    PowMonotone(256, w, w + 1);
    FromToBig(n, w + 1);
    FrontByteNonzero(ToBig(n, w + 1));
  }

  lemma {:induction false} NarrowValue(n: nat)
    requires n < Pow(256, 24)
    ensures n < Pow(256, 25) && |AddressBytes(n)| <= 24
  {
    ZeroInFront(n, 24);
    FirstWidthFits(n, 20, 24, 25);
  }

  lemma {:induction false} FirstWidthFits(n: nat, w: nat, fits: nat, widest: nat)
    requires w <= fits <= widest && n < Pow(256, fits) && n < Pow(256, widest)
    ensures FirstWidth(n, w, widest) <= fits
    decreases fits - w
  {
    if w < fits && n >= Pow(256, w) {
      FirstWidthFits(n, w + 1, fits, widest);
    }
  }

  lemma {:induction false} FrontByteNonzero(b: seq<byte>)
    requires b != [] && FromBig(b) < Pow(256, |b| - 1)
    ensures b[0] == 0
  {
    FrontByte(b);
    if b[0] != 0 {
      MulMonotone(Pow(256, |b| - 1), Pow(256, |b| - 1), 1, b[0]);
    }
  }

  lemma {:induction false} FrontByte(b: seq<byte>)
    requires b != []
    ensures Pow(256, |b| - 1) * b[0] <= FromBig(b)
  {
    if |b| == 1 {
      assert b[..0] == [];
    } else {
      FrontByte(b[..|b| - 1]);
      var p := Pow(256, |b| - 2);
      assert Pow(256, |b| - 1) == 256 * p;
      assert 256 * p * b[0] == 256 * (p * b[0]);
    }
  }

  // ----- Addresses that decode alike -----

  /** Without the 1s in front */
  function StripOnes(s: string): string {
    s[LeadingOnes(s)..]
  }

  lemma {:induction false} LeadingOnesAre(s: string)
    ensures LeadingOnes(s) <= |s| && s == Ones(LeadingOnes(s)) + StripOnes(s)
    ensures StripOnes(s) != "" ==> StripOnes(s)[0] != '1'
  {
    if s != "" && s[0] == '1' {
      LeadingOnesAre(s[1..]);
      assert s == [s[0]] + s[1..];
      assert s[LeadingOnes(s)..] == s[1..][LeadingOnes(s[1..])..];
    }
  }

  /** The decoder takes any number of 1s in front. */
  lemma {:induction false} OnesAddNothing(z: nat, s: string)
    ensures ValueOf(Ones(z) + s) == ValueOf(s)
    decreases |s|
  {
    var all := Ones(z) + s;
    if s == "" {
      assert all == Ones(z) + Digits(0);
      ValueOfDigits(z, 0);
    } else {
      OnesAddNothing(z, s[..|s| - 1]);
      assert all[..|all| - 1] == Ones(z) + s[..|s| - 1];
    }
  }

  lemma SymbolOfIndex(c: char)
    requires Index(c).Ok?
    ensures Index(c).value < 58 && Symbol(Index(c).value) == c
  {}

  /** A string that starts with no 1 is the digits of its value. */
  lemma {:induction false} DigitsOfValue(s: string)
    requires s == "" || s[0] != '1'
    requires ValueOf(s).Ok?
    ensures Digits(ValueOf(s).value) == s
    decreases |s|
  {
    if s != "" {
      var front, c := s[..|s| - 1], s[|s| - 1];
      DigitsOfValue(front);
      SymbolOfIndex(c);
      LastDigit(ValueOf(front).value, Index(c).value);
      assert s == front + [c];
      assert front == "" ==> c != '1';
    }
  }

  lemma LastDigit(n: nat, d: nat)
    requires d < 58
    ensures (n * 58 + d) / 58 == n && (n * 58 + d) % 58 == d
  {}

  /** Two strings over the alphabet have the same value exactly when they are the same but for the 1s in front. */
  lemma {:induction false} SameValueExactly(s: string, t: string)
    requires ValueOf(s).Ok? && ValueOf(t).Ok?
    ensures ValueOf(s) == ValueOf(t) <==> StripOnes(s) == StripOnes(t)
  {
    LeadingOnesAre(s);
    LeadingOnesAre(t);
    OnesAddNothing(LeadingOnes(s), StripOnes(s));
    OnesAddNothing(LeadingOnes(t), StripOnes(t));
    DigitsOfValue(StripOnes(s));
    DigitsOfValue(StripOnes(t));
  }

  /** So no address is the only one of its hash. */
  lemma OnesDecodeAlike(h: Hash, z: nat, address: string)
    ensures Hash160Of(h, Ones(z) + address) == Hash160Of(h, address)
  {
    OnesAddNothing(z, address);
  }

  lemma {:induction false} AddressBytesValue(n: nat)
    requires n < Pow(256, 25)
    ensures FromBig(AddressBytes(n)) == n
  {
    var data := StripLeft(ToBig(n, 25));
    if |data| != 25 {
      FromToBig(n, FirstWidth(n, 20, 25));
    } else {
      FromToBig(n, 25);
      assert data == ToBig(n, 25);
    }
  }

  /** Two addresses that are decoded are decoded from the same version byte, hash and checksum exactly when they are
      the same but for the 1s in front. */
  lemma {:induction false} DecodeAlikeExactly(h: Hash, s: string, t: string)
    requires Hash160Of(h, s).Ok? && Hash160Of(h, t).Ok?
    ensures ValueOf(s).Ok? && ValueOf(t).Ok? && ValueOf(s).value < Pow(256, 25) && ValueOf(t).value < Pow(256, 25)
    ensures AddressBytes(ValueOf(s).value) == AddressBytes(ValueOf(t).value) <==> StripOnes(s) == StripOnes(t)
    ensures StripOnes(s) == StripOnes(t) ==> Hash160Of(h, s) == Hash160Of(h, t)
  {
    AddressBytesValue(ValueOf(s).value);
    AddressBytesValue(ValueOf(t).value);
    SameValueExactly(s, t);
  }

  // ----- Exactly what is encoded and decoded, on the bytes and the hash -----

  lemma CharacterExactly(c: char)
    ensures Index(c).Ok? <==> c in ALPHABET
    ensures Index(c).Ok? ==> Index(c).value < 58 == |ALPHABET| && ALPHABET[Index(c).value] == c
  {
    SymbolIsEntry(0);
    if Index(c).Ok? {
      SymbolOfIndex(c);
      SymbolIsEntry(Index(c).value);
    }
    forall d | 0 <= d < 58 && ALPHABET[d] == c
      ensures Index(c).Ok?
    {
      SymbolIsEntry(d);
      IndexOfSymbol(d);
    }
  }

  /** A string has a value exactly when all its characters are in the alphabet. */
  lemma {:induction false} ValueExactly(s: string)
    ensures ValueOf(s).Ok? <==> forall i :: 0 <= i < |s| ==> Index(s[i]).Ok?
    ensures ValueOf(s).Ok? || ValueOf(s) == BadCharacter
    decreases |s|
  {
    if s != "" {
      var front := s[..|s| - 1];
      ValueExactly(front);
      assert forall i :: 0 <= i < |front| ==> s[i] == front[i];
    }
  }

  /** An encoding has the value of the payload and the first four bytes of its hash, and a 1 for each zero byte in
      front of them. */
  lemma {:induction false} EncodedExactly(h: Hash, payload: seq<byte>)
    ensures ValueOf(Encoded(h, payload)) == Ok(FromBig(payload + h(payload)[..4]))
    ensures LeadingOnes(Encoded(h, payload)) == LeadingZeros(payload + h(payload)[..4])
  {
    var data := payload + h(payload)[..4];
    ValueOfDigits(LeadingZeros(data), FromBig(data));
    LeadingOnesOfDigits(LeadingZeros(data), FromBig(data));
  }

  /** The bytes of a value: 20 at least, and more only as far as it needs them. */
  lemma {:induction false} AddressBytesExactly(n: nat)
    requires n < Pow(256, 25)
    ensures var data := AddressBytes(n);
            && FromBig(data) == n && 20 <= |data| <= 25
            && (|data| == 20 || Pow(256, |data| - 1) <= n)
  {
    var data := ToBig(n, 25);
    AddressBytesValue(n);
    if |StripLeft(data)| == 25 && n < Pow(256, 24) {
      ZeroInFront(n, 24);
      assert false;
    }
  }

  /** The decoder raises exactly at a character outside the alphabet, a value of more than 25 bytes, or a checksum that
      is not the first four bytes of the hash, in this order. */
  lemma {:induction false} DecodeRaises(h: Hash, address: string)
    ensures Hash160Of(h, address) == BadCharacter <==> exists i :: 0 <= i < |address| && !Index(address[i]).Ok?
    ensures Hash160Of(h, address) == Overflow <==> ValueOf(address).Ok? && Pow(256, 25) <= ValueOf(address).value
  {
    ValueExactly(address);
  }

  /** Otherwise it returns what stands between the version byte and the checksum. */
  lemma {:induction false} DecodesExactly(h: Hash, address: string, n: nat)
    requires ValueOf(address) == Ok(n) && n < Pow(256, 25)
    ensures var data := AddressBytes(n);
            && 20 <= |data|
            && Hash160Of(h, address)
               == if data[|data| - 4..] == h(data[..|data| - 4])[..4] then Ok(data[1..|data| - 4]) else BadChecksum
  {
    var data := AddressBytes(n);
    AddressBytesExactly(n);
    ChecksumSplits(h, data, data[..|data| - 4], data[|data| - 4..]);
    assert data[..|data| - 4][1..] == data[1..|data| - 4];
  }
}
