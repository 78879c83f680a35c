/**
 HOTP and TOTP (RFC 4226, RFC 6238) as `totp.cpp` computes them. The HMAC is an arbitrary function with the digest
 length of its algorithm.
 */
module Totp {
  import opened Bits
  import opened Wrappers
  import Base32

  datatype Algo = SHA1 | SHA256 | SHA512

  function MacSize(algo: Algo): nat {
    match algo
    case SHA1 => 20
    case SHA256 => 32
    case SHA512 => 64
  }

  type Hmac = (Algo, seq<byte>, seq<byte>) -> seq<byte>

  ghost predicate HasDigestLength(hmac: Hmac) {
    forall a, key, msg :: |hmac(a, key, msg)| == MacSize(a)
  }

  datatype Totp = Totp(secret: seq<byte>, digits: int, period: int, algo: Algo, hmac: Hmac)

  ghost predicate Valid(t: Totp) {
    6 <= t.digits <= 10 && t.period > 0 && HasDigestLength(t.hmac)
  }

  /** The constructor: the secret is decoded before the other arguments are checked. */
  method Create(secretBase32: string, digits: int, period: int, algo: Algo, hmac: Hmac) returns (r: Result<Totp>)
    requires HasDigestLength(hmac)
    ensures r.Ok? <==> Base32.DecodeText(secretBase32).Ok? && 6 <= digits <= 10 && period > 0
    ensures
      r.Ok? ==> Valid(r.value) && r.value == Totp(Base32.DecodeText(secretBase32).value, digits, period, algo, hmac)
    ensures Base32.DecodeText(secretBase32).Err? ==> r == Err("TOTP: invalid Base32 character")
    ensures
      r.Err? && Base32.DecodeText(secretBase32).Ok? ==>
        r == Err(if digits < 6 || digits > 10 then "TOTP: digits must be between 6 and 10" else "TOTP: period must be positive")
  {
    var secret := Base32.Decode(secretBase32);
    if secret.Err? {
      return Err(secret.message);
    }
    if digits < 6 || digits > 10 {
      return Err("TOTP: digits must be between 6 and 10");
    }
    if period <= 0 {
      return Err("TOTP: period must be positive");
    }
    return Ok(Totp(secret.value, digits, period, algo, hmac));
  }

  // ----- the eight message bytes -----

  function BigEndian(v: nat, n: nat): (r: seq<byte>)
    ensures |r| == n
  {
    if n == 0 then [] else BigEndian(v / 256, n - 1) + [v % 256]
  }

  function FromBigEndian(bytes: seq<byte>): nat {
    if bytes == [] then 0 else 256 * FromBigEndian(bytes[..|bytes| - 1]) + bytes[|bytes| - 1]
  }

  function Pow256(n: nat): (p: nat)
    ensures p > 0
  {
    if n == 0 then 1 else 256 * Pow256(n - 1)
  }

  lemma {:induction false} BigEndianInverse(v: nat, n: nat)
    requires v < Pow256(n)
    ensures FromBigEndian(BigEndian(v, n)) == v
  {
    if n > 0 {
      BigEndianInverse(v / 256, n - 1);
      assert BigEndian(v, n)[..n - 1] == BigEndian(v / 256, n - 1);
    }
  }

  /** Eight bytes hold every 64-bit counter. */
  lemma CounterRoundTrip(counter: u64)
    ensures FromBigEndian(BigEndian(counter, 8)) == counter
  {
    assert Pow256(4) == TWO32;
    assert Pow256(6) == 65536 * Pow256(4);
    assert Pow256(8) == 65536 * Pow256(6);
    BigEndianInverse(counter, 8);
  }

  method CounterBytes(counter0: u64) returns (msg: seq<byte>)
    ensures msg == BigEndian(counter0, 8)
  {
    var bytes := new byte[8](_ => 0);
    var counter: nat := counter0;
    var i := 7;
    while i >= 0
      invariant -1 <= i <= 7
      invariant BigEndian(counter0, 8) == BigEndian(counter, i + 1) + bytes[i + 1..]
    {
      AndMask(counter, 8);
      ShrIsDivision(counter, 8);
      SmallPowers();
      bytes[i] := And(counter, 0xFF);
      assert bytes[i..] == [counter % 256] + bytes[i + 1..];
      counter := Shr(counter, 8);
      i := i - 1;
    }
    return bytes[..];
  }

  // ----- dynamic truncation -----

  /** Section 5.3 of RFC 4226: 31 bits of the four bytes at the offset held in the last nibble. */
  function Truncated(mac: seq<byte>): (r: nat)
    requires |mac| >= 20
    ensures r < 0x8000_0000
  {
    var offset := mac[|mac| - 1] % 16;
    FromBigEndian(mac[offset..offset + 4]) % 0x8000_0000
  }

  method DynamicTruncation(mac: seq<byte>) returns (code: u32)
    requires |mac| >= 20
    ensures code == Truncated(mac)
  {
    SmallPowers();
    AndMask(mac[|mac| - 1], 4);
    var offset := And(mac[|mac| - 1], 0x0F);
    AndMask(mac[offset], 7);
    var b0: nat, b1: nat, b2: nat, b3: nat :=
      And(mac[offset], 0x7F), mac[offset + 1], mac[offset + 2], mac[offset + 3];
    FourBytes(mac[offset..offset + 4]);
    AssembleBytes(b0, b1, b2, b3);
    code := Or(Or(Or(b0 * 0x100_0000, b1 * 0x1_0000), b2 * 0x100), b3);
  }

  function Weighted(b0: nat, b1: nat, b2: nat, b3: nat): nat {
    b0 * 0x100_0000 + b1 * 0x1_0000 + b2 * 0x100 + b3
  }

  lemma FourBytes(b: seq<byte>)
    requires |b| == 4
    ensures FromBigEndian(b) % 0x8000_0000 == Weighted(b[0] % 128, b[1], b[2], b[3])
  {
    var b0: nat, b1: nat, b2: nat, b3: nat := b[0], b[1], b[2], b[3];
    assert b[..3][..2] == b[..2] && b[..2][..1] == b[..1] && b[..1][..0] == [];
    assert FromBigEndian(b[..1]) == b0;
    assert FromBigEndian(b[..2]) == 256 * b0 + b1;
    assert FromBigEndian(b[..3]) == 256 * (256 * b0 + b1) + b2;
    var low := Weighted(b0 % 128, b1, b2, b3);
    assert FromBigEndian(b) == (b0 / 128) * 0x8000_0000 + low;
    DivModUnique(FromBigEndian(b), 0x8000_0000, b0 / 128, low);
  }

  lemma AssembleBytes(b0: nat, b1: nat, b2: nat, b3: nat)
    requires b0 < 128 && b1 < 256 && b2 < 256 && b3 < 256
    ensures Or(Or(Or(b0 * 0x100_0000, b1 * 0x1_0000), b2 * 0x100), b3) == Weighted(b0, b1, b2, b3)
  {
    SmallPowers();
    Pow2Add(8, 8);
    Pow2Add(16, 8);
    OrDisjoint(b0, b1 * 0x1_0000, 24);
    OrDisjoint(b0 * 0x100 + b1, b2 * 0x100, 16);
    OrDisjoint(b0 * 0x1_0000 + b1 * 0x100 + b2, b3, 8);
  }

  // ----- decimal output -----

  function Pow10(n: nat): (p: nat)
    ensures p > 0
  {
    if n == 0 then 1 else 10 * Pow10(n - 1)
  }

  function Digit(d: nat): char
    requires d < 10
  {
    ('0' as int + d) as char
  }

  predicate IsDigits(s: string) {
    forall i :: 0 <= i < |s| ==> '0' <= s[i] <= '9'
  }

  function DecimalValue(s: string): nat
    requires IsDigits(s)
  {
    if s == [] then 0
    else 10 * DecimalValue(s[..|s| - 1]) + (s[|s| - 1] as int - '0' as int)
  }

  /** The shortest decimal form. */
  function Decimal(n: nat): (s: string)
    ensures IsDigits(s) && |s| >= 1
  {
    if n < 10 then [Digit(n)] else Decimal(n / 10) + [Digit(n % 10)]
  }

  /** Zeros in front up to the width; a longer text is left as it is. */
  function PadLeft(s: string, width: int): (r: string)
    ensures IsDigits(s) ==> IsDigits(r)
  {
    if |s| >= width then s else seq(width - |s|, _ => '0') + s
  }

  lemma {:induction false} DecimalDenotes(n: nat)
    ensures DecimalValue(Decimal(n)) == n
  {
    if n < 10 {
      assert [Digit(n)][..0] == [];
    } else {
      DecimalDenotes(n / 10);
      assert Decimal(n)[..|Decimal(n)| - 1] == Decimal(n / 10);
    }
  }

  lemma {:induction false} DecimalLength(n: nat, width: nat)
    requires width >= 1 && n < Pow10(width)
    ensures |Decimal(n)| <= width
  {
    assert Pow10(width) == 10 * Pow10(width - 1);
    if n >= 10 {
      assert width > 1;
      DecimalLength(n / 10, width - 1);
    }
  }

  lemma {:induction false} LeadingZeros(k: nat, s: string)
    requires IsDigits(s)
    ensures IsDigits(seq(k, _ => '0') + s) && DecimalValue(seq(k, _ => '0') + s) == DecimalValue(s)
  {
    var z := seq(k, _ => '0') + s;
    if s != [] {
      LeadingZeros(k, s[..|s| - 1]);
      assert z[..|z| - 1] == seq(k, _ => '0') + s[..|s| - 1];
    } else if k > 0 {
      LeadingZeros(k - 1, s);
      assert z[..|z| - 1] == seq(k - 1, _ => '0') + s;
    }
  }

  /** Equal-length digit strings that denote the same number are equal: a code of fixed length is its number. */
  lemma {:induction false} DigitsDetermined(a: string, b: string)
    requires |a| == |b| && IsDigits(a) && IsDigits(b) && DecimalValue(a) == DecimalValue(b)
    ensures a == b
  {
    if a != [] {
      var n := |a| - 1;
      var x, y := a[n] as int - '0' as int, b[n] as int - '0' as int;
      assert 10 * DecimalValue(a[..n]) + x == 10 * DecimalValue(b[..n]) + y;
      assert x == y;
      DigitsDetermined(a[..n], b[..n]);
      assert a == a[..n] + [a[n]] && b == b[..n] + [b[n]];
    }
  }

  /** 10 to the number of digits, in 32-bit arithmetic: 10^10 wraps to 1410065408. */
  function Modulus(digits: int): (m: nat)
    requires 6 <= digits <= 10
    ensures m > 0
  {
    PowersOfTen();
    Pow10(digits) % TWO32
  }

  lemma PowersOfTen()
    ensures Pow10(6) == 1_000_000 && Pow10(7) == 10_000_000 && Pow10(8) == 100_000_000 && Pow10(9) == 1_000_000_000
    ensures Pow10(10) == 10_000_000_000 && Pow10(10) % TWO32 == 1_410_065_408
  {
    assert Pow10(2) == 100;
    assert Pow10(4) == 10_000;
    assert Pow10(6) == 1_000_000;
    assert Pow10(8) == 100_000_000;
  }

  /** The code string of a number: `digits` digits denoting it modulo the 32-bit modulus. */
  function CodeString(val: nat, digits: int): (s: string)
    requires 6 <= digits <= 10
    ensures IsDigits(s)
  {
    PadLeft(Decimal(val % Modulus(digits)), digits)
  }

  lemma CodeStringDenotes(val: nat, digits: int)
    requires 6 <= digits <= 10
    ensures |CodeString(val, digits)| == digits && DecimalValue(CodeString(val, digits)) == val % Modulus(digits)
  {
    CodeBound(val, digits);
    PadDenotes(val % Modulus(digits), digits);
  }

  lemma CodeBound(val: nat, digits: int)
    requires 6 <= digits <= 10
    ensures 0 <= val % Modulus(digits) < Pow10(digits)
  {
    PowersOfTen();
  }

  lemma PadDenotes(code: nat, digits: nat)
    requires digits >= 1 && code < Pow10(digits)
    ensures |PadLeft(Decimal(code), digits)| == digits && DecimalValue(PadLeft(Decimal(code), digits)) == code
  {
    DecimalDenotes(code);
    DecimalLength(code, digits);
    LeadingZeros(digits - |Decimal(code)|, Decimal(code));
  }

  /** `left_pad_int`: exactly `digits` characters, denoting the value modulo the 32-bit modulus. */
  method LeftPadInt(val: u32, digits: int) returns (s: string)
    requires 6 <= digits <= 10
    ensures |s| == digits && IsDigits(s) && DecimalValue(s) == val % Modulus(digits)
  {
    var mod := ModulusLoop(digits);
    CodeStringDenotes(val, digits);
    s := PadLeft(Decimal(val % mod), digits);
  }

  method ModulusLoop(digits: int) returns (mod: nat)
    requires 6 <= digits <= 10
    ensures mod == Modulus(digits)
  {
    mod := 1;
    for i := 0 to digits
      invariant mod == Pow10(i) % TWO32
    {
      TimesTen(Pow10(i));
      mod := mod * 10 % TWO32;
    }
  }

  lemma TimesTen(p: nat)
    ensures (p % TWO32) * 10 % TWO32 == p * 10 % TWO32
  {
    var q := p / TWO32;
    assert p * 10 == (p % TWO32) * 10 + (q * 10) * TWO32;
    AddMultiple((p % TWO32) * 10, TWO32, q * 10);
  }

  // ----- hotp -----

  function HotpValue(t: Totp, counter: u64): (v: nat)
    requires |t.hmac(t.algo, t.secret, BigEndian(counter, 8))| == MacSize(t.algo)
    ensures v < 0x8000_0000
  {
    Truncated(t.hmac(t.algo, t.secret, BigEndian(counter, 8)))
  }

  ghost function HotpCode(t: Totp, counter: u64): string
    requires Valid(t)
  {
    CodeString(HotpValue(t, counter), t.digits)
  }

  method Hotp(t: Totp, counter: u64) returns (code: string)
    requires Valid(t)
    ensures code == HotpCode(t, counter)
  {
    var msg := CounterBytes(counter);
    var bin := DynamicTruncation(t.hmac(t.algo, t.secret, msg));
    code := LeftPadInt(bin, t.digits);
    CodeStringDenotes(bin, t.digits);
    DigitsDetermined(code, CodeString(bin, t.digits));
  }

  /**
   For 6 to 9 digits the code is the truncated value modulo 10^digits, as section 5.3 of RFC 4226 has it. For 10
   digits that modulus would leave every value unchanged; the code does so exactly for values below 1410065408.
   */
  lemma HotpMeetsRfc4226(t: Totp, counter: u64)
    requires Valid(t)
    ensures |HotpCode(t, counter)| == t.digits
    ensures
      DecimalValue(HotpCode(t, counter)) == HotpValue(t, counter) % Pow10(t.digits)
      <==> t.digits < 10 || HotpValue(t, counter) < 1_410_065_408
  {
    CodeStringDenotes(HotpValue(t, counter), t.digits);
    ModulusAgrees(HotpValue(t, counter), t.digits);
  }

  lemma SevenBitMac(mac: seq<byte>)
    requires |mac| >= 20 && forall i :: 0 <= i < |mac| ==> mac[i] == 0x7F
    ensures Truncated(mac) == 0x7F7F_7F7F
  {
    DivModUnique(0x7F, 16, 7, 15);
    FourBytes(mac[15..19]);
    DivModUnique(0x7F, 128, 0, 0x7F);
  }

  /** A ten-digit generator whose code is not the truncated value modulo 10^10: digests of bytes 7F give 0728996735. */
  lemma TenDigitsCanDisagree(counter: u64) returns (t: Totp)
    ensures Valid(t) && t.digits == 10
    ensures HotpValue(t, counter) == HotpValue(t, counter) % Pow10(10) == 2_139_062_143
    ensures DecimalValue(HotpCode(t, counter)) == 728_996_735
  {
    t := Totp([], 10, 30, SHA1, (a, key, msg) => seq(MacSize(a), _ => 0x7F));
    SevenBitMac(t.hmac(t.algo, t.secret, BigEndian(counter, 8)));
    CodeStringDenotes(HotpValue(t, counter), 10);
    PowersOfTen();
    DivModUnique(2_139_062_143, Pow10(10), 0, 2_139_062_143);
    DivModUnique(2_139_062_143, 1_410_065_408, 1, 728_996_735);
  }

  lemma ModulusAgrees(v: nat, digits: int)
    requires 6 <= digits <= 10 && v < 0x8000_0000
    ensures v % Modulus(digits) == v % Pow10(digits) <==> digits < 10 || v < 1_410_065_408
  {
    PowersOfTen();
    if digits == 10 {
      DivModUnique(v, Pow10(10), 0, v);
      if v < 1_410_065_408 {
        DivModUnique(v, 1_410_065_408, 0, v);
      }
    } else {
      DivModUnique(Pow10(digits), TWO32, 0, Pow10(digits));
    }
  }

  // ----- the code from the bytes of the HMAC -----

  /** 31 bits of the four bytes from index o, where o is the low nibble of the last byte. */
  lemma TruncatedBytes(mac: seq<byte>, q: nat, o: nat)
    requires |mac| >= 20 && o < 16 && mac[|mac| - 1] == 16 * q + o
    ensures
      var m0: nat, m1: nat, m2: nat, m3: nat := mac[o], mac[o + 1], mac[o + 2], mac[o + 3];
      Truncated(mac) == (m0 % 128) * 0x100_0000 + m1 * 0x1_0000 + m2 * 0x100 + m3
  {
    DivModUnique(mac[|mac| - 1], 16, q, o);
    FourBytes(mac[o..o + 4]);
  }

  lemma {:induction false} BigEndianOf(bytes: seq<byte>)
    ensures BigEndian(FromBigEndian(bytes), |bytes|) == bytes
  {
    if bytes != [] {
      var n := |bytes| - 1;
      var front: nat, last: nat := FromBigEndian(bytes[..n]), bytes[n];
      DivModUnique(FromBigEndian(bytes), 256, front, last);
      BigEndianOf(bytes[..n]);
      assert bytes == bytes[..n] + [bytes[n]];
    }
  }

  lemma FourByteNumber(b: seq<byte>)
    requires |b| == 4
    ensures FromBigEndian(b) == Weighted(b[0], b[1], b[2], b[3])
  {
    var b0: nat, b1: nat, b2: nat, b3: nat := b[0], b[1], b[2], b[3];
    assert b[..3][..2] == b[..2] && b[..2][..1] == b[..1] && b[..1][..0] == [];
    assert FromBigEndian(b[..1]) == b0;
    assert FromBigEndian(b[..2]) == 256 * b0 + b1;
    assert FromBigEndian(b[..3]) == 256 * (256 * b0 + b1) + b2;
  }

  lemma ScaledProduct(x: nat, n: nat)
    ensures x * Pow256(n + 1) == 256 * (x * Pow256(n))
  {
    var p := Pow256(n);
    assert Pow256(n + 1) == 256 * p;
  }

  lemma {:induction false} FromBigEndianConcat(a: seq<byte>, b: seq<byte>)
    ensures FromBigEndian(a + b) == FromBigEndian(a) * Pow256(|b|) + FromBigEndian(b)
  {
    if b == [] {
      assert a + b == a;
    } else {
      var n := |b| - 1;
      FromBigEndianConcat(a, b[..n]);
      assert (a + b)[..|a + b| - 1] == a + b[..n];
      ScaledProduct(FromBigEndian(a), n);
    }
  }

  /** The eight bytes b of a counter, most significant first. */
  ghost predicate CounterIs(b: seq<byte>, counter: u64) {
    && |b| == 8
    && var b0: nat, b1: nat, b2: nat, b3: nat := b[0], b[1], b[2], b[3];
       var b4: nat, b5: nat, b6: nat, b7: nat := b[4], b[5], b[6], b[7];
       counter
       == (b0 * 0x100_0000 + b1 * 0x1_0000 + b2 * 0x100 + b3) * 0x1_0000_0000
          + (b4 * 0x100_0000 + b5 * 0x1_0000 + b6 * 0x100 + b7)
  }

  lemma CounterMessage(b: seq<byte>, counter: u64)
    requires CounterIs(b, counter)
    ensures BigEndian(counter, 8) == b
  {
    FourByteNumber(b[..4]);
    FourByteNumber(b[4..]);
    assert Pow256(4) == TWO32;
    FromBigEndianConcat(b[..4], b[4..]);
    assert b[..4] + b[4..] == b;
    BigEndianOf(b);
  }

  lemma CodeNumber(t: Totp, counter: u64)
    requires Valid(t) && t.digits <= 9
    ensures IsDigits(HotpCode(t, counter)) && |HotpCode(t, counter)| == t.digits
    ensures t.digits == 6 ==> DecimalValue(HotpCode(t, counter)) == HotpValue(t, counter) % 1_000_000
    ensures t.digits == 7 ==> DecimalValue(HotpCode(t, counter)) == HotpValue(t, counter) % 10_000_000
    ensures t.digits == 8 ==> DecimalValue(HotpCode(t, counter)) == HotpValue(t, counter) % 100_000_000
    ensures t.digits == 9 ==> DecimalValue(HotpCode(t, counter)) == HotpValue(t, counter) % 1_000_000_000
  {
    HotpMeetsRfc4226(t, counter);
    PowersOfTen();
  }

  /**
   The code from the bytes alone, for 6 to 9 digits: b are the bytes of the counter, most significant first, the HMAC
   of b ends in a byte with low nibble o, and the code is the decimal text of that many digits of the 31-bit number
   at o, modulo the power of ten.
   */
  lemma HotpFromBytes(t: Totp, counter: u64, b: seq<byte>, mac: seq<byte>, q: nat, o: nat, value: nat)
    requires Valid(t) && t.digits <= 9 && CounterIs(b, counter)
    requires mac == t.hmac(t.algo, t.secret, b) && |mac| >= 20
    requires o < 16 && mac[|mac| - 1] == 16 * q + o
    requires
      var m0: nat, m1: nat, m2: nat, m3: nat := mac[o], mac[o + 1], mac[o + 2], mac[o + 3];
      value == (m0 % 128) * 0x100_0000 + m1 * 0x1_0000 + m2 * 0x100 + m3
    ensures IsDigits(HotpCode(t, counter)) && |HotpCode(t, counter)| == t.digits
    ensures t.digits == 6 ==> DecimalValue(HotpCode(t, counter)) == value % 1_000_000
    ensures t.digits == 7 ==> DecimalValue(HotpCode(t, counter)) == value % 10_000_000
    ensures t.digits == 8 ==> DecimalValue(HotpCode(t, counter)) == value % 100_000_000
    ensures t.digits == 9 ==> DecimalValue(HotpCode(t, counter)) == value % 1_000_000_000
  {
    CounterMessage(b, counter);
    TruncatedBytes(mac, q, o);
    assert HotpValue(t, counter) == value;
    CodeNumber(t, counter);
  }

  const MAC_OF_COUNT_0: seq<byte> := [
    0xcc, 0x93, 0xcf, 0x18, 0x50, 0x8d, 0x94, 0x93, 0x4c, 0x64, 0xb6, 0x5d, 0x8b, 0xa7, 0x66, 0x7f, 0xb7, 0xcd, 0xe4, 0xb0]

  /** The first value of Appendix D of RFC 4226: a generator whose HMAC is that digest gives the code printed there. */
  lemma Rfc4226Count0(t: Totp)
    requires Valid(t) && t.digits == 6
    requires t.hmac(t.algo, t.secret, [0, 0, 0, 0, 0, 0, 0, 0]) == MAC_OF_COUNT_0
    ensures HotpCode(t, 0) == "755224"
  {
    DivModUnique(0xcc, 128, 1, 0x4c);
    HotpFromBytes(t, 0, [0, 0, 0, 0, 0, 0, 0, 0], MAC_OF_COUNT_0, 11, 0, 0x4c93cf18);
    DivModUnique(0x4c93cf18, 1_000_000, 1284, 755_224);
    ThreeMore([], '7', '5', '5');
    ThreeMore([] + ['7', '5', '5'], '2', '2', '4');
    assert [] + ['7', '5', '5'] + ['2', '2', '4'] == "755224";
    DigitsDetermined(HotpCode(t, 0), "755224");
  }

  /** Such a generator exists: HMAC-SHA-1 digests have 20 bytes. */
  lemma Rfc4226Generator() returns (t: Totp)
    ensures Valid(t) && t.algo == SHA1 && t.digits == 6 && HotpCode(t, 0) == "755224"
  {
    t := Totp([], 6, 30, SHA1, (a, key, msg) => if a == SHA1 then MAC_OF_COUNT_0 else seq(MacSize(a), _ => 0));
    Rfc4226Count0(t);
  }

  lemma AppendDigit(s: string, d: char)
    requires IsDigits(s) && '0' <= d <= '9'
    ensures IsDigits(s + [d]) && DecimalValue(s + [d]) == 10 * DecimalValue(s) + (d as int - '0' as int)
  {
    assert (s + [d])[..|s|] == s;
  }

  lemma ThreeMore(s: string, a: char, b: char, c: char)
    requires IsDigits(s) && '0' <= a <= '9' && '0' <= b <= '9' && '0' <= c <= '9'
    ensures IsDigits(s + [a, b, c])
    ensures
      DecimalValue(s + [a, b, c])
      == 1000 * DecimalValue(s) + 100 * (a as int - 48) + 10 * (b as int - 48) + (c as int - 48)
  {
    AppendDigit(s, a);
    AppendDigit(s + [a], b);
    AppendDigit(s + [a] + [b], c);
    assert s + [a] + [b] + [c] == s + [a, b, c];
  }

  // ----- time -----

  const NANOS := 1_000_000_000
  const INT_MAX := 0x7FFF_FFFF

  /** Integer division that rounds towards zero. */
  function TruncDiv(a: int, b: int): int
    requires b > 0
  {
    if a >= 0 then a / b else -(-a / b)
  }

  /** `tp` is in nanoseconds since the epoch, 64 bits. */
  function TimeCounter(tp: int, period: int): (c: nat)
    requires -TWO63 <= tp < TWO63 && period > 0
    ensures c < TWO63
  {
    var secs := TruncDiv(tp, NANOS);
    QuotientBounds(if secs >= 0 then secs else 0, period);
    (if secs >= 0 then secs else 0) / period
  }

  lemma QuotientBounds(x: nat, d: int)
    requires d > 0
    ensures 0 <= x / d <= x && (x / d) * d <= x < (x / d) * d + d
  {
    assert x == (x / d) * d + x % d;
    MultipleGap(x / d, d);
    ProductAtLeast(x / d, d);
  }

  /** Section 4.2 of RFC 6238: the number of whole periods since the epoch; before the epoch it stays 0. */
  lemma TimeCounterIsFloor(tp: int, period: int)
    requires -TWO63 <= tp < TWO63 && period > 0
    ensures TimeCounter(tp, period) == if tp < 0 then 0 else tp / (1_000_000_000 * period)
  {
    if tp < 0 {
      DivModUnique(0, period, 0, 0);
    } else {
      var s := tp / NANOS;
      var c := s / period;
      assert s == c * period + s % period;
      assert tp == c * (NANOS * period) + ((s % period) * NANOS + tp % NANOS);
      assert (s % period) * NANOS + tp % NANOS < period * NANOS;
      DivModUnique(tp, NANOS * period, c, (s % period) * NANOS + tp % NANOS);
    }
  }

  /** Instants at most k periods apart have counters at most k apart. */
  lemma CountersWithinWindow(t1: int, t2: int, period: int, k: nat)
    requires -TWO63 <= t1 < TWO63 && -TWO63 <= t2 < TWO63 && period > 0
    requires t1 <= t2 <= t1 + k * (NANOS * period)
    ensures TimeCounter(t1, period) <= TimeCounter(t2, period) <= TimeCounter(t1, period) + k
  {
    var p := NANOS * period;
    var x, y := if t1 < 0 then 0 else t1, if t2 < 0 then 0 else t2;
    TimeCounterIsFloor(t1, period);
    TimeCounterIsFloor(t2, period);
    DivModUnique(0, p, 0, 0);
    assert k * p >= 0;
    assert x <= y <= x + k * p;
    QuotientMonotone(x, y, p);
    QuotientMonotone(y, x + k * p, p);
    AddMultiple(x, p, k);
  }

  lemma QuotientMonotone(x: nat, y: nat, d: int)
    requires d > 0 && x <= y
    ensures x / d <= y / d
  {
    QuotientBounds(x, d);
    QuotientBounds(y, d);
    MultipleGap(x / d - y / d, d);
    assert (x / d - y / d) * d == (x / d) * d - (y / d) * d;
  }

  // ----- verify -----

  ghost function CodeAt(t: Totp, tp: int): string
    requires Valid(t) && -TWO63 <= tp < TWO63
  {
    HotpCode(t, TimeCounter(tp, t.period))
  }

  /** The counters a window of k steps covers; a negative window covers the current counter only. */
  predicate InWindow(c: int, counter: nat, k: int) {
    c >= 0 && (if k > 0 then counter - k <= c <= counter + k else c == counter)
  }

  ghost predicate Accepts(t: Totp, code: string, counter: nat, k: int)
    requires Valid(t) && counter < TWO63 && k < INT_MAX
  {
    exists c: u64 :: InWindow(c, counter, k) && code == HotpCode(t, c)
  }

  /** `verify` accepts exactly the codes of the counters in the window. */
  method Verify(t: Totp, code: string, tp: int, windowSteps: int) returns (ok: bool)
    requires Valid(t) && -TWO63 <= tp < TWO63 && windowSteps < INT_MAX
    ensures ok <==> Accepts(t, code, TimeCounter(tp, t.period), windowSteps)
  {
    var ctr := TimeCounter(tp, t.period);
    var current := Hotp(t, ctr);
    if current == code {
      assert InWindow(ctr, ctr, windowSteps);
      return true;
    }
    var w := 1;
    while w <= windowSteps
      invariant 1 <= w && (windowSteps >= 1 ==> w <= windowSteps + 1)
      invariant NoneWithin(t, code, ctr, w - 1)
      decreases windowSteps - w
    {
      var hit := MatchesAtDistance(t, code, ctr, w);
      if hit {
        return true;
      }
      WidenWindow(t, code, ctr, w);
      w := w + 1;
    }
    return false;
  }

  ghost predicate NoneWithin(t: Totp, code: string, ctr: nat, k: nat)
    requires Valid(t)
  {
    forall c: u64 :: InWindow(c, ctr, k) ==> code != HotpCode(t, c)
  }

  lemma WidenWindow(t: Totp, code: string, ctr: nat, w: nat)
    requires Valid(t) && ctr < TWO63 && 1 <= w <= INT_MAX && NoneWithin(t, code, ctr, w - 1)
    requires code != HotpCode(t, ctr + w) && (ctr >= w ==> code != HotpCode(t, ctr - w))
    ensures NoneWithin(t, code, ctr, w)
  {
    forall c: u64 | InWindow(c, ctr, w)
      ensures code != HotpCode(t, c)
    {
      assert c == ctr + w || c == ctr - w || InWindow(c, ctr, w - 1);
    }
  }

  /** One iteration: the counter w steps later, and w steps earlier if there is one. */
  method MatchesAtDistance(t: Totp, code: string, ctr: nat, w: int) returns (hit: bool)
    requires Valid(t) && ctr < TWO63 && 1 <= w <= INT_MAX
    ensures hit ==> exists c: u64 :: InWindow(c, ctr, w) && code == HotpCode(t, c)
    ensures !hit ==> code != HotpCode(t, ctr + w) && (ctr >= w ==> code != HotpCode(t, ctr - w))
  {
    WordCases(ctr, w);
    var later := Hotp(t, Add64(ctr, w));
    if later == code {
      assert InWindow(ctr + w, ctr, w);
      return true;
    }
    if ctr >= w {
      var earlier := Hotp(t, Sub64(ctr, w));
      if earlier == code {
        assert InWindow(ctr - w, ctr, w);
        return true;
      }
    }
    return false;
  }

  /**
   A code generated at another instant is accepted whenever the instants are at most k periods apart, including
   times before the epoch and within one second.
   */
  lemma AcceptsNearbyCodes(t: Totp, tp: int, other: int, k: nat)
    requires Valid(t) && -TWO63 <= tp < TWO63 && -TWO63 <= other < TWO63 && k < INT_MAX
    requires -(k * (NANOS * t.period)) <= tp - other <= k * (NANOS * t.period)
    ensures Accepts(t, CodeAt(t, other), TimeCounter(tp, t.period), k)
  {
    if tp <= other {
      CountersWithinWindow(tp, other, t.period, k);
    } else {
      CountersWithinWindow(other, tp, t.period, k);
    }
    var c: u64 := TimeCounter(other, t.period);
    assert InWindow(c, TimeCounter(tp, t.period), k);
  }
}
