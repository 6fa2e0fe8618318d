/** Time-based one-time passwords after RFC 6238, truncation after section 5.3 of RFC 4226 (rfc6238.c). */
module Totp {
  import opened Options
  import opened CStrings
  import opened Numerals
  import opened Bits

  datatype DigestAlgorithm = Sha1 | Sha256 | Sha384 | Sha512

  function DigestLength(digest: DigestAlgorithm): nat {
    match digest
    case Sha1 => 20
    case Sha256 => 32
    case Sha384 => 48
    case Sha512 => 64
  }

  /** HMAC of a message under a key; None when the library fails. */
  type Hmac = (DigestAlgorithm, seq<nat>, seq<nat>) -> Option<seq<nat>>

  ghost predicate HmacOk(hmac: Hmac) {
    forall digest, key, message :: var mac := hmac(digest, key, message);
      mac.Some? ==> |mac.value| == DigestLength(digest) && AllDigits(256, mac.value)
  }

  /** `struct rfc6238_config_t` */
  datatype Config = Config(digest: DigestAlgorithm, modulo: nat, digits: nat, sliceTime: nat, secret: seq<nat>) {
    predicate Valid() {
      1 <= digits <= 8 && modulo == Pow(10, digits) && sliceTime < 0x1_0000_0000
    }
  }

  /** `rfc6238_new`: NULL unless between one and eight digits are asked for. */
  method NewConfig(secret: seq<nat>, digest: DigestAlgorithm, sliceTime: nat, digits: nat) returns (r: Option<Config>)
    requires sliceTime < 0x1_0000_0000
    ensures r.Some? <==> 1 <= digits <= 8
    ensures r.Some? ==> r.value == Config(digest, Pow(10, digits), digits, sliceTime, secret) && r.value.Valid()
  {
    if digits < 1 || digits > 8 {
      return None;
    }
    var modulo := 1;
    for i := 0 to digits
      invariant modulo == Pow(10, i)
    {
      modulo := modulo * 10;
    }
    return Some(Config(digest, modulo, digits, sliceTime, secret));
  }

  //
  // Presentation
  //

  function DecimalDigit(d: nat): char
    requires d < 10
  {
    ('0' as int + d) as char
  }

  /** The last `digits` decimal digits of a number, with leading zeros. */
  function Decimal(digits: nat, v: nat): (s: CString)
    ensures |s| == digits
  {
    var ds := Digits(10, digits, v);
    seq(digits, k requires 0 <= k < digits => DecimalDigit(ds[k]))
  }

  predicate IsDecimal(s: string) {
    forall k | 0 <= k < |s| :: '0' <= s[k] <= '9'
  }

  function DigitValue(c: char): nat
    requires '0' <= c <= '9'
  {
    c as int - '0' as int
  }

  /** The number a string of decimal digits stands for. */
  function ParseDecimal(s: string): nat
    requires IsDecimal(s)
  {
    Value(10, seq(|s|, k requires 0 <= k < |s| => DigitValue(s[k])))
  }

  /** `rfc6238_present`: the value reduced to `digits` digits, padded with zeros and terminated. */
  method Present(config: Config, output: array<char>, value: nat)
    requires config.Valid() && output.Length >= 9
    modifies output
    ensures Text(output[..]) == Decimal(config.digits, value)
    ensures forall k | config.digits < k < output.Length :: output[k] == old(output[k])
  {
    DecimalOfRemainder(config.digits, value);
    PrintDecimal(output, config.digits, value % config.modulo);
    var text := Terminate(output, config.digits);
  }

  lemma DecimalOfRemainder(digits: nat, value: nat)
    ensures Decimal(digits, value % Pow(10, digits)) == Decimal(digits, value)
  {
    DigitsOfRemainder(10, digits, value);
  }

  /** Prints a number with leading zeros, from the last digit to the first. */
  method PrintDecimal(output: array<char>, digits: nat, value: nat)
    requires digits <= output.Length
    modifies output
    ensures output[..digits] == Decimal(digits, value)
    ensures forall k | digits <= k < output.Length :: output[k] == old(output[k])
  {
    var rest, n := value, digits;
    ghost var ds := Digits(10, digits, value);
    while n > 0
      invariant 0 <= n <= digits && 0 <= rest
      invariant Digits(10, n, rest) == ds[..n]
      invariant forall k | n <= k < digits :: output[k] == DecimalDigit(ds[k])
      invariant forall k | digits <= k < output.Length :: output[k] == old(output[k])
    {
      n := n - 1;
      LastDigit(ds, n, rest);
      output[n] := DecimalDigit(rest % 10);
      rest := rest / 10;
    }
  }

  lemma LastDigit(ds: seq<nat>, n: nat, rest: nat)
    requires n < |ds| && Digits(10, n + 1, rest) == ds[..n + 1]
    ensures ds[n] == rest % 10 && Digits(10, n, rest / 10) == ds[..n]
  {
    assert ds[..n + 1][n] == ds[n] && ds[..n + 1][..n] == ds[..n];
  }

  /** A code has exactly `digits` decimal digits and stands for the value modulo 10 to that power. */
  lemma CodeParsesBack(digits: nat, value: nat)
    ensures var code := Decimal(digits, value);
            |code| == digits && IsDecimal(code) && ParseDecimal(code) == value % Pow(10, digits)
  {
    var code, ds := Decimal(digits, value), Digits(10, digits, value);
    DigitsOfRemainder(10, digits, value);
    ValueOfDigits(10, digits, value % Pow(10, digits));
    assert seq(|code|, k requires 0 <= k < |code| => DigitValue(code[k])) == ds;
  }

  /** A shorter code is the end of a longer one for the same value. */
  lemma ShorterCodeIsSuffix(d: nat, digits: nat, value: nat)
    requires d <= digits
    ensures Decimal(d, value) == Decimal(digits, value)[digits - d..]
  {
    DigitsSuffix(10, digits, d, value);
  }

  //
  // Truncation
  //

  /** The four bytes that the low half of the last byte points at. */
  function TruncationOffset(mac: seq<nat>): nat
    requires |mac| >= 20
  {
    mac[|mac| - 1] % 16
  }

  /** Dynamic truncation as RFC 4226 defines it: a big-endian number modulo 2 to the power 31. */
  function DynamicTruncation(mac: seq<nat>): nat
    requires |mac| >= 20
  {
    var offset := TruncationOffset(mac);
    Value(256, mac[offset..offset + 4]) % 0x8000_0000
  }

  /** Dynamic truncation as the program computes it. */
  function TruncateBits(mac: seq<nat>): nat
    requires |mac| >= 20
    requires BitAnd(mac[|mac| - 1], 0xF) + 3 < |mac|
  {
    var offset := BitAnd(mac[|mac| - 1], 0xF);
    BitAnd(BitOr(BitOr(BitOr(Shl(mac[offset], 24), Shl(mac[offset + 1], 16)), Shl(mac[offset + 2], 8)),
                 Shl(mac[offset + 3], 0)),
           0x7FFF_FFFF)
  }

  lemma LargePowers()
    ensures Pow(2, 4) == 16 && Pow(2, 31) == 0x8000_0000
  {
    SmallPowers();
    PowAdd(2, 8, 8);
    PowAdd(2, 16, 8);
    PowAdd(2, 24, 7);
  }

  /** One more byte below those shifted up so far. */
  lemma OrByte(high: nat, x: nat, low: nat, k: nat)
    requires high == Shl(x, k + 8) && low < 256
    ensures BitOr(high, Shl(low, k)) == Shl(x * 256 + low, k)
  {
    ByteBelow(low, k);
    OrIsAdd(x, Shl(low, k), k + 8);
    ShlTogether(x, low, k + 8, k);
    Shifts(x);
  }

  /** Or-ing four shifted bytes gives their big-endian value. */
  lemma FourBytes(a: nat, b: nat, c: nat, d: nat)
    requires a < 256 && b < 256 && c < 256 && d < 256
    ensures BitOr(BitOr(BitOr(Shl(a, 24), Shl(b, 16)), Shl(c, 8)), Shl(d, 0)) == Value(256, [a, b, c, d])
  {
    var ab := BitOr(Shl(a, 24), Shl(b, 16));
    OrByte(Shl(a, 24), a, b, 16);
    ThreeBytes(ab, a * 256 + b, c, d);
    FourDigits(a, b, c, d);
  }

  lemma ThreeBytes(high: nat, ab: nat, c: nat, d: nat)
    requires high == Shl(ab, 16) && c < 256 && d < 256
    ensures BitOr(BitOr(high, Shl(c, 8)), Shl(d, 0)) == (ab * 256 + c) * 256 + d
  {
    OrByte(high, ab, c, 8);
    OrByte(BitOr(high, Shl(c, 8)), ab * 256 + c, d, 0);
  }

  lemma FourDigits(a: nat, b: nat, c: nat, d: nat)
    ensures Value(256, [a, b, c, d]) == ((a * 256 + b) * 256 + c) * 256 + d
  {
    assert [a, b, c, d][..3] == [a, b, c] && [a, b, c][..2] == [a, b] && [a, b][..1] == [a];
    assert Value(256, [a]) == a;
    assert Value(256, [a, b]) == a * 256 + b;
    assert Value(256, [a, b, c]) == (a * 256 + b) * 256 + c;
  }

  /** The program's bit operations stay inside any digest and compute the standard's truncation. */
  lemma TruncationCorrect(mac: seq<nat>)
    requires |mac| >= 20 && AllDigits(256, mac)
    ensures BitAnd(mac[|mac| - 1], 0xF) == TruncationOffset(mac) && TruncationOffset(mac) + 3 < |mac|
    ensures TruncateBits(mac) == DynamicTruncation(mac) < 0x8000_0000
  {
    LargePowers();
    AndMask(mac[|mac| - 1], 4);
    var o := TruncationOffset(mac);
    FourBytes(mac[o], mac[o + 1], mac[o + 2], mac[o + 3]);
    assert mac[o..o + 4] == [mac[o], mac[o + 1], mac[o + 2], mac[o + 3]];
    AndMask(Value(256, mac[o..o + 4]), 31);
  }

  //
  // Codes
  //

  /** The one-time password for a time step: the counter goes into the HMAC as eight big-endian bytes. */
  function Code(config: Config, hmac: Hmac, timecode: nat): Option<CString> {
    match hmac(config.digest, config.secret, Digits(256, 8, timecode))
    case None => None
    case Some(mac) => if |mac| < 20 then None else Some(Decimal(config.digits, DynamicTruncation(mac)))
  }

  /** `rfc6238_generate` */
  method Generate(config: Config, hmac: Hmac, output: array<char>, timecode: nat) returns (ok: bool)
    requires config.Valid() && HmacOk(hmac) && output.Length >= 9
    modifies output
    ensures ok <==> Code(config, hmac, timecode).Some?
    ensures ok ==> Text(output[..]) == Code(config, hmac, timecode).value
    ensures forall m: seq<nat> | |m| == 8 && AllDigits(256, m) && Value(256, m) == timecode ::
              var mac := hmac(config.digest, config.secret, m);
              && (ok <==> mac.Some?)
              && (ok ==> var text, o := Text(output[..]), mac.value[|mac.value| - 1] % 16;
                         && |text| == config.digits && IsDecimal(text)
                         && ParseDecimal(text)
                            == Value(256, mac.value[o..o + 4]) % 0x8000_0000 % Pow(10, config.digits))
  {
    forall m: seq<nat> | |m| == 8 && AllDigits(256, m) && Value(256, m) == timecode
      ensures hmac(config.digest, config.secret, m) == hmac(config.digest, config.secret, Digits(256, 8, timecode))
    {
      DigitsOfValue(256, m);
    }
    var result := hmac(config.digest, config.secret, Digits(256, 8, timecode));
    if result == None {
      return false;
    }
    var mac := result.value;
    TruncationCorrect(mac);
    var value := TruncateBits(mac);
    CodeParsesBack(config.digits, value);
    Present(config, output, value);
    return true;
  }

  /** C's integer division, which truncates toward zero. */
  function CDiv(a: int, b: nat): int
    requires b > 0
  {
    if a >= 0 then a / b else -(-a / b)
  }

  /** The time step of a timestamp, converted to an unsigned 64-bit number. */
  function TimecodeAt(sliceTime: nat, t: int): nat
    requires sliceTime > 0
  {
    CDiv(t, sliceTime) % 0x1_0000_0000_0000_0000
  }

  /** `rfc6238_generate_at` */
  method GenerateAt(config: Config, hmac: Hmac, output: array<char>, t: int) returns (ok: bool)
    requires config.Valid() && config.sliceTime > 0 && HmacOk(hmac) && output.Length >= 9
    modifies output
    ensures ok <==> Code(config, hmac, TimecodeAt(config.sliceTime, t)).Some?
    ensures ok ==> Text(output[..]) == Code(config, hmac, TimecodeAt(config.sliceTime, t)).value
    ensures 0 <= t < 0x8000_0000_0000_0000 ==>
              forall m: seq<nat> | |m| == 8 && AllDigits(256, m) && Value(256, m) == t / config.sliceTime ::
                var mac := hmac(config.digest, config.secret, m);
                && (ok <==> mac.Some?)
                && (ok ==> var text, o := Text(output[..]), mac.value[|mac.value| - 1] % 16;
                           && |text| == config.digits && IsDecimal(text)
                           && ParseDecimal(text)
                              == Value(256, mac.value[o..o + 4]) % 0x8000_0000 % Pow(10, config.digits))
  {
    if 0 <= t < 0x8000_0000_0000_0000 {
      QuotientBounded(t, config.sliceTime);
    }
    ok := Generate(config, hmac, output, TimecodeAt(config.sliceTime, t));
  }
}
