/** Big-endian positional numerals in any base. */
module Numerals {

  function Pow(base: nat, n: nat): (p: nat)
    ensures base > 0 ==> p > 0
  {
    if n == 0 then 1 else Pow(base, n - 1) * base
  }

  predicate AllDigits(base: nat, ds: seq<nat>) {
    forall k | 0 <= k < |ds| :: ds[k] < base
  }

  /** The number a digit string stands for, most significant digit first. */
  function Value(base: nat, ds: seq<nat>): nat {
    if ds == [] then 0 else Value(base, ds[..|ds| - 1]) * base + ds[|ds| - 1]
  }

  /** The last `n` digits of `v`. */
  function Digits(base: nat, n: nat, v: nat): (ds: seq<nat>)
    requires base > 0
    ensures |ds| == n && AllDigits(base, ds)
  {
    if n == 0 then [] else Digits(base, n - 1, v / base) + [v % base]
  }

  lemma {:induction false} PowAdd(base: nat, m: nat, n: nat)
    ensures Pow(base, m + n) == Pow(base, m) * Pow(base, n)
  {
    if n > 0 {
      PowAdd(base, m, n - 1);
      MulAssoc(Pow(base, m), Pow(base, n - 1), base);
    }
  }

  lemma MulMono(a: nat, b: nat, c: nat)
    requires a <= b
    ensures a * c <= b * c
  {
  }

  lemma MulAssoc(a: int, b: int, c: int)
    ensures (a * b) * c == a * (b * c)
  {
  }

  lemma MulDivMod(a: nat, b: nat, m: nat)
    requires b < m
    ensures (a * m + b) / m == a && (a * m + b) % m == b
  {
    var q, r := (a * m + b) / m, (a * m + b) % m;
    var d := a - q;
    assert a * m + b == m * q + r;
    assert d * m == r - b;
    assert d >= 1 ==> d * m >= m;
    assert d <= -1 ==> d * m + m <= 0;
  }

  lemma FloorTimes(v: nat, p: nat)
    requires p > 0
    ensures v / p * p == v - v % p
  {
  }

  lemma {:induction false} ValueBound(base: nat, ds: seq<nat>)
    requires AllDigits(base, ds)
    ensures Value(base, ds) < Pow(base, |ds|)
  {
    if ds != [] {
      var init := ds[..|ds| - 1];
      ValueBound(base, init);
      MulMono(Value(base, init) + 1, Pow(base, |init|), base);
      assert (Value(base, init) + 1) * base == Value(base, init) * base + base;
      assert Value(base, ds) == Value(base, init) * base + ds[|ds| - 1] && Pow(base, |ds|) == Pow(base, |init|) * base;
    }
  }

  lemma DivBelow(v: nat, base: nat, bound: nat)
    requires base > 0 && v < bound * base
    ensures v / base < bound && (v / base) * base + v % base == v
  {
    var q := v / base;
    assert q * base + v % base == v;
    assert q >= bound ==> q * base >= bound * base by {
      if q >= bound {
        MulMono(bound, q, base);
      }
    }
  }

  /** Reading the digits of a number that fits gives the number back. */
  lemma {:induction false} ValueOfDigits(base: nat, n: nat, v: nat)
    requires base > 0 && v < Pow(base, n)
    ensures Value(base, Digits(base, n, v)) == v
  {
    if n > 0 {
      DivBelow(v, base, Pow(base, n - 1));
      ValueOfDigits(base, n - 1, v / base);
      assert Digits(base, n, v)[..n - 1] == Digits(base, n - 1, v / base);
    }
  }

  /** A number that takes `n` digits after division can be read back from them. */
  lemma ValueOfQuotient(base: nat, n: nat, v: nat, p: nat)
    requires base > 0 && p > 0 && v < Pow(base, n) * p
    ensures Value(base, Digits(base, n, v / p)) == v / p
  {
    DivBelow(v, p, Pow(base, n));
    ValueOfDigits(base, n, v / p);
  }

  /** Writing down the value of a digit string gives the digits back. */
  lemma {:induction false} DigitsOfValue(base: nat, ds: seq<nat>)
    requires base > 0 && AllDigits(base, ds)
    ensures Digits(base, |ds|, Value(base, ds)) == ds
  {
    if ds != [] {
      var init, last := ds[..|ds| - 1], ds[|ds| - 1];
      DigitsOfValue(base, init);
      MulDivMod(Value(base, init), last, base);
      assert ds == init + [last];
    }
  }

  /** Digit strings of one length are told apart by their values. */
  lemma ValueInjective(base: nat, a: seq<nat>, b: seq<nat>)
    requires base > 0 && AllDigits(base, a) && AllDigits(base, b)
    requires |a| == |b| && Value(base, a) == Value(base, b)
    ensures a == b
  {
    DigitsOfValue(base, a);
    DigitsOfValue(base, b);
  }

  lemma {:induction false} ValueAppend(base: nat, a: seq<nat>, b: seq<nat>)
    ensures Value(base, a + b) == Value(base, a) * Pow(base, |b|) + Value(base, b)
  {
    if b == [] {
      assert a + b == a;
    } else {
      var init, last := b[..|b| - 1], b[|b| - 1];
      ValueAppend(base, a, init);
      assert (a + b)[..|a + b| - 1] == a + init;
      MulAssoc(Value(base, a), Pow(base, |init|), base);
      var x, y := Value(base, a) * Pow(base, |init|), Value(base, init);
      assert (x + y) * base == x * base + y * base;
    }
  }

  /** Dropping low digits is dividing. */
  lemma {:induction false} DigitsSuffix(base: nat, n: nat, m: nat, v: nat)
    requires base > 0 && m <= n
    ensures Digits(base, n, v)[n - m..] == Digits(base, m, v)
  {
    if m > 0 {
      DigitsSuffix(base, n - 1, m - 1, v / base);
      var init := Digits(base, n - 1, v / base);
      assert Digits(base, n, v)[n - m..] == init[n - m..] + [v % base];
    }
  }

  /** The last `n` digits depend only on the remainder by the `n`-th power of the base. */
  lemma {:induction false} DigitsOfRemainder(base: nat, n: nat, v: nat)
    requires base > 0
    ensures Digits(base, n, v % Pow(base, n)) == Digits(base, n, v)
  {
    if n > 0 {
      var p := Pow(base, n - 1);
      RemainderSplits(v, base, p);
      DigitsOfRemainder(base, n - 1, v / base);
    }
  }

  lemma RemainderSplits(v: nat, base: nat, p: nat)
    requires base > 0 && p > 0
    ensures v % (p * base) / base == v / base % p && v % (p * base) % base == v % base
  {
    var q, r := v / base, v % base;
    var high, low := q / p, q % p;
    var m, rest := p * base, low * base + r;
    DivMod(v, base);
    DivMod(q, p);
    ThreeParts(high, low, r, p, base);
    QuotientUnique(v, m, high, rest);
    QuotientUnique(rest, base, low, r);
  }

  lemma DivMod(v: nat, m: nat)
    requires m > 0
    ensures v == v / m * m + v % m
  {
  }

  lemma QuotientBounded(v: nat, m: nat)
    requires m > 0
    ensures 0 <= v / m <= v
  {
    MulMono(1, m, v / m);
    DivMod(v, m);
  }

  lemma QuotientUnique(v: nat, m: nat, q: nat, r: nat)
    requires v == q * m + r && r < m
    ensures v / m == q && v % m == r
  {
    MulDivMod(q, r, m);
  }

  lemma ThreeParts(high: nat, low: nat, r: nat, p: nat, base: nat)
    requires low < p && r < base
    ensures (high * p + low) * base + r == high * (p * base) + (low * base + r)
    ensures low * base + r < p * base
  {
    MulAssoc(high, p, base);
    assert (high * p + low) * base == high * p * base + low * base;
    MulMono(low + 1, p, base);
    assert (low + 1) * base == low * base + base;
  }
}
