/** Shifts and bitwise operators of C on non-negative integers. */
module Bits {
  import opened Numerals

  function BitOr(a: nat, b: nat): nat {
    if a == 0 && b == 0 then 0
    else BitOr(a / 2, b / 2) * 2 + if a % 2 == 1 || b % 2 == 1 then 1 else 0
  }

  function BitAnd(a: nat, b: nat): nat {
    if a == 0 || b == 0 then 0
    else BitAnd(a / 2, b / 2) * 2 + if a % 2 == 1 && b % 2 == 1 then 1 else 0
  }

  function Shl(a: nat, k: nat): nat {
    if k == 0 then a else Shl(a, k - 1) * 2
  }

  function Shr(a: nat, k: nat): nat {
    if k == 0 then a else Shr(a, k - 1) / 2
  }

  lemma {:induction false} OrZero(a: nat)
    ensures BitOr(a, 0) == a
  {
    if a > 0 {
      OrZero(a / 2);
    }
  }

  /** Putting low bits under a shifted number adds them. */
  lemma {:induction false} OrIsAdd(a: nat, b: nat, k: nat)
    requires b < Shl(1, k)
    ensures BitOr(Shl(a, k), b) == Shl(a, k) + b
  {
    if k == 0 {
      OrZero(a);
    } else {
      OrIsAdd(a, b / 2, k - 1);
    }
  }

  lemma {:induction false} ShlIsTimes(a: nat, k: nat)
    ensures Shl(a, k) == a * Pow(2, k)
  {
    if k > 0 {
      ShlIsTimes(a, k - 1);
      MulAssoc(a, Pow(2, k - 1), 2);
    }
  }

  /** Shifting left and dividing again. */
  lemma ShlThenDivide(a: nat, k: nat)
    ensures Shl(a, k) / Pow(2, k) == a
  {
    ShlIsTimes(a, k);
    MulDivMod(a, 0, Pow(2, k));
  }

  lemma ShlBound(a: nat, bound: nat, k: nat)
    requires a < bound
    ensures Shl(a, k) < bound * Pow(2, k)
  {
    ShlIsTimes(a, k);
    MulMono(a + 1, bound, Pow(2, k));
    assert (a + 1) * Pow(2, k) == a * Pow(2, k) + Pow(2, k);
  }

  /** Two shifted numbers add up to one shifted number. */
  lemma {:induction false} ShlTogether(a: nat, b: nat, left: nat, mid: nat)
    requires mid <= left
    ensures Shl(a, left) + Shl(b, mid) == Shl(Shl(a, left - mid) + b, mid)
  {
    if mid > 0 {
      ShlTogether(a, b, left - 1, mid - 1);
    }
  }

  /** The shifts that occur in the program. */
  lemma Shifts(a: nat)
    ensures Shl(a, 1) == a * 2 && Shl(a, 2) == a * 4 && Shl(a, 3) == a * 8 && Shl(a, 4) == a * 16
    ensures Shl(a, 5) == a * 32 && Shl(a, 6) == a * 64 && Shl(a, 7) == a * 128 && Shl(a, 8) == a * 256
    ensures Shr(a, 0) == a && Shr(a, 1) == a / 2 && Shr(a, 2) == a / 4 && Shr(a, 3) == a / 8 && Shr(a, 4) == a / 16
  {
    assert Shl(a, 0) == a && Shl(a, 1) == a * 2 && Shl(a, 2) == a * 4 && Shl(a, 3) == a * 8;
    assert Shl(a, 4) == a * 16 && Shl(a, 5) == a * 32 && Shl(a, 6) == a * 64 && Shl(a, 7) == a * 128;
    assert Shr(a, 0) == a && Shr(a, 1) == a / 2 && Shr(a, 2) == a / 4 && Shr(a, 3) == a / 8;
  }

  /** Masking the low `k` bits is taking the remainder. */
  lemma {:induction false} AndMask(a: nat, k: nat)
    ensures Pow(2, k) >= 1 && BitAnd(a, Pow(2, k) - 1) == a % Pow(2, k)
  {
    if k > 0 {
      var p := Pow(2, k - 1);
      AndMask(a / 2, k - 1);
      AndOdd(a, p - 1);
      ModTwice(a, p);
    }
  }

  lemma AndOdd(a: nat, q: nat)
    ensures BitAnd(a, 2 * q + 1) == BitAnd(a / 2, q) * 2 + a % 2
  {
    assert (2 * q + 1) / 2 == q && (2 * q + 1) % 2 == 1;
  }

  lemma ModTwice(a: nat, p: nat)
    requires p > 0
    ensures a % (p * 2) == (a / 2 % p) * 2 + a % 2
  {
    var q, r := a / 2 / p, a / 2 % p;
    assert a / 2 == p * q + r;
    assert a == (q * (p * 2)) + (r * 2 + a % 2);
    MulDivMod(q, r * 2 + a % 2, p * 2);
  }

  lemma SmallPowers()
    ensures Pow(2, 0) == 1 && Pow(2, 1) == 2 && Pow(2, 2) == 4 && Pow(2, 3) == 8 && Pow(2, 4) == 16
    ensures Pow(2, 5) == 32 && Pow(2, 6) == 64 && Pow(2, 7) == 128 && Pow(2, 8) == 256
  {
    assert Pow(2, 4) == 16;
    assert Pow(2, 8) == 256;
  }

  lemma {:induction false} ShlMono(a: nat, b: nat, k: nat)
    requires a < b
    ensures Shl(a, k) < Shl(b, k)
  {
    if k > 0 {
      ShlMono(a, b, k - 1);
    }
  }

  lemma {:induction false} ShlAdd(a: nat, j: nat, k: nat)
    ensures Shl(Shl(a, j), k) == Shl(a, j + k)
  {
    if k > 0 {
      ShlAdd(a, j, k - 1);
    }
  }

  /** A byte shifted by `k` stays below a one shifted by `k + 8`. */
  lemma ByteBelow(d: nat, k: nat)
    requires d < 256
    ensures Shl(d, k) < Shl(1, k + 8)
  {
    Shifts(1);
    ShlMono(d, 256, k);
    ShlAdd(1, 8, k);
  }
}
