/** Powers and remainders, and the client's square-and-multiply proved against them. */
module Modular {

  function Pow(b: int, e: nat): int
    decreases e
  {
    if e == 0 then 1 else b * Pow(b, e - 1)
  }

  // ------------------------------------------------------------ remainders

  lemma {:induction false} MultipleIsFar(m: nat, d: int)
    ensures d >= 1 ==> m * d >= m
    ensures d <= -1 ==> m * d <= -(m as int)
  {}

  lemma {:induction false} QuotientUnique(x: int, q: int, r: int, m: nat)
    requires m > 0 && x == m * q + r && 0 <= r < m
    ensures x % m == r && x / m == q
  {
    var d := q - x / m;
    assert m * d == x % m - r by {
      assert m * d == m * q - m * (x / m);
    }
    MultipleIsFar(m, d);
  }

  lemma {:induction false} RemainderShift(x: int, k: int, m: nat)
    requires m > 0
    ensures (x + m * k) % m == x % m
  {
    assert x + m * k == m * (x / m + k) + x % m;
    QuotientUnique(x + m * k, x / m + k, x % m, m);
  }

  /** Remainders may be taken early in a product. */
  lemma {:induction false} RemainderProduct(a: int, b: int, m: nat)
    requires m > 0
    ensures (a * (b % m)) % m == (a * b) % m
  {
    var q := b / m;
    assert b == m * q + b % m;
    assert a * b == a * (b % m) + m * (a * q);
    RemainderShift(a * (b % m), a * q, m);
  }

  lemma {:induction false} RemainderBoth(a: int, b: int, m: nat)
    requires m > 0
    ensures ((a % m) * (b % m)) % m == (a * b) % m
  {
    RemainderProduct(a % m, b, m);
    assert (a % m) * b == b * (a % m) && a * b == b * a;
    RemainderProduct(b, a, m);
  }

  lemma {:induction false} RemainderDifference(a: int, b: int, m: nat)
    requires m > 0
    ensures (a % m - b) % m == (a - b) % m
  {
    assert a == m * (a / m) + a % m;
    RemainderShift(a % m - b, a / m, m);
  }

  // ---------------------------------------------------------------- powers

  lemma {:induction false} PowSum(b: int, e: nat, f: nat)
    ensures Pow(b, e + f) == Pow(b, e) * Pow(b, f)
    decreases e
  {
    if e != 0 {
      PowSum(b, e - 1, f);
      assert b * (Pow(b, e - 1) * Pow(b, f)) == (b * Pow(b, e - 1)) * Pow(b, f);
    }
  }

  lemma {:induction false} Regroup(a: int, b: int, x: int, y: int)
    ensures (a * b) * (x * y) == (a * x) * (b * y)
  {}

  lemma {:induction false} PowProduct(a: int, b: int, e: nat)
    ensures Pow(a * b, e) == Pow(a, e) * Pow(b, e)
    decreases e
  {
    if e != 0 {
      PowProduct(a, b, e - 1);
      Regroup(a, b, Pow(a, e - 1), Pow(b, e - 1));
    }
  }

  lemma {:induction false} PowPower(b: int, e: nat, f: nat)
    ensures Pow(Pow(b, e), f) == Pow(b, e * f)
    decreases f
  {
    if f == 0 {
      assert e * f == 0;
    } else {
      PowPower(b, e, f - 1);
      PowSum(b, e, e * (f - 1));
      assert e + e * (f - 1) == e * f;
    }
  }

  /** Reducing the base does not change a power's remainder. */
  lemma {:induction false} PowRemainder(b: int, e: nat, m: nat)
    requires m > 0
    ensures Pow(b % m, e) % m == Pow(b, e) % m
    decreases e
  {
    if e != 0 {
      PowRemainder(b, e - 1, m);
      var p, q := Pow(b % m, e - 1), Pow(b, e - 1);
      RemainderProduct(b % m, p, m);
      RemainderBoth(b, q, m);
      assert ((b % m) * p) % m == ((b % m) * (q % m)) % m == (b * q) % m;
    }
  }

  lemma {:induction false} PowNonNegative(b: nat, e: nat)
    ensures Pow(b, e) >= 0
    decreases e
  {
    if e != 0 {
      PowNonNegative(b, e - 1);
    }
  }

  lemma {:induction false} OnePow(e: nat)
    ensures Pow(1, e) == 1
    decreases e
  {
    if e != 0 {
      OnePow(e - 1);
    }
  }

  // ---------------------------------------------------------------- modPow

  /** JavaScript's `%`, on numbers and BigInts alike, keeps the sign of the dividend. */
  function JsRem(a: int, m: nat): int
    requires m > 0
  {
    if a < 0 then -((-a) % m) else a % m
  }

  lemma {:induction false} JsRemShifted(a: int, m: nat)
    requires m > 0
    ensures var t := JsRem(a, m); t + m >= 0 && (t + m) % m == a % m
  {
    var t := JsRem(a, m);
    assert t + m == t + m * 1;
    RemainderShift(t, 1, m);
    if a < 0 {
      var q := (-a) / m;
      assert a == t + m * (-q);
      RemainderShift(t, -q, m);
    } else {
      RemainderIdem(a, m);
    }
  }

  /** `mod`: the remainder made non-negative. */
  function Mod(a: int, m: nat): (r: nat)
    requires m > 0
    ensures r == a % m
  {
    JsRemShifted(a, m);
    JsRem(JsRem(a, m) + m, m)
  }

  lemma {:induction false} SquareStep(b: int, e: nat, m: nat)
    requires m > 0
    ensures Pow((b * b) % m, e) % m == Pow(b, 2 * e) % m
  {
    PowRemainder(b * b, e, m);
    assert Pow(b, 2) == b * Pow(b, 1) == b * (b * Pow(b, 0)) == b * b;
    PowPower(b, 2, e);
  }

  /** Square and multiply: what is left to multiply is unchanged by one round of the loop. */
  lemma {:induction false} RoundKeepsProduct(r: int, b: int, e: nat, m: nat)
    requires m > 0 && e > 0
    ensures var r' := if e % 2 == 1 then (r * b) % m else r;
            (r' * Pow((b * b) % m, e / 2)) % m == (r * Pow(b, e)) % m
  {
    var h := e / 2;
    var p, s := Pow(b, 2 * h), Pow((b * b) % m, h);
    SquareStep(b, h, m);
    assert (r * s) % m == (r * p) % m by {
      RemainderProduct(r, s, m);
      RemainderProduct(r, p, m);
    }
    if e % 2 == 1 {
      assert e == 2 * h + 1;
      assert r * Pow(b, e) == (r * b) * p;
      calc {
        (((r * b) % m) * s) % m;
        { RemainderBoth((r * b) % m, s, m); RemainderBoth(r * b, s, m); RemainderIdem(r * b, m); }
        ((r * b) * s) % m;
        { RemainderProduct(r * b, s, m); RemainderProduct(r * b, p, m); }
        ((r * b) * p) % m;
      }
    }
  }

  lemma {:induction false} RemainderIdem(x: int, m: nat)
    requires m > 0
    ensures (x % m) % m == x % m
  {
    QuotientUnique(x % m, 0, x % m, m);
  }

  /**
   For a modulus above one this is exponentiation; a negative exponent leaves the
   loop untouched.
   */
  method ModPow(b: int, e: int, m: nat) returns (r: nat)
    requires m > 1
    ensures r < m
    ensures e >= 0 ==> r == Pow(b, e) % m
    ensures e < 0 ==> r == 1
  {
    r := 1;
    var base, exp := Mod(b, m), e;
    if e >= 0 {
      PowRemainder(b, e, m);
    }
    while exp > 0
      invariant r < m && (e < 0 ==> r == 1)
      invariant e >= 0 ==> exp >= 0 && (r * Pow(base, exp)) % m == Pow(b, e) % m
      invariant e < 0 ==> exp == e
      decreases exp
    {
      RoundKeepsProduct(r, base, exp, m);
      if exp % 2 == 1 {
        r := (r * base) % m;
      }
      base := (base * base) % m;
      exp := exp / 2;
    }
    QuotientUnique(r, 0, r, m);
  }
}
