/** Fermat's little theorem, by the binomial expansion modulo a prime. */
module Fermat {
  import opened Modular

  ghost predicate Prime(p: nat) {
    p > 1 && forall d :: 1 < d < p ==> p % d != 0
  }

  function Binomial(n: nat, k: nat): nat {
    if k == 0 then 1
    else if n == 0 then 0
    else Binomial(n - 1, k - 1) + Binomial(n - 1, k)
  }

  lemma {:induction false} BinomialZero(n: nat, k: nat)
    requires k > n
    ensures Binomial(n, k) == 0
  {
    if n != 0 {
      BinomialZero(n - 1, k - 1);
      BinomialZero(n - 1, k);
    }
  }

  lemma {:induction false} BinomialFull(n: nat)
    ensures Binomial(n, n) == 1
  {
    if n != 0 {
      BinomialFull(n - 1);
      BinomialZero(n - 1, n);
    }
  }

  /** k * C(n, k) = n * C(n-1, k-1). */
  lemma {:induction false} Absorption(n: nat, k: nat)
    requires n > 0 && k > 0
    ensures k * Binomial(n, k) == n * Binomial(n - 1, k - 1)
    decreases n
  {
    if n == 1 {
      if k > 1 {
        BinomialZero(1, k);
        BinomialZero(0, k - 1);
      }
    } else if k == 1 {
      Absorption(n - 1, 1);
      assert Binomial(n, 1) == Binomial(n - 1, 0) + Binomial(n - 1, 1);
      assert Binomial(n - 2, 0) == 1;
    } else {
      Absorption(n - 1, k - 1);
      Absorption(n - 1, k);
      AbsorptionStep(n, k, Binomial(n - 2, k - 2), Binomial(n - 2, k - 1), Binomial(n - 1, k - 1), Binomial(n - 1, k));
    }
  }

  lemma {:induction false} AbsorptionStep(n: nat, k: nat, x: nat, y: nat, z: nat, w: nat)
    requires n > 0 && k > 0
    requires z == x + y && (k - 1) * z == (n - 1) * x && k * w == (n - 1) * y
    ensures k * (z + w) == n * z
  {
    assert k * (z + w) == (k - 1) * z + z + k * w;
    assert (n - 1) * x + (n - 1) * y == (n - 1) * z;
  }

  /** A prime that divides a product with a smaller factor divides the other one. */
  lemma {:induction false} EuclidsLemma(p: nat, k: nat, b: int)
    requires Prime(p) && 0 < k < p && (k * b) % p == 0
    ensures b % p == 0
    decreases k
  {
    if k != 1 {
      var q, r := p / k, p % k;
      assert p % k != 0;
      assert p == k * q + r;
      var t := (k * b) / p;
      assert k * b == p * t;
      assert r * b == p * b - q * (k * b) by {
        assert (k * q + r) * b == k * q * b + r * b;
        assert k * q * b == q * (k * b);
      }
      assert q * (p * t) == p * (q * t);
      assert r * b == p * (b - q * t) + 0;
      QuotientUnique(r * b, b - q * t, 0, p);
      EuclidsLemma(p, r, b);
    }
  }

  /** The first `j + 1` terms of the expansion of (a + 1)^n. */
  function Expansion(n: nat, a: nat, j: nat): int
    decreases j
  {
    Binomial(n, j) * Pow(a, j) + if j == 0 then 0 else Expansion(n, a, j - 1)
  }

  /** One more factor a + 1 adds the expansion to itself, shifted by one power. */
  lemma {:induction false} ExpansionNext(n: nat, a: nat, j: nat)
    ensures Expansion(n + 1, a, j) == Expansion(n, a, j) + if j == 0 then 0 else a * Expansion(n, a, j - 1)
    decreases j
  {
    if j != 0 {
      ExpansionNext(n, a, j - 1);
      var e1 := Expansion(n, a, j - 1);
      var e2 := if j == 1 then 0 else Expansion(n, a, j - 2);
      assert Expansion(n + 1, a, j) == Binomial(n + 1, j) * Pow(a, j) + Expansion(n + 1, a, j - 1);
      assert e1 == Binomial(n, j - 1) * Pow(a, j - 1) + e2;
      ShiftStep(Binomial(n, j - 1), Binomial(n, j), a, Pow(a, j - 1), e2);
    }
  }

  lemma {:induction false} ShiftStep(b: int, c: int, a: int, p: int, e: int)
    ensures (b + c) * (a * p) + a * e == c * (a * p) + a * (b * p + e)
  {
    assert a * (b * p) == b * (a * p);
  }

  lemma {:induction false} BinomialTheorem(n: nat, a: nat)
    ensures Pow(a + 1, n) == Expansion(n, a, n)
    decreases n
  {
    if n != 0 {
      BinomialTheorem(n - 1, a);
      ExpansionNext(n - 1, a, n);
      BinomialZero(n - 1, n);
      var e := Expansion(n - 1, a, n - 1);
      assert Expansion(n - 1, a, n) == 0 * Pow(a, n) + e;
      assert (a + 1) * e == e + a * e;
    }
  }

  /** A prime divides its inner binomial coefficients. */
  lemma {:induction false} InnerCoefficient(p: nat, j: nat)
    requires Prime(p) && 0 < j < p
    ensures Binomial(p, j) % p == 0
  {
    hide Binomial, Prime;
    Absorption(p, j);
    QuotientUnique(j * Binomial(p, j), Binomial(p - 1, j - 1), 0, p);
    EuclidsLemma(p, j, Binomial(p, j));
  }

  lemma {:induction false} TermVanishes(c: int, w: int, e: int, p: nat)
    requires p > 0 && c % p == 0
    ensures (c * w + e) % p == e % p
  {
    var t := c / p;
    assert c * w == p * (t * w);
    RemainderShift(e, t * w, p);
  }

  /** Modulo a prime every inner term vanishes. */
  lemma {:induction false} InnerTermsVanish(p: nat, a: nat, j: nat)
    requires Prime(p) && j < p
    ensures Expansion(p, a, j) % p == 1
    decreases j
  {
    if j == 0 {
      assert Expansion(p, a, 0) == Binomial(p, 0) * Pow(a, 0) == 1;
      QuotientUnique(1, 0, 1, p);
    } else {
      InnerTermsVanish(p, a, j - 1);
      InnerCoefficient(p, j);
      TermVanishes(Binomial(p, j), Pow(a, j), Expansion(p, a, j - 1), p);
    }
  }

  /** a^p and a leave the same remainder modulo a prime p. */
  lemma {:induction false} LittleTheorem(p: nat, a: nat)
    requires Prime(p)
    ensures Pow(a, p) % p == a % p
    decreases a
  {
    if a == 0 {
      assert Pow(0, p) == 0 * Pow(0, p - 1);
    } else {
      LittleTheorem(p, a - 1);
      BinomialTheorem(p, a - 1);
      BinomialFull(p);
      InnerTermsVanish(p, a - 1, p - 1);
      var e, w := Expansion(p, a - 1, p - 1), Pow(a - 1, p);
      assert Pow(a, p) == 1 * w + e;
      SameRemainders(e, 1, w, a - 1, p);
    }
  }

  lemma {:induction false} SameRemainders(e: int, f: int, w: int, v: int, p: nat)
    requires p > 1 && e % p == f && w % p == v % p
    ensures (w + e) % p == (v + f) % p
  {
    var i, j, k := e / p, w / p, v / p;
    assert e == p * i + f && w == p * j + v % p && v == p * k + v % p;
    assert p * (i + j - k) == p * i + p * j - p * k;
    assert w + e == (v + f) + p * (i + j - k);
    RemainderShift(v + f, i + j - k, p);
  }
}
