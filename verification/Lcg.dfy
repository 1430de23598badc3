/**
 * Linear congruential generators x -> a * x + c modulo a power of two, with a = 1 modulo 4 and c odd:
 * the period of every orbit is the whole modulus.
 */
module Lcg {
  import opened Arith

  ghost predicate FullPeriod(a: nat, c: nat) {
    a % 4 == 1 && c % 2 == 1
  }

  function Step(a: nat, c: nat, m: nat, x: nat): nat
    requires m > 0
  {
    (a * x + c) % m
  }

  function Orbit(a: nat, c: nat, m: nat, x: nat, n: nat): nat
    requires m > 0
  {
    if n == 0 then x else Step(a, c, m, Orbit(a, c, m, x, n - 1))
  }

  /** The orbit without reduction. */
  function Lift(a: nat, c: nat, x: nat, n: nat): nat {
    if n == 0 then x else a * Lift(a, c, x, n - 1) + c
  }

  /** 1 + a + ... + a^(n-1) */
  function PowerSum(a: nat, n: nat): nat {
    if n == 0 then 0 else a * PowerSum(a, n - 1) + 1
  }

  lemma {:induction false} OrbitIsLift(a: nat, c: nat, m: nat, x: nat, n: nat)
    requires m > 0 && x < m
    ensures Orbit(a, c, m, x, n) == Lift(a, c, x, n) % m
  {
    if n > 0 {
      OrbitIsLift(a, c, m, x, n - 1);
      MulModRight(a, Lift(a, c, x, n - 1), c, m);
    } else {
      SmallMod(x, m);
    }
  }

  /** n steps move x by the geometric sum times the first increment. */
  lemma {:induction false} Displacement(a: nat, c: nat, x: nat, n: nat)
    requires a >= 1
    ensures Lift(a, c, x, n) == x + PowerSum(a, n) * ((a - 1) * x + c)
  {
    if n > 0 {
      Displacement(a, c, x, n - 1);
      Regroup(a, x, PowerSum(a, n - 1), c);
    }
  }

  lemma Regroup(a: nat, x: nat, s: nat, c: nat)
    requires a >= 1
    ensures var d := (a - 1) * x + c; a * (x + s * d) + c == x + (a * s + 1) * d
  {
    var d := (a - 1) * x + c;
    assert (a - 1) * x == a * x - x;
    assert a * (s * d) == a * s * d;
  }

  // ---- powers of two that divide the geometric sum ----

  lemma {:induction false} SumParity(a: nat, n: nat)
    requires a % 2 == 1
    ensures PowerSum(a, n) % 2 == n % 2
  {
    if n > 0 {
      SumParity(a, n - 1);
      OddTimes(a, PowerSum(a, n - 1));
      NextParity(a * PowerSum(a, n - 1), n - 1);
    }
  }

  lemma NextParity(x: nat, y: nat)
    requires x % 2 == y % 2
    ensures (x + 1) % 2 == (y + 1) % 2
  {}

  lemma OddTimes(a: nat, s: nat)
    requires a % 2 == 1
    ensures a * s % 2 == s % 2
  {
    var h := a / 2;
    assert a * s == 2 * (h * s) + s;
    AddMultiple(s, h * s, 2);
  }

  lemma {:induction false} PowerIsOneModFour(a: nat, n: nat)
    requires a % 4 == 1
    ensures Power(a, n) % 4 == 1
  {
    if n > 0 {
      PowerIsOneModFour(a, n - 1);
      OneTimes(a, Power(a, n - 1));
    }
  }

  lemma OneTimes(a: nat, p: nat)
    requires a % 4 == 1
    ensures a * p % 4 == p % 4
  {
    var q := a / 4;
    assert a == 4 * q + 1;
    OneTimesExpanded(a, q, p);
    AddMultiple(p, q * p, 4);
  }

  lemma OneTimesExpanded(a: nat, q: nat, p: nat)
    requires a == 4 * q + 1
    ensures a * p == 4 * (q * p) + p
  {}

  lemma {:induction false} SumOfTwo(a: nat, m: nat, n: nat)
    ensures PowerSum(a, m + n) == PowerSum(a, n) + Power(a, n) * PowerSum(a, m)
  {
    if n > 0 {
      SumOfTwo(a, m, n - 1);
      assert m + n - 1 == m + (n - 1);
      Distribute(a, PowerSum(a, n - 1), Power(a, n - 1), PowerSum(a, m));
    }
  }

  lemma Distribute(a: nat, s: nat, p: nat, t: nat)
    ensures a * (s + p * t) + 1 == (a * s + 1) + a * p * t
  {
    assert a * (p * t) == a * p * t;
  }

  lemma HalveBoth(y: nat, k: nat)
    requires k > 0
    ensures (2 * y) % Pow2(k) == 0 <==> y % Pow2(k - 1) == 0
  {
    var p := Pow2(k - 1);
    var q, r := y / p, y % p;
    assert y == p * q + r;
    assert 2 * y == 2 * p * q + 2 * r;
    AddMultiple(2 * r, q, 2 * p);
    SmallMod(2 * r, 2 * p);
  }

  lemma OddNotDivisible(y: nat, k: nat)
    requires k > 0 && y % 2 == 1
    ensures y % Pow2(k) != 0
  {
    EvenMultiple(k, y / Pow2(k));
    var p := Pow2(k);
    hide Pow2;
    assert y == p * (y / p) + y % p;
  }

  lemma EvenMultiple(k: nat, q: nat)
    requires k > 0
    ensures Pow2(k) * q % 2 == 0
  {
    var p := Pow2(k - 1);
    assert Pow2(k) * q == 2 * (p * q);
    AddMultiple(0, p * q, 2);
  }

  /** An odd factor changes nothing about divisibility by powers of two. */
  lemma {:induction false} OddFactor(u: nat, y: nat, k: nat)
    requires u % 2 == 1
    ensures (u * y) % Pow2(k) == 0 <==> y % Pow2(k) == 0
  {
    if k > 0 {
      OddTimes(u, y);
      if y % 2 == 1 {
        OddNotDivisible(y, k);
        OddNotDivisible(u * y, k);
      } else {
        var z := y / 2;
        assert u * y == 2 * (u * z) by { assert y == 2 * z; }
        HalveBoth(z, k);
        HalveBoth(u * z, k);
        OddFactor(u, z, k - 1);
      }
    }
  }

  /** The same powers of two divide the geometric sum and its number of terms. */
  lemma {:induction false} SumValuation(a: nat, n: nat, k: nat)
    requires a % 4 == 1
    ensures PowerSum(a, n) % Pow2(k) == 0 <==> n % Pow2(k) == 0
  {
    if k > 0 {
      SumParity(a, n);
      if n % 2 == 1 {
        OddNotDivisible(n, k);
        OddNotDivisible(PowerSum(a, n), k);
      } else {
        var m := n / 2;
        var u, s := (1 + Power(a, m)) / 2, PowerSum(a, m);
        SumOfDouble(a, m);
        HalveBoth(u * s, k);
        OddFactor(u, s, k - 1);
        SumValuation(a, m, k - 1);
        HalveBoth(m, k);
      }
    }
  }

  lemma SumOfDouble(a: nat, m: nat)
    requires a % 4 == 1
    ensures var u := (1 + Power(a, m)) / 2; u % 2 == 1 && PowerSum(a, 2 * m) == 2 * (u * PowerSum(a, m))
  {
    SumOfTwo(a, m, m);
    PowerIsOneModFour(a, m);
    hide Power, PowerSum;
    HalfOfNext(Power(a, m), PowerSum(a, m));
  }

  lemma HalfOfNext(p: nat, s: nat)
    requires p % 4 == 1
    ensures var u := (1 + p) / 2; u % 2 == 1 && s + p * s == 2 * (u * s)
  {
    var u := (1 + p) / 2;
    assert p == 2 * u - 1;
    assert p * s == 2 * (u * s) - s;
  }

  // ---- the orbit ----

  /** The orbit of x comes back to x exactly at the multiples of the modulus. */
  lemma OrbitReturns(a: nat, c: nat, k: nat, x: nat, n: nat)
    requires FullPeriod(a, c) && k > 0 && x < Pow2(k)
    ensures Orbit(a, c, Pow2(k), x, n) == x <==> n % Pow2(k) == 0
  {
    hide Orbit, Lift, PowerSum, Pow2;
    var m := Pow2(k);
    var d, s := (a - 1) * x + c, PowerSum(a, n);
    IncrementIsOdd(a, c, x);
    OrbitIsLift(a, c, m, x, n);
    Displacement(a, c, x, n);
    SmallMod(x, m);
    OddFactor(d, s, k);
    SumValuation(a, n, k);
    assert s * d == d * s;
    ModEqual(x, s * d, m);
  }

  lemma IncrementIsOdd(a: nat, c: nat, x: nat)
    requires FullPeriod(a, c)
    ensures ((a - 1) * x + c) % 2 == 1
  {
    var h := (a - 1) / 2;
    assert a - 1 == 2 * h;
    assert (a - 1) * x == 2 * (h * x);
    AddMultiple(c, h * x, 2);
  }

  lemma {:induction false} OrbitCompose(a: nat, c: nat, m: nat, x: nat, i: nat, n: nat)
    requires m > 0
    ensures Orbit(a, c, m, x, i + n) == Orbit(a, c, m, Orbit(a, c, m, x, i), n)
  {
    if n > 0 {
      OrbitCompose(a, c, m, x, i, n - 1);
      assert i + n - 1 == i + (n - 1);
    }
  }

  lemma OrbitBound(a: nat, c: nat, m: nat, x: nat, n: nat)
    requires m > 0 && x < m
    ensures Orbit(a, c, m, x, n) < m
  {}

  /** Two positions of one orbit hold the same state exactly when they are equal modulo the modulus. */
  lemma OrbitPositions(a: nat, c: nat, k: nat, x: nat, i: nat, j: nat)
    requires FullPeriod(a, c) && k > 0 && x < Pow2(k)
    ensures Orbit(a, c, Pow2(k), x, i) == Orbit(a, c, Pow2(k), x, j) <==> i % Pow2(k) == j % Pow2(k)
  {
    if i > j {
      OrbitPositions(a, c, k, x, j, i);
    } else {
      var m := Pow2(k);
      OrbitCompose(a, c, m, x, i, j - i);
      OrbitBound(a, c, m, x, i);
      OrbitReturns(a, c, k, Orbit(a, c, m, x, i), j - i);
      ModEqual(i, j - i, m);
    }
  }
}
