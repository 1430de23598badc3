/** Fermat's little theorem for every prime, by the binomial theorem. */
module Fermat {
  import opened Arith

  ghost predicate Divides(p: nat, x: int) {
    exists k: int :: x == p * k
  }

  ghost predicate IsPrime(p: nat) {
    p >= 2 && forall d: nat :: 1 < d < p ==> !Divides(d, p)
  }

  lemma DividesBy(p: nat, x: int, k: int)
    requires x == p * k
    ensures Divides(p, x)
  {}

  lemma DividesSum(p: nat, x: int, y: int)
    requires Divides(p, x) && Divides(p, y)
    ensures Divides(p, x + y) && Divides(p, x - y)
  {
    var k :| x == p * k;
    var m :| y == p * m;
    DividesBy(p, x + y, k + m);
    DividesBy(p, x - y, k - m);
  }

  lemma DividesMultiple(p: nat, x: int, c: int)
    requires Divides(p, x)
    ensures Divides(p, c * x)
  {
    var k :| x == p * k;
    assert c * (p * k) == p * (c * k);
    DividesBy(p, c * x, c * k);
  }

  /** Euclid's lemma: a prime that divides a * b, with 0 < a < p, divides b. */
  lemma {:induction false} Euclid(p: nat, a: nat, b: int)
    requires IsPrime(p) && 0 < a < p && Divides(p, a * b)
    ensures Divides(p, b)
    decreases a
  {
    if a > 1 {
      var q, r := p / a, p % a;
      assert p == a * q + r;
      if r == 0 {
        DividesBy(a, p, q);
        assert false;
      }
      DividesMultiple(p, a * b, q);
      DividesBy(p, p * b, b);
      DividesSum(p, p * b, q * (a * b));
      Remainder(p, a, q, r, b);
      hide Divides, IsPrime;
      Euclid(p, r, b);
    }
  }

  lemma Remainder(p: nat, a: nat, q: nat, r: nat, b: int)
    requires p == a * q + r
    ensures p * b - q * (a * b) == r * b
  {
    assert (a * q + r) * b == q * (a * b) + r * b;
  }

  // ---- binomial coefficients ----

  function Choose(n: nat, k: nat): nat {
    if k == 0 then 1 else if n == 0 then 0 else Choose(n - 1, k - 1) + Choose(n - 1, k)
  }

  /** The sum of C(n, k) * a^k over k < m. */
  function BinomialSum(a: int, n: nat, m: nat): int {
    if m == 0 then 0 else BinomialSum(a, n, m - 1) + Choose(n, m - 1) * Power(a, m - 1)
  }

  lemma {:induction false} ChooseBeyond(n: nat, k: nat)
    requires k > n
    ensures Choose(n, k) == 0
  {
    if n > 0 {
      ChooseBeyond(n - 1, k - 1);
      ChooseBeyond(n - 1, k);
    }
  }

  lemma {:induction false} ChooseAll(n: nat)
    ensures Choose(n, n) == 1
  {
    if n > 0 {
      ChooseAll(n - 1);
      ChooseBeyond(n - 1, n);
    }
  }

  lemma {:induction false} PascalSum(a: int, n: nat, m: nat)
    requires n > 0
    ensures BinomialSum(a, n, m + 1) == BinomialSum(a, n - 1, m + 1) + a * BinomialSum(a, n - 1, m)
  {
    if m > 0 {
      PascalSum(a, n, m - 1);
      PascalTerm(Choose(n - 1, m - 1), Choose(n - 1, m), a, Power(a, m - 1), BinomialSum(a, n - 1, m - 1));
    }
  }

  lemma PascalTerm(c: int, d: int, a: int, t: int, s: int)
    ensures (c + d) * (a * t) == d * (a * t) + a * (c * t)
    ensures a * (s + c * t) == a * s + a * (c * t)
  {}

  lemma {:induction false} BinomialTheorem(a: int, n: nat)
    ensures Power(a + 1, n) == BinomialSum(a, n, n + 1)
  {
    if n > 0 {
      BinomialTheorem(a, n - 1);
      PascalSum(a, n, n);
      ChooseBeyond(n - 1, n);
      var s := BinomialSum(a, n - 1, n);
      assert (a + 1) * s == s + a * s;
    }
  }

  lemma {:induction false} Absorption(n: nat, k: nat)
    requires n > 0 && k > 0
    ensures k * Choose(n, k) == n * Choose(n - 1, k - 1)
  {
    if n == 1 {
      if k > 1 {
        ChooseBeyond(1, k);
        ChooseBeyond(0, k - 1);
      }
    } else if k == 1 {
      Absorption(n - 1, 1);
    } else {
      Absorption(n - 1, k - 1);
      Absorption(n - 1, k);
      AbsorptionStep(n, k, Choose(n - 1, k - 1), Choose(n - 1, k), Choose(n - 2, k - 2), Choose(n - 2, k - 1));
    }
  }

  lemma AbsorptionStep(n: int, k: int, c: int, d: int, e: int, f: int)
    requires (k - 1) * c == (n - 1) * e && k * d == (n - 1) * f && c == e + f
    ensures k * (c + d) == n * c
  {
    assert k * (c + d) == (k - 1) * c + c + k * d;
    assert (n - 1) * e + (n - 1) * f == (n - 1) * c;
  }

  /** A prime divides the inner coefficients of its own row. */
  lemma PrimeRow(p: nat, k: nat)
    requires IsPrime(p) && 0 < k < p
    ensures Divides(p, Choose(p, k))
  {
    Absorption(p, k);
    DividesBy(p, k * Choose(p, k), Choose(p - 1, k - 1));
    Euclid(p, k, Choose(p, k));
  }

  lemma {:induction false} InnerSum(p: nat, a: int, m: nat)
    requires IsPrime(p) && 1 <= m <= p
    ensures Divides(p, BinomialSum(a, p, m) - 1)
  {
    if m == 1 {
      assert BinomialSum(a, p, 1) == BinomialSum(a, p, 0) + Choose(p, 0) * Power(a, 0);
      DividesBy(p, 0, 0);
    } else {
      InnerSum(p, a, m - 1);
      PrimeRow(p, m - 1);
      var c, t := Choose(p, m - 1), Power(a, m - 1);
      DividesMultiple(p, c, t);
      assert t * c == c * t;
      DividesSum(p, BinomialSum(a, p, m - 1) - 1, c * t);
      assert BinomialSum(a, p, m) == BinomialSum(a, p, m - 1) + c * t;
    }
  }

  lemma FreshmansDream(p: nat, a: int)
    requires IsPrime(p)
    ensures Divides(p, Power(a + 1, p) - Power(a, p) - 1)
  {
    BinomialTheorem(a, p);
    ChooseAll(p);
    InnerSum(p, a, p);
    assert BinomialSum(a, p, p + 1) == BinomialSum(a, p, p) + Power(a, p);
  }

  lemma {:induction false} PowerOfZero(n: nat)
    requires n > 0
    ensures Power(0, n) == 0
  {}

  lemma {:induction false} FermatNat(p: nat, a: nat)
    requires IsPrime(p)
    ensures Divides(p, Power(a, p) - a)
  {
    if a == 0 {
      PowerOfZero(p);
      DividesBy(p, 0, 0);
    } else {
      FermatNat(p, a - 1);
      FreshmansDream(p, a - 1);
      hide Divides, Power;
      DividesSum(p, Power(a, p) - Power(a - 1, p) - 1, Power(a - 1, p) - (a - 1));
    }
  }

  // ---- residues ----

  lemma {:induction false} PowerCongruent(p: nat, a: int, b: int, n: nat)
    requires Divides(p, a - b)
    ensures Divides(p, Power(a, n) - Power(b, n))
  {
    if n == 0 {
      DividesBy(p, 0, 0);
    } else {
      PowerCongruent(p, a, b, n - 1);
      var x, y := Power(a, n - 1), Power(b, n - 1);
      DividesMultiple(p, x - y, a);
      DividesMultiple(p, a - b, y);
      DividesSum(p, a * (x - y), y * (a - b));
      assert a * (x - y) + y * (a - b) == a * x - b * y;
    }
  }

  /** Fermat's little theorem. */
  lemma LittleTheorem(p: nat, a: int)
    requires IsPrime(p) && !Divides(p, a)
    ensures Divides(p, Power(a, p - 1) - 1)
  {
    var q, r := a / p, a % p;
    DividesBy(p, a - r, q);
    if r == 0 {
      assert false;
    }
    FermatNat(p, r);
    var x := Power(r, p - 1);
    assert Power(r, p) - r == r * (x - 1) by { assert r * (x - 1) == r * x - r; }
    Euclid(p, r, x - 1);
    PowerCongruent(p, a, r, p - 1);
    DividesSum(p, Power(a, p - 1) - x, x - 1);
  }

  lemma {:induction false} PowerAdds(a: int, m: nat, n: nat)
    ensures Power(a, m + n) == Power(a, m) * Power(a, n)
  {
    if m > 0 {
      PowerAdds(a, m - 1, n);
      assert m + n - 1 == m - 1 + n;
      Associate(a, Power(a, m - 1), Power(a, n));
    }
  }

  lemma Associate(a: int, x: int, y: int)
    ensures a * (x * y) == (a * x) * y
  {}
}
