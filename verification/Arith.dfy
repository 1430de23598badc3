/** Facts about quotients and remainders that the solver needs spelled out. */
module Arith {

  function Pow2(k: nat): (p: nat)
    ensures p > 0
  {
    if k == 0 then 1 else 2 * Pow2(k - 1)
  }

  function Power(a: int, n: nat): (p: int)
    ensures a >= 0 ==> p >= 0
  {
    if n == 0 then 1 else a * Power(a, n - 1)
  }

  lemma SmallMod(x: nat, m: nat)
    requires x < m
    ensures x % m == x
  {}

  lemma AddMultiple(x: int, q: int, m: nat)
    requires m > 0
    ensures (m * q + x) % m == x % m
  {
    var d := (m * q + x) / m - x / m - q;
    var e := (m * q + x) % m - x % m;
    assert m * q + x == m * ((m * q + x) / m) + (m * q + x) % m;
    assert x == m * (x / m) + x % m;
    assert m * d + e == 0 by {
      assert m * d == m * ((m * q + x) / m) - m * (x / m) - m * q;
    }
    MulMagnitude(m, d);
  }

  lemma MulMagnitude(m: nat, d: int)
    ensures d >= 1 ==> m * d >= m
    ensures d <= -1 ==> m * d + m <= 0
    ensures d == 0 ==> m * d == 0
  {
    if d >= 1 {
      assert m * (d - 1) >= 0;
    } else if d <= -1 {
      assert m * (-d - 1) >= 0;
    }
  }

  lemma MulModRight(a: nat, y: nat, c: nat, m: nat)
    requires m > 0
    ensures (a * (y % m) + c) % m == (a * y + c) % m
  {
    var q, r := y / m, y % m;
    assert y == m * q + r;
    assert a * y + c == m * (a * q) + (a * r + c) by {
      assert a * (m * q) == m * (a * q);
      assert a * y == a * (m * q) + a * r;
    }
    AddMultiple(a * r + c, a * q, m);
  }

  lemma ModEqual(x: nat, y: nat, m: nat)
    requires m > 0
    ensures (x + y) % m == x % m <==> y % m == 0
  {
    var q, r := x / m, x % m;
    assert x == m * q + r;
    assert x + y == m * q + (r + y);
    AddMultiple(r + y, q, m);
    var t, v := y / m, y % m;
    assert r + y == m * t + (r + v) by { assert y == m * t + v; }
    AddMultiple(r + v, t, m);
    if r + v < m {
      SmallMod(r + v, m);
    } else {
      AddMultiple(r + v - m, 1, m);
      SmallMod(r + v - m, m);
    }
  }
}
