/** `fe_invert` of src/curve25519_ref10.c: the addition chain for the exponent 2^255 - 21. */
module FieldInvert {
  import opened Arith
  import opened FieldValue
  import opened FieldElement
  import opened Fermat

  /** The buffer holds a legal factor that stands for z to the power e. */
  ghost predicate Holds(t: seq<int32>, z: int, e: nat) {
    |t| == 10 && Tight(LimbsOf(t)) && Congruent(Value(LimbsOf(t)), Power(z, e))
  }

  lemma CongruentProduct(a: int, b: int, c: int, d: int)
    requires Congruent(a, b) && Congruent(c, d)
    ensures Congruent(a * c, b * d)
  {
    var k :| a == b + P * k;
    var m :| c == d + P * m;
    assert (b + P * k) * (d + P * m) == b * d + P * (b * m + k * d + k * (P * m));
    CongruentBy(a * c, b * d, b * m + k * d + k * (P * m));
  }

  lemma CongruentTransitive(a: int, b: int, c: int)
    requires Congruent(a, b) && Congruent(b, c)
    ensures Congruent(a, c)
  {
    var k :| a == b + P * k;
    var m :| b == c + P * m;
    CongruentBy(a, c, k + m);
  }

  lemma ProductOfPowers(r: int, a: int, b: int, z: int, m: nat, n: nat)
    requires Congruent(r, a * b) && Congruent(a, Power(z, m)) && Congruent(b, Power(z, n))
    ensures Congruent(r, Power(z, m + n))
  {
    CongruentProduct(a, Power(z, m), b, Power(z, n));
    PowerAdds(z, m, n);
    CongruentTransitive(r, a * b, Power(z, m) * Power(z, n));
  }

  /** `fe_mul` on powers of z. */
  method MulPowers(h: array<int32>, f: array<int32>, g: array<int32>, ghost z: int, ghost m: nat, ghost n: nat)
    requires h.Length == f.Length == g.Length == 10
    requires Loose(LimbsOf(f[..])) && Congruent(Value(LimbsOf(f[..])), Power(z, m))
    requires Loose(LimbsOf(g[..])) && Congruent(Value(LimbsOf(g[..])), Power(z, n))
    modifies h
    ensures Holds(h[..], z, m + n)
  {
    hide Value, LimbsOf, Loose, Tight, Congruent, Power;
    ghost var a, b := Value(LimbsOf(f[..])), Value(LimbsOf(g[..]));
    FeMul(h, f, g);
    ProductOfPowers(Value(LimbsOf(h[..])), a, b, z, m, n);
  }

  lemma HoldsIsLegal(t: seq<int32>, z: int, e: nat)
    requires Holds(t, z, e)
    ensures Loose(LimbsOf(t)) && Congruent(Value(LimbsOf(t)), Power(z, e))
  {}

  method MulHeld(h: array<int32>, f: array<int32>, g: array<int32>, ghost z: int, ghost m: nat, ghost n: nat)
    requires h.Length == f.Length == g.Length == 10 && Holds(f[..], z, m) && Holds(g[..], z, n)
    modifies h
    ensures Holds(h[..], z, m + n)
  {
    hide Value, LimbsOf, Loose, Tight, Congruent, Power;
    HoldsIsLegal(f[..], z, m);
    HoldsIsLegal(g[..], z, n);
    MulPowers(h, f, g, z, m, n);
  }

  /** One squaring of s into t and n - 1 more in place. */
  method SquareRepeatedly(t: array<int32>, s: array<int32>, n: nat, ghost z: int, ghost e: nat)
    requires t.Length == s.Length == 10 && n >= 1 && Holds(s[..], z, e)
    modifies t
    ensures Holds(t[..], z, e * Pow2(n))
  {
    hide Holds;
    MulHeld(t, s, s, z, e, e);
    assert e + e == e * Pow2(1);
    for i := 1 to n
      invariant Holds(t[..], z, e * Pow2(i))
    {
      ghost var d := e * Pow2(i);
      MulHeld(t, t, t, z, d, d);
      assert d + d == e * Pow2(i + 1);
    }
  }

  lemma Shifts()
    ensures Pow2(5) == 0x20 && Pow2(10) == 0x400 && Pow2(20) == 0x10_0000
    ensures Pow2(50) == 0x4_0000_0000_0000 && Pow2(100) == 0x10_0000_0000_0000_0000_0000_0000
  {
    assert Pow2(5) == 0x20;
    hide Pow2;
    Pow2Product(5, 5, 0x20, 0x20);
    Pow2Product(10, 10, 0x400, 0x400);
    Pow2Product(20, 20, 0x10_0000, 0x10_0000);
    Pow2Product(40, 10, 0x100_0000_0000, 0x400);
    Pow2Product(50, 50, 0x4_0000_0000_0000, 0x4_0000_0000_0000);
  }

  lemma Pow2Product(m: nat, n: nat, a: nat, b: nat)
    requires Pow2(m) == a && Pow2(n) == b
    ensures Pow2(m + n) == a * b
  {
    Pow2Adds(m, n);
  }

  lemma {:induction false} Pow2Adds(m: nat, n: nat)
    ensures Pow2(m + n) == Pow2(m) * Pow2(n)
  {
    if m > 0 {
      Pow2Adds(m - 1, n);
      assert m + n - 1 == m - 1 + n;
    }
  }

  /** The exponent that `fe_invert` raises to. */
  const INVERT_EXPONENT: nat := 0x7fffffff_ffffffff_ffffffff_ffffffff_ffffffff_ffffffff_ffffffff_ffffffeb

  /** The opening of the chain: the powers 11 and 31. */
  method SmallPowers(z: array<int32>, t0: array<int32>, t1: array<int32>, t2: array<int32>, ghost v: int)
    requires z.Length == t0.Length == t1.Length == t2.Length == 10 && {z} !! {t0} !! {t1} !! {t2}
    requires Loose(LimbsOf(z[..])) && v == Value(LimbsOf(z[..]))
    modifies t0, t1, t2
    ensures Holds(t0[..], v, 11) && Holds(t1[..], v, 31)
  {
    hide Holds, Loose, Value, Power, Congruent, LimbsOf;
    FirstPower(v);
    MulPowers(t0, z, z, v, 1, 1);
    MulHeld(t1, t0, t0, v, 2, 2);
    MulHeld(t1, t1, t1, v, 4, 4);
    MulFirst(t1, z, t1, v, 8);
    MulHeld(t0, t0, t1, v, 2, 9);
    MulHeld(t2, t0, t0, v, 11, 11);
    MulHeld(t1, t1, t2, v, 9, 22);
  }

  /** From 2^5 - 1 by way of 10, 20 and 40 to 2^50 - 1. */
  method UpToFifty(t1: array<int32>, t2: array<int32>, t3: array<int32>, ghost v: int)
    requires t1.Length == t2.Length == t3.Length == 10 && {t1} !! {t2} !! {t3}
    requires Holds(t1[..], v, 31)
    modifies t1, t2, t3
    ensures Holds(t1[..], v, 0x3_ffff_ffff_ffff)
  {
    hide Holds, Pow2;
    Shifts();
    SquareRepeatedly(t2, t1, 5, v, 31);
    MulHeld(t1, t2, t1, v, 31 * 0x20, 31);
    SquareRepeatedly(t2, t1, 10, v, 0x3ff);
    MulHeld(t2, t2, t1, v, 0x3ff * 0x400, 0x3ff);
    SquareRepeatedly(t3, t2, 20, v, 0xf_ffff);
    MulHeld(t2, t3, t2, v, 0xf_ffff * 0x10_0000, 0xf_ffff);
    SquareRepeatedly(t2, t2, 10, v, 0xff_ffff_ffff);
    MulHeld(t1, t2, t1, v, 0xff_ffff_ffff * 0x400, 0x3ff);
  }

  /** From 2^50 - 1 by way of 100 and 200 to 2^250 - 1. */
  method UpToTwoFifty(t1: array<int32>, t2: array<int32>, t3: array<int32>, ghost v: int)
    requires t1.Length == t2.Length == t3.Length == 10 && {t1} !! {t2} !! {t3}
    requires Holds(t1[..], v, 0x3_ffff_ffff_ffff)
    modifies t1, t2, t3
    ensures Holds(t1[..], v, ONES_250)
  {
    hide Holds, Pow2;
    Shifts();
    SquareRepeatedly(t2, t1, 50, v, 0x3_ffff_ffff_ffff);
    MulHeld(t2, t2, t1, v, 0x3_ffff_ffff_ffff * 0x4_0000_0000_0000, 0x3_ffff_ffff_ffff);
    SquareRepeatedly(t3, t2, 100, v, ONES_100);
    MulHeld(t2, t3, t2, v, ONES_100 * 0x10_0000_0000_0000_0000_0000_0000, ONES_100);
    SquareRepeatedly(t2, t2, 50, v, ONES_200);
    MulHeld(t1, t2, t1, v, ONES_200 * 0x4_0000_0000_0000, 0x3_ffff_ffff_ffff);
  }

  const ONES_100: nat := 0xf_ffffffff_ffffffff_ffffffff
  const ONES_200: nat := 0xff_ffffffff_ffffffff_ffffffff_ffffffff_ffffffff_ffffffff
  const ONES_250: nat := 0x3ffffff_ffffffff_ffffffff_ffffffff_ffffffff_ffffffff_ffffffff_ffffffff

  /** `fe_invert`; the result may overwrite the argument. */
  method FeInvert(out: array<int32>, z: array<int32>)
    requires out.Length == z.Length == 10 && Loose(LimbsOf(z[..]))
    modifies out
    ensures Holds(out[..], Value(LimbsOf(old(z[..]))), INVERT_EXPONENT)
    ensures IsPrime(P) && !Divides(P, Value(LimbsOf(old(z[..])))) ==> Congruent(Value(LimbsOf(old(z[..]))) * Value(LimbsOf(out[..])), 1)
  {
    hide Holds, Loose, Value, Pow2, Power, Congruent, LimbsOf;
    Shifts();
    ghost var v := Value(LimbsOf(z[..]));
    var t0, t1, t2, t3 := new int32[10], new int32[10], new int32[10], new int32[10];
    SmallPowers(z, t0, t1, t2, v);
    UpToFifty(t1, t2, t3, v);
    UpToTwoFifty(t1, t2, t3, v);
    SquareRepeatedly(t1, t1, 5, v, ONES_250);
    MulHeld(out, t1, t0, v, ONES_250 * 0x20, 11);
    HeldIsInverse(out[..], v);
  }

  lemma HeldIsInverse(t: seq<int32>, z: int)
    requires Holds(t, z, INVERT_EXPONENT)
    ensures IsPrime(P) && !Divides(P, z) ==> Congruent(z * Value(LimbsOf(t)), 1)
  {
    hide Value, LimbsOf, Power, Tight;
    if IsPrime(P) && !Divides(P, z) {
      PowerIsInverse(z, Value(LimbsOf(t)));
    }
  }

  lemma FirstPower(z: int)
    ensures Power(z, 1) == z && Congruent(z, Power(z, 1))
  {
    assert Power(z, 1) == z * Power(z, 0);
    CongruentBy(z, z, 0);
  }

  /** A multiplication whose first factor is the argument of the inversion itself. */
  method MulFirst(h: array<int32>, z: array<int32>, g: array<int32>, ghost v: int, ghost n: nat)
    requires h.Length == z.Length == g.Length == 10 && Holds(g[..], v, n)
    requires Loose(LimbsOf(z[..])) && v == Value(LimbsOf(z[..]))
    modifies h
    ensures Holds(h[..], v, 1 + n)
  {
    hide Value, LimbsOf, Loose, Tight, Congruent, Power;
    FirstPower(v);
    HoldsIsLegal(g[..], v, n);
    MulPowers(h, z, g, v, 1, n);
  }

  /** The exponent is p - 2, so for a value that p does not divide the result is its inverse modulo p. */
  lemma PowerIsInverse(z: int, r: int)
    requires IsPrime(P) && !Divides(P, z)
    requires Congruent(r, Power(z, INVERT_EXPONENT))
    ensures Congruent(z * r, 1)
  {
    hide Power;
    LittleTheorem(P, z);
    FirstPower(z);
    var n: nat := P - 2;
    assert INVERT_EXPONENT == n;
    PowerAdds(z, 1, n);
    assert 1 + n == P - 1;
    CongruentBy(z, z, 0);
    CongruentProduct(z, z, r, Power(z, n));
    var k :| Power(z, P - 1) - 1 == P * k;
    CongruentBy(Power(z, P - 1), 1, k);
    CongruentTransitive(z * r, z * Power(z, n), 1);
  }
}
