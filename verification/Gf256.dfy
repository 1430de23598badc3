/** Arithmetic in the field of 256 elements, as src/simple_aes.c computes it. */
module Gf256 {
  import opened Bytes

  function Xtime(x: Byte): Byte {
    (x << 1) ^ ((x >> 7) * 0x1B)
  }

  /** What the loop of `gf_mul` computes, bit by bit of its second factor. */
  function GfMul(a: Byte, b: Byte): Byte
    decreases b
  {
    if b == 0 then 0 else Xor(Select(b, a), GfMul(Xtime(a), b >> 1))
  }

  function Select(b: Byte, a: Byte): Byte {
    if b & 1 != 0 then a else 0
  }

  method MultiplyBytes(a0: Byte, b0: Byte) returns (res: Byte)
    ensures res == GfMul(a0, b0)
  {
    var a, b := a0, b0;
    res := 0;
    while b != 0
      invariant Xor(res, GfMul(a, b)) == GfMul(a0, b0)
      decreases b
    {
      XorAssoc(res, Select(b, a), GfMul(Xtime(a), b >> 1));
      if b & 1 != 0 {
        res := Xor(res, a);
      }
      a := Xtime(a);
      b := b >> 1;
    }
  }

  // ---- the product is linear in its first factor ----

  lemma XtimeXor(a: Byte, b: Byte)
    ensures Xtime(Xor(a, b)) == Xor(Xtime(a), Xtime(b))
  {}

  lemma SelectXor(c: Byte, a: Byte, b: Byte)
    ensures Select(c, Xor(a, b)) == Xor(Select(c, a), Select(c, b))
  {}

  lemma Halve(b: Byte)
    ensures b != 0 ==> b >> 1 < b
  {}

  lemma {:induction false} GfMulXor(a: Byte, b: Byte, c: Byte)
    ensures GfMul(Xor(a, b), c) == Xor(GfMul(a, c), GfMul(b, c))
    decreases c
  {
    if c != 0 {
      Halve(c);
      XtimeXor(a, b);
      SelectXor(c, a, b);
      GfMulXor(Xtime(a), Xtime(b), c >> 1);
      XorSwap(Select(c, a), Select(c, b), GfMul(Xtime(a), c >> 1), GfMul(Xtime(b), c >> 1));
      hide Xor, Select, Xtime;
    }
  }

  lemma HalveXor(b: Byte, c: Byte, a: Byte)
    ensures Xor(b, c) >> 1 == Xor(b >> 1, c >> 1)
    ensures Select(Xor(b, c), a) == Xor(Select(b, a), Select(c, a))
  {}

  lemma GfMulStep(a: Byte, b: Byte)
    ensures GfMul(a, b) == Xor(Select(b, a), GfMul(Xtime(a), b >> 1))
  {}

  /** ... and in its second. */
  lemma {:induction false} GfMulXorRight(a: Byte, b: Byte, c: Byte)
    ensures GfMul(a, Xor(b, c)) == Xor(GfMul(a, b), GfMul(a, c))
    decreases b, c
  {
    if b == 0 {
      XorZero(c);
      XorZero(GfMul(a, c));
    } else if c == 0 {
      XorZero(b);
      XorZero(GfMul(a, b));
    } else {
      Halve(b);
      HalveXor(b, c, a);
      GfMulXorRight(Xtime(a), b >> 1, c >> 1);
      XorSwap(Select(b, a), Select(c, a), GfMul(Xtime(a), b >> 1), GfMul(Xtime(a), c >> 1));
      GfMulStep(a, b);
      GfMulStep(a, c);
      GfMulStep(a, Xor(b, c));
      hide Xor, Select, Xtime;
    }
  }

  lemma XorZero(a: Byte)
    ensures Xor(0, a) == a && Xor(a, 0) == a && Xor(a, a) == 0
  {}

  lemma {:induction false} XtimeOfProduct(a: Byte, m: Byte)
    ensures Xtime(GfMul(a, m)) == GfMul(Xtime(a), m)
    decreases m
  {
    if m != 0 {
      Halve(m);
      XtimeOfProduct(Xtime(a), m >> 1);
      XtimeXor(Select(m, a), GfMul(Xtime(a), m >> 1));
      XtimeSelect(m, a);
      hide Xor, Select, Xtime;
    }
  }

  lemma XtimeSelect(m: Byte, a: Byte)
    ensures Xtime(Select(m, a)) == Select(m, Xtime(a))
  {}

  lemma {:induction false} ProductOfZero(m: Byte)
    ensures GfMul(0, m) == 0
    decreases m
  {
    if m != 0 {
      Halve(m);
      ProductOfZero(m >> 1);
    }
  }

  lemma SelectProduct(n: Byte, a: Byte, m: Byte)
    ensures GfMul(Select(n, a), m) == Select(n, GfMul(a, m))
  {
    ProductOfZero(m);
  }

  /** Multiplications by two factors commute. */
  lemma {:induction false} ProductsCommute(a: Byte, m: Byte, n: Byte)
    ensures GfMul(GfMul(a, m), n) == GfMul(GfMul(a, n), m)
    decreases n
  {
    if n == 0 {
      ProductOfZero(m);
    } else {
      Halve(n);
      XtimeOfProduct(a, m);
      ProductsCommute(Xtime(a), m, n >> 1);
      SelectProduct(n, a, m);
      GfMulXor(Select(n, a), GfMul(Xtime(a), n >> 1), m);
      GfMulStep(a, n);
      GfMulStep(GfMul(a, m), n);
      hide Xor, Select, Xtime, GfMul;
    }
  }

  lemma ProductByOne(a: Byte)
    ensures GfMul(a, 1) == a
  {
    assert GfMul(Xtime(a), 0) == 0;
  }

  lemma ProductByTwo(a: Byte, n: Byte)
    requires n < 0x80
    ensures GfMul(GfMul(a, 2), n) == GfMul(a, n << 1)
  {
    GfMulStep(a, 2);
    ProductByOne(Xtime(a));
    GfMulStep(a, n << 1);
    XorZero(Xtime(a));
    XorZero(GfMul(Xtime(a), n));
    ShiftBack(n, a);
    hide Xor, Select, Xtime, GfMul;
  }

  lemma ShiftBack(n: Byte, a: Byte)
    requires n < 0x80
    ensures (n << 1) >> 1 == n && Select(n << 1, a) == 0 && Select(2, a) == 0 && Select(3, a) == a
  {}

  lemma ProductByThree(a: Byte, n: Byte)
    requires n < 0x80
    ensures GfMul(GfMul(a, 3), n) == GfMul(a, Xor(n, n << 1))
  {
    GfMulXorRight(a, 1, 2);
    assert Xor(1, 2) == 3;
    ProductByOne(a);
    GfMulXor(a, GfMul(a, 2), n);
    ProductByTwo(a, n);
    GfMulXorRight(a, n, n << 1);
    hide Xor, Select, Xtime, GfMul;
  }

  // ---- polynomials over the field of two elements ----

  /** The reduction polynomial x^8 + x^4 + x^3 + x + 1; bit i is the coefficient of x^i. */
  const MODULUS: bv16 := 0x11B

  function XorPoly(p: bv16, q: bv16): bv16 {
    p ^ q
  }

  function SelectPoly(b: Byte, p: bv16): bv16 {
    if b & 1 != 0 then p else 0
  }

  function ShiftPoly(p: bv16): bv16 {
    p << 1
  }

  /** The product of two polynomials, by the schoolbook method. */
  function PolyMul(p: bv16, b: Byte): bv16
    decreases b
  {
    if b == 0 then 0 else XorPoly(SelectPoly(b, p), PolyMul(ShiftPoly(p), b >> 1))
  }

  function Poly(a: Byte): bv16 {
    a as bv16
  }

  lemma XorPolySwap(a: bv16, b: bv16, c: bv16, d: bv16)
    ensures XorPoly(XorPoly(a, b), XorPoly(c, d)) == XorPoly(XorPoly(a, c), XorPoly(b, d))
  {
    XorPolyLaws(a, b, XorPoly(c, d));
    XorPolyLaws(b, c, d);
    XorPolyLaws(c, b, d);
    XorPolyLaws(a, c, XorPoly(b, d));
    hide XorPoly;
  }

  lemma XorPolyLaws(a: bv16, b: bv16, c: bv16)
    ensures XorPoly(XorPoly(a, b), c) == XorPoly(a, XorPoly(b, c))
    ensures XorPoly(a, b) == XorPoly(b, a)
  {}

  lemma ShiftPolyXor(p: bv16, q: bv16)
    ensures ShiftPoly(XorPoly(p, q)) == XorPoly(ShiftPoly(p), ShiftPoly(q))
  {}

  lemma SelectPolyXor(b: Byte, p: bv16, q: bv16)
    ensures SelectPoly(b, XorPoly(p, q)) == XorPoly(SelectPoly(b, p), SelectPoly(b, q))
  {}

  lemma PolyMulStep(p: bv16, b: Byte)
    ensures PolyMul(p, b) == XorPoly(SelectPoly(b, p), PolyMul(ShiftPoly(p), b >> 1))
  {}

  lemma {:induction false} PolyMulZero(b: Byte)
    ensures PolyMul(0, b) == 0
    decreases b
  {
    if b != 0 {
      PolyMulZero(b >> 1);
    }
  }

  lemma {:induction false} PolyMulXor(p: bv16, q: bv16, b: Byte)
    ensures PolyMul(XorPoly(p, q), b) == XorPoly(PolyMul(p, b), PolyMul(q, b))
    decreases b
  {
    if b != 0 {
      Halve(b);
      ShiftPolyXor(p, q);
      SelectPolyXor(b, p, q);
      PolyMulXor(ShiftPoly(p), ShiftPoly(q), b >> 1);
      XorPolySwap(SelectPoly(b, p), SelectPoly(b, q), PolyMul(ShiftPoly(p), b >> 1), PolyMul(ShiftPoly(q), b >> 1));
      hide XorPoly, SelectPoly, ShiftPoly;
    }
  }

  lemma {:induction false} PolyMulXorRight(p: bv16, b: Byte, c: Byte)
    ensures PolyMul(p, Xor(b, c)) == XorPoly(PolyMul(p, b), PolyMul(p, c))
    decreases b, c
  {
    if b == 0 {
      assert Xor(b, c) == c;
    } else if c == 0 {
      assert Xor(b, c) == b;
    } else {
      Halve(b);
      HalveXor(b, c, 0);
      SelectPolyXorLeft(b, c, p);
      PolyMulXorRight(ShiftPoly(p), b >> 1, c >> 1);
      XorPolySwap(SelectPoly(b, p), SelectPoly(c, p), PolyMul(ShiftPoly(p), b >> 1), PolyMul(ShiftPoly(p), c >> 1));
      PolyMulStep(p, b);
      PolyMulStep(p, c);
      PolyMulStep(p, Xor(b, c));
      hide XorPoly, SelectPoly, ShiftPoly, Xor;
    }
  }

  lemma SelectPolyXorLeft(b: Byte, c: Byte, p: bv16)
    ensures SelectPoly(Xor(b, c), p) == XorPoly(SelectPoly(b, p), SelectPoly(c, p))
  {
    LowBits(b, c);
    XorPolyUnits(p);
    hide Xor, XorPoly;
  }

  lemma XorPolyUnits(p: bv16)
    ensures XorPoly(0, p) == p && XorPoly(p, 0) == p && XorPoly(p, p) == 0 && XorPoly(0, 0) == 0
  {}

  lemma LowBits(b: Byte, c: Byte)
    ensures (Xor(b, c) & 1 != 0) == ((b & 1 != 0) != (c & 1 != 0))
  {}

  /** Doubling a byte and reducing it subtracts the modulus exactly when the top bit is set. */
  lemma XtimeReduces(a: Byte)
    ensures ShiftPoly(Poly(a)) == XorPoly(Poly(Xtime(a)), SelectPoly(a >> 7, MODULUS))
  {}

  lemma SelectQuotient(a: Byte, c: Byte)
    ensures PolyMul(SelectPoly(a, MODULUS), c) == PolyMul(MODULUS, Select(a, c))
  {
    PolyMulZero(c);
  }

  /**
   * `gf_mul` is the product modulo x^8 + x^4 + x^3 + x + 1: the polynomial product of its two
   * factors is its result plus a multiple of the modulus (section 4.2 of FIPS 197).
   */
  lemma {:induction false} GfMulIsProductModulo(a: Byte, b: Byte) returns (q: Byte)
    ensures PolyMul(Poly(a), b) == XorPoly(Poly(GfMul(a, b)), PolyMul(MODULUS, q))
    ensures q < 0x80
    decreases b
  {
    if b == 0 {
      q := 0;
    } else {
      var c := b >> 1;
      Halve(b);
      var q0 := GfMulIsProductModulo(Xtime(a), c);
      q := Xor(q0, Select(a >> 7, c));
      QuotientFits(q0, a, b);
      XtimeReduces(a);
      PolyMulXor(Poly(Xtime(a)), SelectPoly(a >> 7, MODULUS), c);
      SelectQuotient(a >> 7, c);
      PolyMulXorRight(MODULUS, q0, Select(a >> 7, c));
      PolySelect(a, b);
      PolyOfXor(Select(b, a), GfMul(Xtime(a), c));
      XorPolyRegroup(Poly(Select(b, a)), Poly(GfMul(Xtime(a), c)), PolyMul(MODULUS, q0), PolyMul(MODULUS, Select(a >> 7, c)));
      hide XorPoly, SelectPoly, ShiftPoly, Xor, Select, Xtime, Poly;
    }
  }

  lemma QuotientFits(q: Byte, a: Byte, b: Byte)
    requires q < 0x80
    ensures Xor(q, Select(a >> 7, b >> 1)) < 0x80
  {}

  lemma PolySelect(a: Byte, b: Byte)
    ensures SelectPoly(b, Poly(a)) == Poly(Select(b, a))
  {}

  lemma PolyOfXor(a: Byte, b: Byte)
    ensures Poly(Xor(a, b)) == XorPoly(Poly(a), Poly(b))
  {}

  lemma XorPolyRegroup(a: bv16, b: bv16, c: bv16, d: bv16)
    ensures XorPoly(a, XorPoly(XorPoly(b, c), d)) == XorPoly(XorPoly(a, b), XorPoly(c, d))
  {
    XorPolyLaws(b, c, d);
    XorPolyLaws(a, b, XorPoly(c, d));
    hide XorPoly;
  }

  /** The remainder is unique: no non-zero multiple of the modulus fits in a byte. */
  lemma RemainderIsUnique(r: Byte, s: Byte, q: Byte)
    requires q < 0x80
    requires Poly(r) == XorPoly(Poly(s), PolyMul(MODULUS, q))
    ensures r == s
  {
    MultipleOfModulus(q);
    var m := PolyMul(MODULUS, q);
    hide PolyMul;
    assert m & 0xFF00 == 0;
    NonZeroMultiple(q);
  }

  lemma MultipleOfModulus(q: Byte)
    requires q < 0x80
    ensures PolyMul(MODULUS, q) == SevenTerms(q)
  {
    ShiftsCompose(q);
    PolyMulStepTo(0x11B, q, 0x236, q >> 1);
    PolyMulStepTo(0x236, q >> 1, 0x46C, q >> 2);
    PolyMulStepTo(0x46C, q >> 2, 0x8D8, q >> 3);
    PolyMulStepTo(0x8D8, q >> 3, 0x11B0, q >> 4);
    PolyMulStepTo(0x11B0, q >> 4, 0x2360, q >> 5);
    PolyMulStepTo(0x2360, q >> 5, 0x46C0, q >> 6);
    PolyMulStepTo(0x46C0, q >> 6, 0x8D80, 0);
    assert PolyMul(0x8D80, 0) == 0;
    XorPolyZero(SelectPoly(q >> 6, 0x46C0));
    hide XorPoly, SelectPoly, PolyMul;
  }

  lemma XorPolyZero(p: bv16)
    ensures XorPoly(p, 0) == p
  {}

  lemma PolyMulStepTo(p: bv16, b: Byte, p': bv16, b': Byte)
    requires p' == ShiftPoly(p) && b' == b >> 1
    ensures PolyMul(p, b) == XorPoly(SelectPoly(b, p), PolyMul(p', b'))
  {}

  lemma ShiftsCompose(q: Byte)
    requires q < 0x80
    ensures (q >> 1) >> 1 == q >> 2 && (q >> 2) >> 1 == q >> 3 && (q >> 3) >> 1 == q >> 4
    ensures (q >> 4) >> 1 == q >> 5 && (q >> 5) >> 1 == q >> 6 && (q >> 6) >> 1 == q >> 7 == 0
  {}

  function SevenTerms(q: Byte): bv16 {
    XorPoly(SelectPoly(q, 0x11B), XorPoly(SelectPoly(q >> 1, 0x236), XorPoly(SelectPoly(q >> 2, 0x46C),
    XorPoly(SelectPoly(q >> 3, 0x8D8), XorPoly(SelectPoly(q >> 4, 0x11B0), XorPoly(SelectPoly(q >> 5, 0x2360),
    SelectPoly(q >> 6, 0x46C0)))))))
  }

  lemma NonZeroMultiple(q: Byte)
    requires q < 0x80
    ensures SevenTerms(q) & 0xFF00 == 0 ==> q == 0
  {}
}
