/** The 32-bit limb buffers of src/curve25519_ref10.c: `fe_add`, `fe_sub`, `fe_mul`, `fe_sq`. */
module FieldElement {
  import opened FieldValue

  newtype int32 = x: int | -0x8000_0000 <= x < 0x8000_0000
  newtype int64 = x: int | -0x8000_0000_0000_0000 <= x < 0x8000_0000_0000_0000

  function LimbsOf(f: seq<int32>): Limbs
    requires |f| == 10
  {
    Limbs(f[0] as int, f[1] as int, f[2] as int, f[3] as int, f[4] as int, f[5] as int, f[6] as int, f[7] as int, f[8] as int, f[9] as int)
  }

  /** Even limbs within e of zero, odd limbs within o. */
  ghost predicate Within(f: Limbs, e: int, o: int) {
    && -e <= f.l0 <= e && -e <= f.l2 <= e && -e <= f.l4 <= e && -e <= f.l6 <= e && -e <= f.l8 <= e
    && -o <= f.l1 <= o && -o <= f.l3 <= o && -o <= f.l5 <= o && -o <= f.l7 <= o && -o <= f.l9 <= o
  }

  /** Legal input of `fe_mul`: 1.65 * 2^26 and 1.65 * 2^25. */
  ghost predicate Loose(f: Limbs) {
    Within(f, 110729625, 55364812)
  }

  /** What `fe_mul` delivers: 1.01 * 2^25 and 1.01 * 2^24. */
  ghost predicate Tight(f: Limbs) {
    Within(f, 33889976, 16944988)
  }

  method FeAdd(h: array<int32>, f: array<int32>, g: array<int32>)
    requires h.Length == f.Length == g.Length == 10
    requires forall i :: 0 <= i < 10 ==> -0x8000_0000 <= f[i] as int + g[i] as int < 0x8000_0000
    modifies h
    ensures LimbsOf(h[..]) == Add(LimbsOf(old(f[..])), LimbsOf(old(g[..])))
  {
    for i := 0 to 10
      invariant forall k :: 0 <= k < i ==> h[k] as int == old(f[k]) as int + old(g[k]) as int
      invariant forall k :: i <= k < 10 ==> f[k] == old(f[k]) && g[k] == old(g[k])
    {
      h[i] := f[i] + g[i];
    }
  }

  method FeSub(h: array<int32>, f: array<int32>, g: array<int32>)
    requires h.Length == f.Length == g.Length == 10
    requires forall i :: 0 <= i < 10 ==> -0x8000_0000 <= f[i] as int - g[i] as int < 0x8000_0000
    modifies h
    ensures LimbsOf(h[..]) == Sub(LimbsOf(old(f[..])), LimbsOf(old(g[..])))
  {
    for i := 0 to 10
      invariant forall k :: 0 <= k < i ==> h[k] as int == old(f[k]) as int - old(g[k]) as int
      invariant forall k :: i <= k < 10 ==> f[k] == old(f[k]) && g[k] == old(g[k])
    {
      h[i] := f[i] - g[i];
    }
  }

  function Sub(f: Limbs, g: Limbs): Limbs {
    Limbs(f.l0 - g.l0, f.l1 - g.l1, f.l2 - g.l2, f.l3 - g.l3, f.l4 - g.l4, f.l5 - g.l5, f.l6 - g.l6, f.l7 - g.l7, f.l8 - g.l8, f.l9 - g.l9)
  }

  /** One addition or subtraction of products is again a legal factor, and its value is the sum or difference. */
  lemma SumOfProductsIsLegal(f: Limbs, g: Limbs)
    requires Tight(f) && Tight(g)
    ensures Loose(Add(f, g)) && Loose(Sub(f, g)) && Loose(f)
    ensures Value(Add(f, g)) == Value(f) + Value(g) && Value(Sub(f, g)) == Value(f) - Value(g)
  {}

  // ---- sums of ten products ----

  const A: int64 := 110729625

  ghost predicate Factors(a: int64, b: int64) {
    -A <= a <= A && -19 * A <= b <= 19 * A
  }

  lemma ProductFits(a: int64, b: int64)
    requires Factors(a, b)
    ensures -19 * 110729625 * 110729625 <= Times(a as int, b as int) <= 19 * 110729625 * 110729625
  {
    ProductBound(a as int, b as int, 110729625, 19 * 110729625);
  }

  lemma ProductBound(x: int, y: int, m: int, n: int)
    requires -m <= x <= m && -n <= y <= n
    ensures -(m * n) <= x * y <= m * n
  {
    assert (m - x) * (n + y) == m * n + m * y - x * n - x * y;
    assert (m + x) * (n - y) == m * n - m * y + x * n - x * y;
    assert (m - x) * (n - y) == m * n - m * y - x * n + x * y;
    assert (m + x) * (n + y) == m * n + m * y + x * n + x * y;
    NonNegative(m - x, n + y);
    NonNegative(m + x, n - y);
    NonNegative(m - x, n - y);
    NonNegative(m + x, n + y);
  }

  lemma NonNegative(a: int, b: int)
    requires a >= 0 && b >= 0
    ensures a * b >= 0
  {}

  /** No product and no partial sum leaves 64 bits. */
  function Dot(a0: int64, b0: int64, a1: int64, b1: int64, a2: int64, b2: int64, a3: int64, b3: int64, a4: int64, b4: int64,
               a5: int64, b5: int64, a6: int64, b6: int64, a7: int64, b7: int64, a8: int64, b8: int64, a9: int64, b9: int64): (r: int64)
    requires Factors(a0, b0) && Factors(a1, b1) && Factors(a2, b2) && Factors(a3, b3) && Factors(a4, b4)
    requires Factors(a5, b5) && Factors(a6, b6) && Factors(a7, b7) && Factors(a8, b8) && Factors(a9, b9)
    ensures -190 * 110729625 * 110729625 <= r as int <= 190 * 110729625 * 110729625
    ensures r as int == Times(a0 as int, b0 as int) + Times(a1 as int, b1 as int) + Times(a2 as int, b2 as int) + Times(a3 as int, b3 as int) + Times(a4 as int, b4 as int) +
      Times(a5 as int, b5 as int) + Times(a6 as int, b6 as int) + Times(a7 as int, b7 as int) + Times(a8 as int, b8 as int) + Times(a9 as int, b9 as int)
  {
    ProductFits(a0, b0);
    ProductFits(a1, b1);
    ProductFits(a2, b2);
    ProductFits(a3, b3);
    ProductFits(a4, b4);
    ProductFits(a5, b5);
    ProductFits(a6, b6);
    ProductFits(a7, b7);
    ProductFits(a8, b8);
    ProductFits(a9, b9);
    a0 * b0 + a1 * b1 + a2 * b2 + a3 * b3 + a4 * b4 + a5 * b5 + a6 * b6 + a7 * b7 + a8 * b8 + a9 * b9
  }

  // ---- carries ----

  /** The carry out of an even limb: the quotient by 2^26, rounded to the nearest. */
  function Carry26(h: int64): (c: int64)
    requires -0x4000_0000_0000_0000 <= h <= 0x4000_0000_0000_0000
    ensures -0x200_0000 <= h as int - c as int * 0x400_0000 <= 0x200_0000
    ensures -0x10_0000_0000 <= c <= 0x10_0000_0000
  {
    (h + 0x200_0000) / 0x400_0000
  }

  /** The carry out of an odd limb: the quotient by 2^25, rounded to the nearest. */
  function Carry25(h: int64): (c: int64)
    requires -0x4000_0000_0000_0000 <= h <= 0x4000_0000_0000_0000
    ensures -0x100_0000 <= h as int - c as int * 0x200_0000 <= 0x100_0000
    ensures -0x20_0000_0000 <= c <= 0x20_0000_0000
  {
    (h + 0x100_0000) / 0x200_0000
  }

  /** Sums of at most 190 products of legal limbs. */
  ghost predicate Raw(h: Limbs) {
    Within(h, 190 * 110729625 * 110729625, 190 * 110729625 * 110729625)
  }

  function Limbs64(h0: int64, h1: int64, h2: int64, h3: int64, h4: int64, h5: int64, h6: int64, h7: int64, h8: int64, h9: int64): Limbs {
    Limbs(h0 as int, h1 as int, h2 as int, h3 as int, h4 as int, h5 as int, h6 as int, h7 as int, h8 as int, h9 as int)
  }

  /** The first half of `fe_mul`: a hundred products in ten sums. */
  method Multiply(f0: int64, f1: int64, f2: int64, f3: int64, f4: int64, f5: int64, f6: int64, f7: int64, f8: int64, f9: int64,
                  g0: int64, g1: int64, g2: int64, g3: int64, g4: int64, g5: int64, g6: int64, g7: int64, g8: int64, g9: int64)
    returns (h0: int64, h1: int64, h2: int64, h3: int64, h4: int64, h5: int64, h6: int64, h7: int64, h8: int64, h9: int64)
    requires Loose(Limbs64(f0, f1, f2, f3, f4, f5, f6, f7, f8, f9)) && Loose(Limbs64(g0, g1, g2, g3, g4, g5, g6, g7, g8, g9))
    ensures Limbs64(h0, h1, h2, h3, h4, h5, h6, h7, h8, h9) == Product(Limbs64(f0, f1, f2, f3, f4, f5, f6, f7, f8, f9), Limbs64(g0, g1, g2, g3, g4, g5, g6, g7, g8, g9))
    ensures Raw(Limbs64(h0, h1, h2, h3, h4, h5, h6, h7, h8, h9))
  {
    hide Times;
    var g1_19 := 19 * g1;
    var g2_19 := 19 * g2;
    var g3_19 := 19 * g3;
    var g4_19 := 19 * g4;
    var g5_19 := 19 * g5;
    var g6_19 := 19 * g6;
    var g7_19 := 19 * g7;
    var g8_19 := 19 * g8;
    var g9_19 := 19 * g9;
    var f1_2 := 2 * f1;
    var f3_2 := 2 * f3;
    var f5_2 := 2 * f5;
    var f7_2 := 2 * f7;
    var f9_2 := 2 * f9;
    h0 := Dot(f0, g0, f1_2, g9_19, f2, g8_19, f3_2, g7_19, f4, g6_19, f5_2, g5_19, f6, g4_19, f7_2, g3_19, f8, g2_19, f9_2, g1_19);
    h1 := Dot(f0, g1, f1, g0, f2, g9_19, f3, g8_19, f4, g7_19, f5, g6_19, f6, g5_19, f7, g4_19, f8, g3_19, f9, g2_19);
    h2 := Dot(f0, g2, f1_2, g1, f2, g0, f3_2, g9_19, f4, g8_19, f5_2, g7_19, f6, g6_19, f7_2, g5_19, f8, g4_19, f9_2, g3_19);
    h3 := Dot(f0, g3, f1, g2, f2, g1, f3, g0, f4, g9_19, f5, g8_19, f6, g7_19, f7, g6_19, f8, g5_19, f9, g4_19);
    h4 := Dot(f0, g4, f1_2, g3, f2, g2, f3_2, g1, f4, g0, f5_2, g9_19, f6, g8_19, f7_2, g7_19, f8, g6_19, f9_2, g5_19);
    h5 := Dot(f0, g5, f1, g4, f2, g3, f3, g2, f4, g1, f5, g0, f6, g9_19, f7, g8_19, f8, g7_19, f9, g6_19);
    h6 := Dot(f0, g6, f1_2, g5, f2, g4, f3_2, g3, f4, g2, f5_2, g1, f6, g0, f7_2, g9_19, f8, g8_19, f9_2, g7_19);
    h7 := Dot(f0, g7, f1, g6, f2, g5, f3, g4, f4, g3, f5, g2, f6, g1, f7, g0, f8, g9_19, f9, g8_19);
    h8 := Dot(f0, g8, f1_2, g7, f2, g6, f3_2, g5, f4, g4, f5_2, g3, f6, g2, f7_2, g1, f8, g0, f9_2, g9_19);
    h9 := Dot(f0, g9, f1, g8, f2, g7, f3, g6, f4, g5, f5, g4, f6, g3, f7, g2, f8, g1, f9, g0);
  }

  /** After the first six carries six limbs are reduced; the other four are a carry above their sums. */
  ghost predicate HalfCarried(h: Limbs) {
    && -0x200_0000 <= h.l0 <= 0x200_0000 && -0x100_0000 <= h.l1 <= 0x100_0000 && -0x200_0000 <= h.l2 <= 0x200_0000
    && -0x200_0000 <= h.l4 <= 0x200_0000 && -0x100_0000 <= h.l5 <= 0x100_0000 && -0x200_0000 <= h.l6 <= 0x200_0000
    && -0x3000_0000_0000_0000 <= h.l3 <= 0x3000_0000_0000_0000 && -0x3000_0000_0000_0000 <= h.l7 <= 0x3000_0000_0000_0000
    && -0x3000_0000_0000_0000 <= h.l8 <= 0x3000_0000_0000_0000 && -0x3000_0000_0000_0000 <= h.l9 <= 0x3000_0000_0000_0000
  }

  /** The first six of the twelve carries of `fe_mul`: they leave the value alone. */
  method CarryLow(i0: int64, i1: int64, i2: int64, i3: int64, i4: int64, i5: int64, i6: int64, i7: int64, i8: int64, i9: int64)
    returns (h0: int64, h1: int64, h2: int64, h3: int64, h4: int64, h5: int64, h6: int64, h7: int64, h8: int64, h9: int64)
    requires Raw(Limbs64(i0, i1, i2, i3, i4, i5, i6, i7, i8, i9))
    ensures HalfCarried(Limbs64(h0, h1, h2, h3, h4, h5, h6, h7, h8, h9))
    ensures Value(Limbs64(h0, h1, h2, h3, h4, h5, h6, h7, h8, h9)) == Value(Limbs64(i0, i1, i2, i3, i4, i5, i6, i7, i8, i9))
  {
    hide Carry25, Carry26;
    h0, h1, h2, h3, h4, h5, h6, h7, h8, h9 := i0, i1, i2, i3, i4, i5, i6, i7, i8, i9;
    var carry0 := Carry26(h0);
    h1 := h1 + carry0;
    h0 := h0 - carry0 * 0x400_0000;
    var carry4 := Carry26(h4);
    h5 := h5 + carry4;
    h4 := h4 - carry4 * 0x400_0000;
    var carry1 := Carry25(h1);
    h2 := h2 + carry1;
    h1 := h1 - carry1 * 0x200_0000;
    var carry5 := Carry25(h5);
    h6 := h6 + carry5;
    h5 := h5 - carry5 * 0x200_0000;
    var carry2 := Carry26(h2);
    h3 := h3 + carry2;
    h2 := h2 - carry2 * 0x400_0000;
    var carry6 := Carry26(h6);
    h7 := h7 + carry6;
    h6 := h6 - carry6 * 0x400_0000;
  }

  /** The last six: the fifth of them wraps round with a factor of 19, which takes away a multiple of 2^255 - 19. */
  method CarryHigh(i0: int64, i1: int64, i2: int64, i3: int64, i4: int64, i5: int64, i6: int64, i7: int64, i8: int64, i9: int64)
    returns (h0: int64, h1: int64, h2: int64, h3: int64, h4: int64, h5: int64, h6: int64, h7: int64, h8: int64, h9: int64, ghost wrapped: int)
    requires HalfCarried(Limbs64(i0, i1, i2, i3, i4, i5, i6, i7, i8, i9))
    ensures Tight(Limbs64(h0, h1, h2, h3, h4, h5, h6, h7, h8, h9))
    ensures Value(Limbs64(h0, h1, h2, h3, h4, h5, h6, h7, h8, h9)) == Value(Limbs64(i0, i1, i2, i3, i4, i5, i6, i7, i8, i9)) - P * wrapped
  {
    hide Carry25, Carry26;
    h0, h1, h2, h3, h4, h5, h6, h7, h8, h9 := i0, i1, i2, i3, i4, i5, i6, i7, i8, i9;
    var carry3 := Carry25(h3);
    h4 := h4 + carry3;
    h3 := h3 - carry3 * 0x200_0000;
    var carry7 := Carry25(h7);
    h8 := h8 + carry7;
    h7 := h7 - carry7 * 0x200_0000;
    var carry4 := Carry26(h4);
    h5 := h5 + carry4;
    h4 := h4 - carry4 * 0x400_0000;
    var carry8 := Carry26(h8);
    h9 := h9 + carry8;
    h8 := h8 - carry8 * 0x400_0000;
    var carry9 := Carry25(h9);
    h0 := h0 + carry9 * 19;
    h9 := h9 - carry9 * 0x200_0000;
    var carry0 := Carry26(h0);
    h1 := h1 + carry0;
    h0 := h0 - carry0 * 0x400_0000;
    wrapped := carry9 as int;
  }

  /** `fe_mul`; the three buffers may be one and the same. */
  method FeMul(h: array<int32>, f: array<int32>, g: array<int32>)
    requires h.Length == f.Length == g.Length == 10
    requires Loose(LimbsOf(f[..])) && Loose(LimbsOf(g[..]))
    modifies h
    ensures Tight(LimbsOf(h[..]))
    ensures Congruent(Value(LimbsOf(h[..])), Value(LimbsOf(old(f[..]))) * Value(LimbsOf(old(g[..]))))
  {
    hide Value, Product;
    ghost var fl, gl := LimbsOf(f[..]), LimbsOf(g[..]);
    var f0, f1, f2, f3, f4, f5, f6, f7, f8, f9 :=
      f[0] as int64, f[1] as int64, f[2] as int64, f[3] as int64, f[4] as int64, f[5] as int64, f[6] as int64, f[7] as int64, f[8] as int64, f[9] as int64;
    var g0, g1, g2, g3, g4, g5, g6, g7, g8, g9 :=
      g[0] as int64, g[1] as int64, g[2] as int64, g[3] as int64, g[4] as int64, g[5] as int64, g[6] as int64, g[7] as int64, g[8] as int64, g[9] as int64;
    var h0, h1, h2, h3, h4, h5, h6, h7, h8, h9 := Multiply(f0, f1, f2, f3, f4, f5, f6, f7, f8, f9, g0, g1, g2, g3, g4, g5, g6, g7, g8, g9);
    ghost var raw := Limbs64(h0, h1, h2, h3, h4, h5, h6, h7, h8, h9);
    ghost var wrapped;
    h0, h1, h2, h3, h4, h5, h6, h7, h8, h9 := CarryLow(h0, h1, h2, h3, h4, h5, h6, h7, h8, h9);
    h0, h1, h2, h3, h4, h5, h6, h7, h8, h9, wrapped := CarryHigh(h0, h1, h2, h3, h4, h5, h6, h7, h8, h9);
    h[0] := h0 as int32;
    h[1] := h1 as int32;
    h[2] := h2 as int32;
    h[3] := h3 as int32;
    h[4] := h4 as int32;
    h[5] := h5 as int32;
    h[6] := h6 as int32;
    h[7] := h7 as int32;
    h[8] := h8 as int32;
    h[9] := h9 as int32;
    assert LimbsOf(h[..]) == Limbs64(h0, h1, h2, h3, h4, h5, h6, h7, h8, h9);
    ProductValue(fl, gl);
    CongruentMinus(Value(raw), Value(fl) * Value(gl), wrapped);
  }

  /** `fe_sq` */
  method FeSq(h: array<int32>, f: array<int32>)
    requires h.Length == f.Length == 10 && Loose(LimbsOf(f[..]))
    modifies h
    ensures Tight(LimbsOf(h[..]))
    ensures Congruent(Value(LimbsOf(h[..])), Value(LimbsOf(old(f[..]))) * Value(LimbsOf(old(f[..]))))
  {
    FeMul(h, f, f);
  }

  lemma CongruentMinus(a: int, b: int, k: int)
    requires Congruent(a, b)
    ensures Congruent(a - P * k, b)
  {
    var m :| a == b + P * m;
    CongruentBy(a - P * k, b, m - k);
  }
}
