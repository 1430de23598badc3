/** The limb arithmetic of src/curve25519_ref10.c on unbounded integers, and its value modulo 2^255 - 19. */
module FieldValue {

  /** 2^255 - 19 */
  const P: nat := 0x7fffffff_ffffffff_ffffffff_ffffffff_ffffffff_ffffffff_ffffffff_ffffffed

  /** Ten signed limbs; the weight of limb i is 2 to the power 25.5 * i, rounded up. */
  datatype Limbs = Limbs(l0: int, l1: int, l2: int, l3: int, l4: int, l5: int, l6: int, l7: int, l8: int, l9: int)

  const W1: nat := 0x400_0000
  const W2: nat := 0x8_0000_0000_0000

  function Value(f: Limbs): int {
    f.l0 + W1 * f.l1 + W2 * (f.l2 + W1 * f.l3 + W2 * (f.l4 + W1 * f.l5 + W2 * (f.l6 + W1 * f.l7 + W2 * (f.l8 + W1 * f.l9))))
  }

  ghost predicate Congruent(a: int, b: int) {
    exists k: int :: a == b + P * k
  }

  lemma CongruentBy(a: int, b: int, k: int)
    requires a == b + P * k
    ensures Congruent(a, b)
  {}

  function Add(f: Limbs, g: Limbs): Limbs {
    Limbs(f.l0 + g.l0, f.l1 + g.l1, f.l2 + g.l2, f.l3 + g.l3, f.l4 + g.l4, f.l5 + g.l5, f.l6 + g.l6, f.l7 + g.l7, f.l8 + g.l8, f.l9 + g.l9)
  }

  /** Multiplication, under a name: what follows is linear in these products. */
  function Times(a: int, b: int): int {
    a * b
  }

  function Scaled(x: int, g: Limbs): Limbs {
    Limbs(Times(x, g.l0), Times(x, g.l1), Times(x, g.l2), Times(x, g.l3), Times(x, g.l4),
          Times(x, g.l5), Times(x, g.l6), Times(x, g.l7), Times(x, g.l8), Times(x, g.l9))
  }

  /** The ten sums of ten products that `fe_mul` forms before it carries. */
  function Product(f: Limbs, g: Limbs): Limbs {
    Limbs(
      Times(f.l0, g.l0) + Times(2 * f.l1, 19 * g.l9) + Times(f.l2, 19 * g.l8) + Times(2 * f.l3, 19 * g.l7) + Times(f.l4, 19 * g.l6) +
      Times(2 * f.l5, 19 * g.l5) + Times(f.l6, 19 * g.l4) + Times(2 * f.l7, 19 * g.l3) + Times(f.l8, 19 * g.l2) + Times(2 * f.l9, 19 * g.l1),
      Times(f.l0, g.l1) + Times(f.l1, g.l0) + Times(f.l2, 19 * g.l9) + Times(f.l3, 19 * g.l8) + Times(f.l4, 19 * g.l7) +
      Times(f.l5, 19 * g.l6) + Times(f.l6, 19 * g.l5) + Times(f.l7, 19 * g.l4) + Times(f.l8, 19 * g.l3) + Times(f.l9, 19 * g.l2),
      Times(f.l0, g.l2) + Times(2 * f.l1, g.l1) + Times(f.l2, g.l0) + Times(2 * f.l3, 19 * g.l9) + Times(f.l4, 19 * g.l8) +
      Times(2 * f.l5, 19 * g.l7) + Times(f.l6, 19 * g.l6) + Times(2 * f.l7, 19 * g.l5) + Times(f.l8, 19 * g.l4) + Times(2 * f.l9, 19 * g.l3),
      Times(f.l0, g.l3) + Times(f.l1, g.l2) + Times(f.l2, g.l1) + Times(f.l3, g.l0) + Times(f.l4, 19 * g.l9) +
      Times(f.l5, 19 * g.l8) + Times(f.l6, 19 * g.l7) + Times(f.l7, 19 * g.l6) + Times(f.l8, 19 * g.l5) + Times(f.l9, 19 * g.l4),
      Times(f.l0, g.l4) + Times(2 * f.l1, g.l3) + Times(f.l2, g.l2) + Times(2 * f.l3, g.l1) + Times(f.l4, g.l0) +
      Times(2 * f.l5, 19 * g.l9) + Times(f.l6, 19 * g.l8) + Times(2 * f.l7, 19 * g.l7) + Times(f.l8, 19 * g.l6) + Times(2 * f.l9, 19 * g.l5),
      Times(f.l0, g.l5) + Times(f.l1, g.l4) + Times(f.l2, g.l3) + Times(f.l3, g.l2) + Times(f.l4, g.l1) +
      Times(f.l5, g.l0) + Times(f.l6, 19 * g.l9) + Times(f.l7, 19 * g.l8) + Times(f.l8, 19 * g.l7) + Times(f.l9, 19 * g.l6),
      Times(f.l0, g.l6) + Times(2 * f.l1, g.l5) + Times(f.l2, g.l4) + Times(2 * f.l3, g.l3) + Times(f.l4, g.l2) +
      Times(2 * f.l5, g.l1) + Times(f.l6, g.l0) + Times(2 * f.l7, 19 * g.l9) + Times(f.l8, 19 * g.l8) + Times(2 * f.l9, 19 * g.l7),
      Times(f.l0, g.l7) + Times(f.l1, g.l6) + Times(f.l2, g.l5) + Times(f.l3, g.l4) + Times(f.l4, g.l3) +
      Times(f.l5, g.l2) + Times(f.l6, g.l1) + Times(f.l7, g.l0) + Times(f.l8, 19 * g.l9) + Times(f.l9, 19 * g.l8),
      Times(f.l0, g.l8) + Times(2 * f.l1, g.l7) + Times(f.l2, g.l6) + Times(2 * f.l3, g.l5) + Times(f.l4, g.l4) +
      Times(2 * f.l5, g.l3) + Times(f.l6, g.l2) + Times(2 * f.l7, g.l1) + Times(f.l8, g.l0) + Times(2 * f.l9, 19 * g.l9),
      Times(f.l0, g.l9) + Times(f.l1, g.l8) + Times(f.l2, g.l7) + Times(f.l3, g.l6) + Times(f.l4, g.l5) +
      Times(f.l5, g.l4) + Times(f.l6, g.l3) + Times(f.l7, g.l2) + Times(f.l8, g.l1) + Times(f.l9, g.l0))
  }

  // ---- the product of the values ----

  /** Multiplication by the weight of limb 1: odd limbs double, the top one wraps round. */
  function TimesW1(g: Limbs): Limbs {
    Limbs(38 * g.l9, g.l0, 2 * g.l1, g.l2, 2 * g.l3, g.l4, 2 * g.l5, g.l6, 2 * g.l7, g.l8)
  }

  /** Multiplication by the weight of limb 2: two limbs up, with 19 for 2^255. */
  function TimesW2(g: Limbs): Limbs {
    Limbs(19 * g.l8, 19 * g.l9, g.l0, g.l1, g.l2, g.l3, g.l4, g.l5, g.l6, g.l7)
  }

  /** Two limbs x and y of one factor times the other factor. */
  function Pair(x: int, y: int, g: Limbs): Limbs {
    Add(Scaled(x, g), TimesW1(Scaled(y, g)))
  }

  /** The product by Horner's rule in the weight of limb 2. */
  function Horner(f: Limbs, g: Limbs): Limbs {
    Add(Pair(f.l0, f.l1, g), TimesW2(Add(Pair(f.l2, f.l3, g), TimesW2(Add(Pair(f.l4, f.l5, g),
      TimesW2(Add(Pair(f.l6, f.l7, g), TimesW2(Pair(f.l8, f.l9, g)))))))))
  }

  lemma TimesW1Value(g: Limbs)
    ensures Value(TimesW1(g)) == W1 * Value(g) + P * (-2 * g.l9)
  {}

  lemma TimesW2Value(g: Limbs)
    ensures Value(TimesW2(g)) == W2 * Value(g) + P * (-g.l8 - W1 * g.l9)
  {}

  lemma AddValue(f: Limbs, g: Limbs)
    ensures Value(Add(f, g)) == Value(f) + Value(g)
  {}

  lemma ScaledValue(x: int, g: Limbs)
    ensures Value(Scaled(x, g)) == x * Value(g)
  {}

  lemma PairValue(x: int, y: int, g: Limbs) returns (k: int)
    ensures Value(Pair(x, y, g)) == (x + W1 * y) * Value(g) + P * k
  {
    hide Value, Add, Scaled, TimesW1;
    var s := Scaled(y, g);
    AddValue(Scaled(x, g), TimesW1(s));
    ScaledValue(x, g);
    ScaledValue(y, g);
    TimesW1Value(s);
    k := -2 * s.l9;
    assert (x + W1 * y) * Value(g) == x * Value(g) + W1 * (y * Value(g));
  }

  lemma HornerStep(a: Limbs, b: Limbs, va: int, vb: int, v: int, ka: int, kb: int) returns (k: int)
    requires Value(a) == va * v + P * ka && Value(b) == vb * v + P * kb
    ensures Value(Add(a, TimesW2(b))) == (va + W2 * vb) * v + P * k
  {
    hide Value, Add, TimesW2;
    AddValue(a, TimesW2(b));
    TimesW2Value(b);
    k := ka + W2 * kb - b.l8 - W1 * b.l9;
    assert (va + W2 * vb) * v == va * v + W2 * (vb * v);
  }

  lemma HornerValue(f: Limbs, g: Limbs) returns (k: int)
    ensures Value(Horner(f, g)) == Value(f) * Value(g) + P * k
  {
    hide Add, TimesW2, Pair;
    var v := Value(g);
    var k0 := PairValue(f.l0, f.l1, g);
    var k2 := PairValue(f.l2, f.l3, g);
    var k4 := PairValue(f.l4, f.l5, g);
    var k6 := PairValue(f.l6, f.l7, g);
    var k8 := PairValue(f.l8, f.l9, g);
    var h8 := Pair(f.l8, f.l9, g);
    var v8 := f.l8 + W1 * f.l9;
    k := HornerStep(Pair(f.l6, f.l7, g), h8, f.l6 + W1 * f.l7, v8, v, k6, k8);
    var h6 := Add(Pair(f.l6, f.l7, g), TimesW2(h8));
    var v6 := f.l6 + W1 * f.l7 + W2 * v8;
    k := HornerStep(Pair(f.l4, f.l5, g), h6, f.l4 + W1 * f.l5, v6, v, k4, k);
    var h4 := Add(Pair(f.l4, f.l5, g), TimesW2(h6));
    var v4 := f.l4 + W1 * f.l5 + W2 * v6;
    k := HornerStep(Pair(f.l2, f.l3, g), h4, f.l2 + W1 * f.l3, v4, v, k2, k);
    var h2 := Add(Pair(f.l2, f.l3, g), TimesW2(h4));
    var v2 := f.l2 + W1 * f.l3 + W2 * v4;
    k := HornerStep(Pair(f.l0, f.l1, g), h2, f.l0 + W1 * f.l1, v2, v, k0, k);
  }

  /** Constant factors move out of the products that limb x of the first factor takes part in. */
  lemma ConstantsOut(x: int, g: Limbs)
    ensures Times(x, 19 * g.l1) == 19 * Times(x, g.l1) && Times(x, 19 * g.l2) == 19 * Times(x, g.l2) && Times(x, 19 * g.l3) == 19 * Times(x, g.l3)
    ensures Times(x, 19 * g.l4) == 19 * Times(x, g.l4) && Times(x, 19 * g.l5) == 19 * Times(x, g.l5) && Times(x, 19 * g.l6) == 19 * Times(x, g.l6)
    ensures Times(x, 19 * g.l7) == 19 * Times(x, g.l7) && Times(x, 19 * g.l8) == 19 * Times(x, g.l8) && Times(x, 19 * g.l9) == 19 * Times(x, g.l9)
    ensures Times(2 * x, g.l1) == 2 * Times(x, g.l1) && Times(2 * x, g.l3) == 2 * Times(x, g.l3) && Times(2 * x, g.l5) == 2 * Times(x, g.l5)
    ensures Times(2 * x, g.l7) == 2 * Times(x, g.l7)
    ensures Times(2 * x, 19 * g.l1) == 38 * Times(x, g.l1) && Times(2 * x, 19 * g.l3) == 38 * Times(x, g.l3) && Times(2 * x, 19 * g.l5) == 38 * Times(x, g.l5)
    ensures Times(2 * x, 19 * g.l7) == 38 * Times(x, g.l7) && Times(2 * x, 19 * g.l9) == 38 * Times(x, g.l9)
  {}

  lemma HornerIsProduct(f: Limbs, g: Limbs)
    ensures Horner(f, g) == Product(f, g)
  {
    hide Times;
    ConstantsOut(f.l0, g);
    ConstantsOut(f.l1, g);
    ConstantsOut(f.l2, g);
    ConstantsOut(f.l3, g);
    ConstantsOut(f.l4, g);
    ConstantsOut(f.l5, g);
    ConstantsOut(f.l6, g);
    ConstantsOut(f.l7, g);
    ConstantsOut(f.l8, g);
    ConstantsOut(f.l9, g);
  }

  /** The ten sums stand for the product of the two values modulo 2^255 - 19. */
  lemma ProductValue(f: Limbs, g: Limbs)
    ensures Congruent(Value(Product(f, g)), Value(f) * Value(g))
  {
    hide Value, Product, Horner;
    var k := HornerValue(f, g);
    HornerIsProduct(f, g);
    CongruentBy(Value(Product(f, g)), Value(f) * Value(g), k);
  }
}
