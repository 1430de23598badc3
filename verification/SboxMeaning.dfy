/** What the table of src/simple_aes.c is: inversion in the field of 256 elements, then an affine map (section 5.1.1 of FIPS 197). */
module SboxMeaning {
  import opened Bytes
  import opened Gf256
  import opened AesTables

  /** Bit i of the result is the sum of bits i, i + 4, i + 5, i + 6, i + 7 modulo 8 and of bit i of 0x63. */
  function Affine(b: Byte): Byte {
    b ^ ((b << 1) | (b >> 7)) ^ ((b << 2) | (b >> 6)) ^ ((b << 3) | (b >> 5)) ^ ((b << 4) | (b >> 4)) ^ 0x63
  }

  function InvAffine(s: Byte): Byte {
    ((s << 1) | (s >> 7)) ^ ((s << 3) | (s >> 5)) ^ ((s << 6) | (s >> 2)) ^ 0x05
  }

  lemma AffineUndone(b: Byte)
    ensures Affine(InvAffine(b)) == b && InvAffine(Affine(b)) == b
  {}

  /** The inverse in the field, read off the table; 0 stands for its own inverse. */
  function Inverse(x: Byte): Byte {
    InvAffine(Sbox(x))
  }

  /** x and its seven doubles. */
  predicate Doubles(x: Byte, x1: Byte, x2: Byte, x3: Byte, x4: Byte, x5: Byte, x6: Byte, x7: Byte) {
    x1 == Xtime(x) && x2 == Xtime(x1) && x3 == Xtime(x2) && x4 == Xtime(x3) && x5 == Xtime(x4) && x6 == Xtime(x5) && x7 == Xtime(x6)
  }

  /** The doubles of x that the bits of y select add up to z. */
  predicate AddUp(y: Byte, z: Byte, x: Byte, x1: Byte, x2: Byte, x3: Byte, x4: Byte, x5: Byte, x6: Byte, x7: Byte) {
    Xor(Select(y, x), Xor(Select(y >> 1, x1), Xor(Select(y >> 2, x2), Xor(Select(y >> 3, x3),
    Xor(Select(y >> 4, x4), Xor(Select(y >> 5, x5), Xor(Select(y >> 6, x6), Select(y >> 7, x7)))))))) == z
  }

  lemma FirstQuarter(x: Byte, x1: Byte, x2: Byte, x3: Byte, x4: Byte, x5: Byte, x6: Byte, x7: Byte)
    requires x >> 6 == 0 && x != 0 && Doubles(x, x1, x2, x3, x4, x5, x6, x7)
    ensures AddUp(Inverse(x), 1, x, x1, x2, x3, x4, x5, x6, x7)
  {}

  lemma SecondQuarter(x: Byte, x1: Byte, x2: Byte, x3: Byte, x4: Byte, x5: Byte, x6: Byte, x7: Byte)
    requires x >> 6 == 1 && Doubles(x, x1, x2, x3, x4, x5, x6, x7)
    ensures AddUp(Inverse(x), 1, x, x1, x2, x3, x4, x5, x6, x7)
  {}

  lemma ThirdQuarter(x: Byte, x1: Byte, x2: Byte, x3: Byte, x4: Byte, x5: Byte, x6: Byte, x7: Byte)
    requires x >> 6 == 2 && Doubles(x, x1, x2, x3, x4, x5, x6, x7)
    ensures AddUp(Inverse(x), 1, x, x1, x2, x3, x4, x5, x6, x7)
  {}

  lemma LastQuarter(x: Byte, x1: Byte, x2: Byte, x3: Byte, x4: Byte, x5: Byte, x6: Byte, x7: Byte)
    requires x >> 6 == 3 && Doubles(x, x1, x2, x3, x4, x5, x6, x7)
    ensures AddUp(Inverse(x), 1, x, x1, x2, x3, x4, x5, x6, x7)
  {}

  lemma Unrolled(x: Byte, y: Byte, x1: Byte, x2: Byte, x3: Byte, x4: Byte, x5: Byte, x6: Byte, x7: Byte)
    requires Doubles(x, x1, x2, x3, x4, x5, x6, x7)
    ensures AddUp(y, GfMul(x, y), x, x1, x2, x3, x4, x5, x6, x7)
  {
    hide GfMul, Select, Xtime, Xor;
    var x8 := Xtime(x7);
    Shifts(y);
    GfMulStep(x, y);
    GfMulStep(x1, y >> 1);
    GfMulStep(x2, y >> 2);
    GfMulStep(x3, y >> 3);
    GfMulStep(x4, y >> 4);
    GfMulStep(x5, y >> 5);
    GfMulStep(x6, y >> 6);
    GfMulStep(x7, y >> 7);
    ProductOfNothing(x8);
    XorZero(Select(y >> 7, x7));
  }

  lemma ProductOfNothing(x: Byte)
    ensures GfMul(x, 0) == 0
  {}

  lemma Shifts(y: Byte)
    ensures (y >> 1) >> 1 == y >> 2 && (y >> 2) >> 1 == y >> 3 && (y >> 3) >> 1 == y >> 4 && (y >> 4) >> 1 == y >> 5
    ensures (y >> 5) >> 1 == y >> 6 && (y >> 6) >> 1 == y >> 7 && (y >> 7) >> 1 == 0
  {}

  lemma ZeroInverse()
    ensures Inverse(0) == 0
  {}

  /** Section 5.1.1 of FIPS 197. */
  lemma SboxIsAffineInverse(x: Byte)
    ensures Sbox(x) == Affine(Inverse(x))
    ensures x == 0 ==> Inverse(x) == 0
    ensures x != 0 ==> GfMul(x, Inverse(x)) == 1
  {
    hide GfMul, Xor, Select, Xtime, Sbox, Affine, InvAffine;
    AffineUndone(Sbox(x));
    ZeroInverse();
    if x != 0 {
      InverseMultiplies(x);
    }
  }

  lemma InverseMultiplies(x: Byte)
    requires x != 0
    ensures GfMul(x, Inverse(x)) == 1
  {
    hide GfMul, Inverse, Xtime, AddUp;
    var x1 := Xtime(x);
    var x2 := Xtime(x1);
    var x3 := Xtime(x2);
    var x4 := Xtime(x3);
    var x5 := Xtime(x4);
    var x6 := Xtime(x5);
    var x7 := Xtime(x6);
    Unrolled(x, Inverse(x), x1, x2, x3, x4, x5, x6, x7);
    FourQuarters(x);
    if x >> 6 == 0 {
      FirstQuarter(x, x1, x2, x3, x4, x5, x6, x7);
    } else if x >> 6 == 1 {
      SecondQuarter(x, x1, x2, x3, x4, x5, x6, x7);
    } else if x >> 6 == 2 {
      ThirdQuarter(x, x1, x2, x3, x4, x5, x6, x7);
    } else {
      LastQuarter(x, x1, x2, x3, x4, x5, x6, x7);
    }
    OneSum(Inverse(x), GfMul(x, Inverse(x)), 1, x, x1, x2, x3, x4, x5, x6, x7);
  }

  lemma OneSum(y: Byte, z: Byte, z': Byte, x: Byte, x1: Byte, x2: Byte, x3: Byte, x4: Byte, x5: Byte, x6: Byte, x7: Byte)
    requires AddUp(y, z, x, x1, x2, x3, x4, x5, x6, x7) && AddUp(y, z', x, x1, x2, x3, x4, x5, x6, x7)
    ensures z == z'
  {
    hide Xor, Select;
  }
}
