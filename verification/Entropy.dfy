/** The pseudo-entropy source and the initialisation vectors of src/app_crypto.c, as functions of the generator's state. */
module Entropy {
  import opened Bytes
  import opened Arith
  import Lcg

  const MULTIPLIER: nat := 1664525
  const INCREMENT: nat := 1013904223

  /** One draw moves the shared state one step along its orbit. */
  function NextState(x: Word): Word {
    Lcg.Step(MULTIPLIER, INCREMENT, WORD, x)
  }

  /** The state after n draws. */
  function StateAfter(x: Word, n: nat): Word {
    if n == 0 then x else NextState(StateAfter(x, n - 1))
  }

  // ---- the xorshift mix ----

  /** The bit pattern of a `uint32_t`. */
  function Bits(n: Word): bv32 {
    var b := BigEndian(n);
    Assembled(b[0], b[1], b[2], b[3])
  }

  function Assembled(b0: Byte, b1: Byte, b2: Byte, b3: Byte): bv32 {
    ((b0 as bv32) << 24) | ((b1 as bv32) << 16) | ((b2 as bv32) << 8) | (b3 as bv32)
  }

  function FoldLeft13(v: bv32): bv32 {
    v ^ (v << 13)
  }

  function FoldRight17(v: bv32): bv32 {
    v ^ (v >> 17)
  }

  function FoldLeft5(v: bv32): bv32 {
    v ^ (v << 5)
  }

  function Mix(v: bv32): bv32 {
    FoldLeft5(FoldRight17(FoldLeft13(v)))
  }

  function UnfoldLeft13(v: bv32): bv32 {
    v ^ (v << 13) ^ (v << 26)
  }

  function UnfoldLeft5(v: bv32): bv32 {
    v ^ (v << 5) ^ (v << 10) ^ (v << 15) ^ (v << 20) ^ (v << 25) ^ (v << 30)
  }

  function Unmix(v: bv32): bv32 {
    UnfoldLeft13(FoldRight17(UnfoldLeft5(v)))
  }

  /** The mix is a bijection on 32-bit values. */
  lemma MixUndone(v: bv32)
    ensures Unmix(Mix(v)) == v && Mix(Unmix(v)) == v
  {
    hide FoldLeft13, FoldRight17, FoldLeft5, UnfoldLeft13, UnfoldLeft5;
    FoldLeft13Undone(v);
    FoldRight17Undone(FoldLeft13(v));
    FoldLeft5Undone(FoldRight17(FoldLeft13(v)));
    FoldLeft5Undone(v);
    FoldRight17Undone(UnfoldLeft5(v));
    FoldLeft13Undone(FoldRight17(UnfoldLeft5(v)));
  }

  lemma FoldLeft13Undone(v: bv32)
    ensures UnfoldLeft13(FoldLeft13(v)) == v && FoldLeft13(UnfoldLeft13(v)) == v
  {
    FoldLeft13Expanded(v);
    FoldLeft13Collapses(v);
    hide FoldLeft13, UnfoldLeft13;
  }

  lemma FoldLeft13Expanded(v: bv32)
    ensures FoldLeft13(v) == v ^ (v << 13) && UnfoldLeft13(v) == v ^ (v << 13) ^ (v << 26)
  {}

  lemma FoldLeft13Collapses(v: bv32)
    ensures UnfoldLeft13(v ^ (v << 13)) == v && FoldLeft13(v ^ (v << 13) ^ (v << 26)) == v
  {}

  lemma FoldLeft5Undone(v: bv32)
    ensures UnfoldLeft5(FoldLeft5(v)) == v && FoldLeft5(UnfoldLeft5(v)) == v
  {
    FoldLeft5Expanded(v);
    FoldLeft5Collapses(v);
    hide FoldLeft5, UnfoldLeft5;
  }

  lemma FoldLeft5Expanded(v: bv32)
    ensures FoldLeft5(v) == v ^ (v << 5) && UnfoldLeft5(v) == v ^ (v << 5) ^ (v << 10) ^ (v << 15) ^ (v << 20) ^ (v << 25) ^ (v << 30)
  {}

  lemma FoldLeft5Collapses(v: bv32)
    ensures UnfoldLeft5(v ^ (v << 5)) == v && FoldLeft5(v ^ (v << 5) ^ (v << 10) ^ (v << 15) ^ (v << 20) ^ (v << 25) ^ (v << 30)) == v
  {}

  lemma FoldRight17Undone(v: bv32)
    ensures FoldRight17(FoldRight17(v)) == v
  {
    FoldRight17Collapses(v);
    hide FoldRight17;
  }

  lemma FoldRight17Collapses(v: bv32)
    ensures FoldRight17(v) == v ^ (v >> 17) && FoldRight17(v ^ (v >> 17)) == v
  {}

  /** A 32-bit value as it lies in the memory of a little-endian machine. */
  function InMemory(v: bv32): (s: seq<Byte>)
    ensures |s| == 4
  {
    [(v & 0xff) as Byte, ((v >> 8) & 0xff) as Byte, ((v >> 16) & 0xff) as Byte, ((v >> 24) & 0xff) as Byte]
  }

  lemma InMemoryIsInjective(v: bv32, w: bv32)
    requires InMemory(v) == InMemory(w)
    ensures v == w
  {
    BytesOfWord(v, w);
    assert forall k :: 0 <= k < 4 ==> InMemory(v)[k] == InMemory(w)[k];
  }

  lemma BytesOfWord(v: bv32, w: bv32)
    requires (v & 0xff) as Byte == (w & 0xff) as Byte
    requires ((v >> 8) & 0xff) as Byte == ((w >> 8) & 0xff) as Byte
    requires ((v >> 16) & 0xff) as Byte == ((w >> 16) & 0xff) as Byte
    requires ((v >> 24) & 0xff) as Byte == ((w >> 24) & 0xff) as Byte
    ensures v == w
  {}

  lemma BitsIsInjective(m: Word, n: Word)
    requires Bits(m) == Bits(n)
    ensures m == n
  {
    hide BigEndian, BigEndianValue, Assembled;
    BigEndianRoundTrip(m);
    BigEndianRoundTrip(n);
    var b, c := BigEndian(m), BigEndian(n);
    AssembledIsInjective(b[0], b[1], b[2], b[3], c[0], c[1], c[2], c[3]);
    assert b == c;
  }

  lemma AssembledIsInjective(b0: Byte, b1: Byte, b2: Byte, b3: Byte, c0: Byte, c1: Byte, c2: Byte, c3: Byte)
    requires Assembled(b0, b1, b2, b3) == Assembled(c0, c1, c2, c3)
    ensures b0 == c0 && b1 == c1 && b2 == c2 && b3 == c3
  {}

  /** The four bytes that a draw hands out when it has moved the state to x. */
  function Drawn(x: Word): (s: seq<Byte>)
    ensures |s| == 4
  {
    InMemory(Mix(Bits(x)))
  }

  lemma DrawnIsInjective(x: Word, y: Word)
    requires Drawn(x) == Drawn(y)
    ensures x == y
  {
    hide Mix, Unmix, Bits;
    InMemoryIsInjective(Mix(Bits(x)), Mix(Bits(y)));
    MixUndone(Bits(x));
    MixUndone(Bits(y));
    BitsIsInjective(x, y);
  }

  // ---- initialisation vectors ----

  type Iv = s: seq<Byte> | |s| == 12 witness seq(12, _ => 0)

  /** Three draws, the seed, and the call counter in the last four bytes. */
  function MakeIv(seed: Iv, x1: Word, x2: Word, x3: Word, ctr: Word): Iv {
    XorSeq(XorSeq(Drawn(x1) + Drawn(x2) + Drawn(x3), seed), [0, 0, 0, 0, 0, 0, 0, 0] + BigEndian(ctr))
  }

  /** The vector of the i-th call of `generate_iv`, counted from state x and call counter ctr. */
  function IvOfCall(seed: Iv, x: Word, ctr: Word, i: nat): Iv {
    MakeIv(seed, StateAfter(x, 3 * i + 1), StateAfter(x, 3 * i + 2), StateAfter(x, 3 * i + 3), (ctr + i) % WORD)
  }

  lemma OuterXorsCancel(a: Byte, b: Byte, c: Byte, d: Byte)
    ensures Xor(Xor(Xor(a, b), c), Xor(Xor(a, d), c)) == Xor(b, d)
  {
    XorNative(a, b, c, d);
    hide Xor;
    XorSwap(Xor(a, b), c, Xor(a, d), c);
    XorSwap(a, b, a, d);
  }

  lemma XorNative(a: Byte, b: Byte, c: Byte, d: Byte)
    ensures Xor(a, a) == 0 && Xor(c, c) == 0
    ensures Xor(0, Xor(b, d)) == Xor(b, d) && Xor(Xor(b, d), 0) == Xor(b, d)
  {}

  lemma InnerXorsCancel(a: Byte, c: Byte, d: Byte)
    ensures Xor(Xor(a, c), Xor(a, d)) == Xor(c, d)
  {
    XorNative(a, c, a, d);
    hide Xor;
    XorSwap(a, c, a, d);
  }

  lemma XorZero(a: Byte)
    ensures Xor(Xor(a, 0), 0) == a
  {}

  /** Byte k of the counter's part: the first eight bytes are spared. */
  function CounterByte(ctr: Word, k: nat): Byte
    requires k < 12
  {
    if k < 8 then 0 else BigEndian(ctr)[k - 8]
  }

  lemma VectorByte(seed: Iv, x1: Word, x2: Word, x3: Word, ctr: Word, k: nat)
    requires k < 12
    ensures MakeIv(seed, x1, x2, x3, ctr)[k] ==
      Xor(Xor((if k < 4 then Drawn(x1)[k] else if k < 8 then Drawn(x2)[k - 4] else Drawn(x3)[k - 8]), seed[k]), CounterByte(ctr, k))
  {
    hide Drawn, BigEndian, Xor;
  }

  /** With equal draws and counters two seeds give vectors that differ by exactly what the seeds differ by. */
  lemma SeedIsXored(seed: Iv, seed': Iv, x1: Word, x2: Word, x3: Word, ctr: Word)
    ensures XorSeq(MakeIv(seed, x1, x2, x3, ctr), MakeIv(seed', x1, x2, x3, ctr)) == XorSeq(seed, seed')
  {
    hide Drawn, BigEndian, Xor, MakeIv, CounterByte;
    forall k | 0 <= k < 12
      ensures Xor(MakeIv(seed, x1, x2, x3, ctr)[k], MakeIv(seed', x1, x2, x3, ctr)[k]) == Xor(seed[k], seed'[k])
    {
      VectorByte(seed, x1, x2, x3, ctr, k);
      VectorByte(seed', x1, x2, x3, ctr, k);
      var draw := if k < 4 then Drawn(x1)[k] else if k < 8 then Drawn(x2)[k - 4] else Drawn(x3)[k - 8];
      OuterXorsCancel(draw, seed[k], CounterByte(ctr, k), seed'[k]);
    }
  }

  /** With equal draws and seeds two counters give equal first eight bytes, and last four that differ by what the counters differ by. */
  lemma CounterIsXored(seed: Iv, x1: Word, x2: Word, x3: Word, c: Word, d: Word)
    ensures var v, w := MakeIv(seed, x1, x2, x3, c), MakeIv(seed, x1, x2, x3, d);
      v[..8] == w[..8] && XorSeq(v[8..], w[8..]) == XorSeq(BigEndian(c), BigEndian(d))
  {
    hide Drawn, BigEndian, Xor, MakeIv, CounterByte;
    var v, w := MakeIv(seed, x1, x2, x3, c), MakeIv(seed, x1, x2, x3, d);
    forall k | 0 <= k < 12
      ensures if k < 8 then v[k] == w[k] else Xor(v[k], w[k]) == Xor(BigEndian(c)[k - 8], BigEndian(d)[k - 8])
    {
      VectorByte(seed, x1, x2, x3, c, k);
      VectorByte(seed, x1, x2, x3, d, k);
      CounterBytes(c, d, k);
      var draw := if k < 4 then Drawn(x1)[k] else if k < 8 then Drawn(x2)[k - 4] else Drawn(x3)[k - 8];
      InnerXorsCancel(Xor(draw, seed[k]), CounterByte(c, k), CounterByte(d, k));
    }
    assert forall k :: 0 <= k < 4 ==> v[8..][k] == v[k + 8] && w[8..][k] == w[k + 8];
  }

  lemma CounterBytes(c: Word, d: Word, k: nat)
    requires k < 12
    ensures k < 8 ==> CounterByte(c, k) == CounterByte(d, k)
    ensures k >= 8 ==> CounterByte(c, k) == BigEndian(c)[k - 8] && CounterByte(d, k) == BigEndian(d)[k - 8]
  {}

  const ZERO_SEED: Iv := [0, 0, 0, 0, 0, 0, 0, 0, 0, 0, 0, 0]

  /** With a zero seed at the first call the vector is the three draws. */
  lemma ZeroSeedGivesDraws(x1: Word, x2: Word, x3: Word)
    ensures MakeIv(ZERO_SEED, x1, x2, x3, 0) == Drawn(x1) + Drawn(x2) + Drawn(x3)
  {
    hide Drawn, Xor, MakeIv, CounterByte;
    forall k | 0 <= k < 12
      ensures MakeIv(ZERO_SEED, x1, x2, x3, 0)[k] == (Drawn(x1) + Drawn(x2) + Drawn(x3))[k]
    {
      VectorByte(ZERO_SEED, x1, x2, x3, 0, k);
      CounterByteOfZero(k);
      XorZero((Drawn(x1) + Drawn(x2) + Drawn(x3))[k]);
    }
  }

  lemma CounterByteOfZero(k: nat)
    requires k < 12
    ensures CounterByte(0, k) == 0
  {}

  /** The first vector after a reset with the seed that the build offers as a default. */
  lemma FirstVector()
    ensures IvOfCall([0x00, 0x01, 0x02, 0x03, 0x04, 0x05, 0x06, 0x07, 0x08, 0x09, 0x0A, 0x0B], 0x6d5a56a1, 0, 0)
      == [0xf5, 0x2c, 0xc9, 0x44, 0xce, 0x7e, 0xa1, 0x04, 0xa9, 0x9f, 0xdd, 0xd8]
  {
    FirstStates();
    FirstDraw();
    SecondDraw();
    ThirdDraw();
    hide StateAfter, Drawn;
    assert BigEndian(0) == [0, 0, 0, 0];
  }

  lemma FirstStates()
    ensures StateAfter(0x6d5a56a1, 1) == 0x3e427f8c && StateAfter(0x6d5a56a1, 2) == 0x594d357b && StateAfter(0x6d5a56a1, 3) == 0xc1acac9e
  {
    assert StateAfter(0x6d5a56a1, 0) == 0x6d5a56a1;
  }

  lemma FirstDraw()
    ensures Drawn(0x3e427f8c) == [0xf5, 0x2d, 0xcb, 0x47]
  {
    hide Mix, InMemory;
    DrawOf(0x3e427f8c, 0x3e, 0x42, 0x7f, 0x8c);
    MixOfFirst();
  }

  lemma MixOfFirst()
    ensures InMemory(Mix(Assembled(0x3e, 0x42, 0x7f, 0x8c))) == [0xf5, 0x2d, 0xcb, 0x47]
  {}

  lemma SecondDraw()
    ensures Drawn(0x594d357b) == [0xca, 0x7b, 0xa7, 0x03]
  {
    hide Mix, InMemory;
    DrawOf(0x594d357b, 0x59, 0x4d, 0x35, 0x7b);
    MixOfSecond();
  }

  lemma MixOfSecond()
    ensures InMemory(Mix(Assembled(0x59, 0x4d, 0x35, 0x7b))) == [0xca, 0x7b, 0xa7, 0x03]
  {}

  lemma ThirdDraw()
    ensures Drawn(0xc1acac9e) == [0xa1, 0x96, 0xd7, 0xd3]
  {
    hide Mix, InMemory;
    DrawOf(0xc1acac9e, 0xc1, 0xac, 0xac, 0x9e);
    MixOfThird();
  }

  lemma MixOfThird()
    ensures InMemory(Mix(Assembled(0xc1, 0xac, 0xac, 0x9e))) == [0xa1, 0x96, 0xd7, 0xd3]
  {}

  lemma DrawOf(x: Word, b0: Byte, b1: Byte, b2: Byte, b3: Byte)
    requires x == BigEndianValue([b0, b1, b2, b3])
    ensures Drawn(x) == InMemory(Mix(Assembled(b0, b1, b2, b3)))
  {
    hide BigEndian, BigEndianValue, Mix, Assembled, InMemory;
    BigEndianValueRoundTrip([b0, b1, b2, b3]);
  }

  lemma XorBytesCancel(a: Byte, b: Byte, s: Byte)
    requires Xor(Xor(a, s), 0) == Xor(Xor(b, s), 0)
    ensures a == b
  {}

  /** The call counter never reaches the first word, which alone tells two vectors apart. */
  lemma FirstWordTells(seed: Iv, x1: Word, x2: Word, x3: Word, c: Word, y1: Word, y2: Word, y3: Word, d: Word)
    requires MakeIv(seed, x1, x2, x3, c) == MakeIv(seed, y1, y2, y3, d)
    ensures x1 == y1
  {
    hide Drawn, BigEndian, Xor;
    forall k | 0 <= k < 4
      ensures Drawn(x1)[k] == Drawn(y1)[k]
    {
      assert MakeIv(seed, x1, x2, x3, c)[k] == Xor(Xor(Drawn(x1)[k], seed[k]), 0);
      assert MakeIv(seed, y1, y2, y3, d)[k] == Xor(Xor(Drawn(y1)[k], seed[k]), 0);
      XorBytesCancel(Drawn(x1)[k], Drawn(y1)[k], seed[k]);
    }
    DrawnIsInjective(x1, y1);
  }

  lemma WordIsPower()
    ensures Pow2(32) == WORD && Lcg.FullPeriod(MULTIPLIER, INCREMENT)
  {
    assert Pow2(8) == 0x100;
    assert Pow2(16) == 0x1_0000;
    assert Pow2(24) == 0x100_0000;
  }

  lemma {:induction false} StateAfterIsOrbit(x: Word, n: nat)
    ensures StateAfter(x, n) == Lcg.Orbit(MULTIPLIER, INCREMENT, WORD, x, n)
  {
    if n > 0 {
      StateAfterIsOrbit(x, n - 1);
    }
  }

  /** The generator has period exactly 2^32 from every state. */
  lemma StatePositions(x: Word, m: nat, n: nat)
    ensures StateAfter(x, m) == StateAfter(x, n) <==> m % WORD == n % WORD
  {
    WordIsPower();
    StateAfterIsOrbit(x, m);
    StateAfterIsOrbit(x, n);
    Lcg.OrbitPositions(MULTIPLIER, INCREMENT, 32, x, m, n);
    hide StateAfter, Lcg.Orbit, Pow2;
  }

  lemma {:induction false} StateAfterCompose(x: Word, m: nat, n: nat)
    ensures StateAfter(StateAfter(x, m), n) == StateAfter(x, m + n)
  {
    if n > 0 {
      StateAfterCompose(x, m, n - 1);
      assert m + n - 1 == m + (n - 1);
    }
  }

  /** Three draws for each vector still visit every residue: 3 is invertible modulo 2^32. */
  lemma ThreeIsInvertible(i: nat, j: nat)
    ensures (3 * i + 1) % WORD == (3 * j + 1) % WORD <==> i % WORD == j % WORD
  {
    if i > j {
      ThreeIsInvertible(j, i);
    } else {
      var d := j - i;
      ModEqual(3 * i + 1, 3 * d, WORD);
      ModEqual(i, d, WORD);
      TripleDivisible(d);
    }
  }

  lemma TripleDivisible(d: nat)
    ensures (3 * d) % WORD == 0 <==> d % WORD == 0
  {
    var q := 3 * d / WORD;
    assert WORD * (d - 1431655765 * q) == d + 1431655765 * (3 * d - WORD * q);
    AddMultiple(0, d - 1431655765 * q, WORD);
    AddMultiple(0, 3 * (d / WORD), WORD);
  }

  /**
   * Within one boot two calls of `generate_iv` give the same vector exactly when their numbers agree
   * modulo 2^32, whatever the seed, the state and the call counter were at the start.
   */
  lemma IvsRepeatExactly(seed: Iv, x: Word, ctr: Word, i: nat, j: nat)
    ensures IvOfCall(seed, x, ctr, i) == IvOfCall(seed, x, ctr, j) <==> i % WORD == j % WORD
  {
    hide MakeIv, StateAfter;
    if IvOfCall(seed, x, ctr, i) == IvOfCall(seed, x, ctr, j) {
      FirstWordTells(seed, StateAfter(x, 3 * i + 1), StateAfter(x, 3 * i + 2), StateAfter(x, 3 * i + 3), (ctr + i) % WORD,
                     StateAfter(x, 3 * j + 1), StateAfter(x, 3 * j + 2), StateAfter(x, 3 * j + 3), (ctr + j) % WORD);
      StatePositions(x, 3 * i + 1, 3 * j + 1);
      ThreeIsInvertible(i, j);
    }
    if i % WORD == j % WORD {
      ShiftedAgree(i, j);
      StatePositions(x, 3 * i + 1, 3 * j + 1);
      StatePositions(x, 3 * i + 2, 3 * j + 2);
      StatePositions(x, 3 * i + 3, 3 * j + 3);
      CountersAgree(i, j, ctr);
    }
  }

  lemma CountersAgree(i: nat, j: nat, c: nat)
    requires i % WORD == j % WORD
    ensures (c + i) % WORD == (c + j) % WORD
  {
    if i > j {
      CountersAgree(j, i, c);
    } else {
      ModEqual(i, j - i, WORD);
      ModEqual(c + i, j - i, WORD);
    }
  }

  lemma ShiftedAgree(i: nat, j: nat)
    requires i % WORD == j % WORD
    ensures (3 * i + 1) % WORD == (3 * j + 1) % WORD && (3 * i + 2) % WORD == (3 * j + 2) % WORD && (3 * i + 3) % WORD == (3 * j + 3) % WORD
  {
    ThreeIsInvertible(i, j);
    CountersAgree(3 * i + 1, 3 * j + 1, 1);
    CountersAgree(3 * i + 1, 3 * j + 1, 2);
  }

  /** Counting calls from a later state. */
  lemma IvOfLaterCall(seed: Iv, x: Word, ctr: Word, i: nat, n: nat)
    ensures IvOfCall(seed, StateAfter(x, 3 * i), (ctr + i) % WORD, n) == IvOfCall(seed, x, ctr, i + n)
  {
    hide MakeIv, StateAfter;
    StateAfterCompose(x, 3 * i, 3 * n + 1);
    StateAfterCompose(x, 3 * i, 3 * n + 2);
    StateAfterCompose(x, 3 * i, 3 * n + 3);
    assert ((ctr + i) % WORD + n) % WORD == (ctr + (i + n)) % WORD;
  }
}
