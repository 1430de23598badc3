/**
 * What src/simple_aes.c computes, byte by byte and without its intermediate steps: the rounds of the
 * cipher, how a difference spreads through them, and the words of the key schedule.
 */
module AesBytes {
  import opened Bytes
  import opened Gf256
  import opened AesTables
  import opened SboxMeaning
  import opened SimpleAes

  /** The substitution of section 5.1.1 of FIPS 197. */
  function S(b: Byte): Byte {
    Affine(Inverse(b))
  }

  lemma SIsSbox(b: Byte)
    ensures S(b) == Sbox(b)
  {
    SboxIsAffineInverse(b);
    hide *;
    assert S(b) == Affine(Inverse(b)) by { SIsAffine(b); }
  }

  lemma SIsAffine(b: Byte)
    ensures S(b) == Affine(Inverse(b))
  {
    hide Affine, Inverse;
  }

  lemma SIsInjective(a: Byte, b: Byte)
    ensures a != b ==> S(a) != S(b)
  {
    hide *;
    SIsSbox(a);
    SIsSbox(b);
    SboxUndone(a);
    SboxUndone(b);
  }

  // ---- the rounds ----

  /** Row r of column c. */
  function Cell(s: Block, r: nat, c: nat): Byte
    requires r < 4 && c < 4
  {
    s[r + 4 * c]
  }

  /** The byte of row q that column c of the next state takes: it comes from column c + q. */
  function Taken(s: Block, q: nat, c: nat): Byte
    requires q < 4
  {
    S(Cell(s, q, (c + q) % 4))
  }

  /** A full round leads from s to t under key k: every byte is a key byte and the combination 2, 3, 1, 1 of four bytes of s. */
  ghost predicate FullRound(k: Block, s: Block, t: Block) {
    forall r, c :: 0 <= r < 4 && 0 <= c < 4 ==> Cell(t, r, c) == Xor(Combined(s, r, c), Cell(k, r, c))
  }

  function Combined(s: Block, r: nat, c: nat): Byte
    requires r < 4
  {
    Xor(Xor(GfMul(Taken(s, r, c), 2), GfMul(Taken(s, (r + 1) % 4, c), 3)), Xor(Taken(s, (r + 2) % 4, c), Taken(s, (r + 3) % 4, c)))
  }

  ghost predicate FinalRound(k: Block, s: Block, t: Block) {
    forall r, c :: 0 <= r < 4 && 0 <= c < 4 ==> Cell(t, r, c) == Xor(Taken(s, r, c), Cell(k, r, c))
  }

  ghost predicate Whitened(k: Block, s: Block, t: Block) {
    forall i :: 0 <= i < 16 ==> t[i] == Xor(s[i], k[i])
  }

  /** The states of the cipher under the schedule w: the whitened input, one after each full round, and then the output. */
  ghost predicate Encrypts(w: seq<Byte>, rounds: nat, input: Block, states: seq<Block>, output: Block)
    requires 1 <= rounds && 16 * (rounds + 1) <= |w|
  {
    && |states| == rounds
    && Whitened(w[..16], input, states[0])
    && (forall n :: 1 <= n < rounds ==> FullRound(w[16 * n..16 * n + 16], states[n - 1], states[n]))
    && FinalRound(w[16 * rounds..16 * rounds + 16], states[rounds - 1], output)
  }

  lemma Rows(r: nat, c: nat)
    requires r < 4 && c < 4
    ensures (r + 4 * c) % 4 == r && (r + 4 * c) / 4 == c && ShiftIndex(r + 4 * c) == r + 4 * ((c + r) % 4)
  {}

  lemma ShiftedByte(s: Block, r: nat, c: nat)
    requires r < 4 && c < 4
    ensures Cell(ShiftRows(SubBytes(s)), r, c) == Taken(s, r, c)
  {
    hide Sbox, S, ShiftIndex;
    Rows(r, c);
    SIsSbox(Cell(s, r, (c + r) % 4));
  }

  lemma ShiftedColumn(s: Block, c: nat, p: nat)
    requires c < 4 && p < 4
    ensures ColumnOf(ShiftRows(SubBytes(s)), c)[p] == Taken(s, p, c)
  {
    hide ShiftRows, SubBytes, Taken;
    ShiftedByte(s, p, c);
  }

  lemma MixedByte(a: Column, r: nat)
    requires r < 4
    ensures MixColumn(a)[r] == MixByte(a[r], a[(r + 1) % 4], a[(r + 2) % 4], a[(r + 3) % 4])
  {
    hide MixByte;
  }

  lemma RoundByByte(k: Block, s: Block)
    ensures FullRound(k, s, Round(s, k))
  {
    var t := Round(s, k);
    forall r, c | 0 <= r < 4 && 0 <= c < 4
      ensures Cell(t, r, c) == Xor(Combined(s, r, c), Cell(k, r, c))
    {
      RoundByte(k, s, r, c);
    }
  }

  lemma RoundByte(k: Block, s: Block, r: nat, c: nat)
    requires r < 4 && c < 4
    ensures Cell(Round(s, k), r, c) == Xor(Combined(s, r, c), Cell(k, r, c))
  {
    hide ShiftRows, SubBytes, Taken, MixColumn, GfMul, Xor, ColumnOf, ShiftIndex, MixColumns;
    hide Cell, MixByte, XorSeq;
    var a := ShiftRows(SubBytes(s));
    ShiftedColumn(s, c, r);
    ShiftedColumn(s, c, (r + 1) % 4);
    ShiftedColumn(s, c, (r + 2) % 4);
    ShiftedColumn(s, c, (r + 3) % 4);
    CombinedIsMixed(s, r, c);
    MixedCell(a, r, c);
    MixedByte(ColumnOf(a, c), r);
    KeyedCell(MixColumns(a), k, r, c);
  }

  lemma CombinedIsMixed(s: Block, r: nat, c: nat)
    requires r < 4 && c < 4
    ensures Combined(s, r, c) == MixByte(Taken(s, r, c), Taken(s, (r + 1) % 4, c), Taken(s, (r + 2) % 4, c), Taken(s, (r + 3) % 4, c))
  {
    hide Taken, GfMul, Xor;
  }

  lemma MixedCell(a: Block, r: nat, c: nat)
    requires r < 4 && c < 4
    ensures Cell(MixColumns(a), r, c) == MixColumn(ColumnOf(a, c))[r]
  {
    hide MixColumn, ColumnOf, ShiftIndex;
    Rows(r, c);
  }

  lemma KeyedCell(a: Block, k: Block, r: nat, c: nat)
    requires r < 4 && c < 4
    ensures Cell(XorSeq(a, k), r, c) == Xor(Cell(a, r, c), Cell(k, r, c))
  {
    hide Xor;
  }

  lemma LastRoundByByte(k: Block, s: Block)
    ensures FinalRound(k, s, LastRound(s, k))
  {
    hide ShiftRows, SubBytes, Taken, Xor;
    forall r, c | 0 <= r < 4 && 0 <= c < 4
      ensures Cell(LastRound(s, k), r, c) == Xor(Taken(s, r, c), Cell(k, r, c))
    {
      ShiftedByte(s, r, c);
    }
  }

  /** The rounds of the cipher are those of sections 5.1 and 5.3 of FIPS 197, byte by byte. */
  lemma CipherByByte(w: seq<Byte>, rounds: nat, s: Block) returns (states: seq<Block>)
    requires 1 <= rounds && 16 * (rounds + 1) <= |w|
    ensures Encrypts(w, rounds, s, states, Cipher(w, rounds, s))
  {
    hide Round, LastRound, FullRound, FinalRound;
    states := seq(rounds, n requires 0 <= n < rounds => Rounds(w, s, n));
    assert Whitened(w[..16], s, states[0]) by { hide Xor; }
    forall n | 1 <= n < rounds
      ensures FullRound(w[16 * n..16 * n + 16], states[n - 1], states[n])
    {
      RoundByByte(RoundKey(w, n), Rounds(w, s, n - 1));
    }
    LastRoundByByte(RoundKey(w, rounds), Rounds(w, s, rounds - 1));
  }

  // ---- how a difference spreads ----

  predicate Differ(s: Block, t: Block, r: nat, c: nat)
    requires r < 4 && c < 4
  {
    Cell(s, r, c) != Cell(t, r, c)
  }

  lemma DoublesDiffer(a: Byte, b: Byte)
    requires a != b
    ensures GfMul(a, 2) != GfMul(b, 2) && GfMul(a, 3) != GfMul(b, 3)
  {
    NoZeroMultiple(Xor(a, b));
    GfMulXor(a, b, 2);
    GfMulXor(a, b, 3);
    XorOfDifferent(a, b);
    XorZero(GfMul(a, 2));
    XorZero(GfMul(a, 3));
    hide GfMul, Xor;
  }

  lemma XorOfDifferent(a: Byte, b: Byte)
    ensures a != b <==> Xor(a, b) != 0
  {}

  lemma NoZeroMultiple(a: Byte)
    requires a != 0
    ensures GfMul(a, 2) != 0 && GfMul(a, 3) != 0
  {
    TwoAndThree(a);
    hide GfMul;
  }

  lemma TwoAndThree(a: Byte)
    ensures GfMul(a, 2) == Xtime(a) && GfMul(a, 3) == Xor(a, Xtime(a))
    ensures a != 0 ==> Xtime(a) != 0 && Xor(a, Xtime(a)) != 0
  {
    NonZero(a);
    GfMulTwo(a);
    GfMulThree(a);
    hide *;
  }

  lemma NonZero(a: Byte)
    ensures a != 0 ==> Xtime(a) != 0 && Xor(a, Xtime(a)) != 0
  {}

  lemma GfMulTwo(a: Byte)
    ensures GfMul(a, 2) == Xtime(a)
  {
    GfMulStep(a, 2);
    GfMulStep(Xtime(a), 1);
    XorZero(Xtime(a));
    hide Xtime, Xor;
  }

  lemma GfMulThree(a: Byte)
    ensures GfMul(a, 3) == Xor(a, Xtime(a))
  {
    GfMulStep(a, 3);
    GfMulStep(Xtime(a), 1);
    XorZero(Xtime(a));
    hide Xtime, Xor;
  }

  /** If the four bytes that a column takes differ in exactly one, all four bytes of the column differ after a full round. */
  lemma ColumnDiffers(k: Block, s: Block, s': Block, t: Block, t': Block, c: nat, q: nat)
    requires FullRound(k, s, t) && FullRound(k, s', t') && c < 4 && q < 4
    requires Taken(s, q, c) != Taken(s', q, c) && forall p :: 0 <= p < 4 && p != q ==> Taken(s, p, c) == Taken(s', p, c)
    ensures forall r :: 0 <= r < 4 ==> Cell(t, r, c) != Cell(t', r, c)
  {
    hide Taken, Combined, GfMul, Xor, Cell;
    forall r | 0 <= r < 4
      ensures Cell(t, r, c) != Cell(t', r, c)
    {
      CombinedDiffers(s, s', r, c, q);
      XorKeepsDifference(Combined(s, r, c), Combined(s', r, c), Cell(k, r, c));
    }
  }

  lemma XorKeepsDifference(a: Byte, b: Byte, k: Byte)
    requires a != b
    ensures Xor(a, k) != Xor(b, k) && Xor(k, a) != Xor(k, b)
  {}

  lemma CombinedDiffers(s: Block, s': Block, r: nat, c: nat, q: nat)
    requires r < 4 && q < 4
    requires Taken(s, q, c) != Taken(s', q, c) && forall p :: 0 <= p < 4 && p != q ==> Taken(s, p, c) == Taken(s', p, c)
    ensures Combined(s, r, c) != Combined(s', r, c)
  {
    hide Taken, GfMul, Xor;
    var a, b := Taken(s, q, c), Taken(s', q, c);
    DoublesDiffer(a, b);
    var p0, p1, p2, p3 := Taken(s, r, c), Taken(s, (r + 1) % 4, c), Taken(s, (r + 2) % 4, c), Taken(s, (r + 3) % 4, c);
    SumDiffers(GfMul(a, 2), GfMul(b, 2), GfMul(p1, 3), p2, p3);
    SumDiffers'(GfMul(a, 3), GfMul(b, 3), GfMul(p0, 2), p2, p3);
    ThirdDiffers(a, b, GfMul(p0, 2), GfMul(p1, 3), p3, p2);
  }

  lemma SumDiffers(a: Byte, b: Byte, x: Byte, y: Byte, z: Byte)
    requires a != b
    ensures Xor(Xor(a, x), Xor(y, z)) != Xor(Xor(b, x), Xor(y, z))
  {}

  lemma SumDiffers'(a: Byte, b: Byte, x: Byte, y: Byte, z: Byte)
    requires a != b
    ensures Xor(Xor(x, a), Xor(y, z)) != Xor(Xor(x, b), Xor(y, z))
  {}

  lemma ThirdDiffers(a: Byte, b: Byte, x: Byte, y: Byte, z: Byte, z': Byte)
    requires a != b
    ensures Xor(Xor(x, y), Xor(a, z)) != Xor(Xor(x, y), Xor(b, z))
    ensures Xor(Xor(x, y), Xor(z', a)) != Xor(Xor(x, y), Xor(z', b))
  {}

  /** A column that takes equal bytes stays equal. */
  lemma ColumnAgrees(k: Block, s: Block, s': Block, t: Block, t': Block, c: nat)
    requires FullRound(k, s, t) && FullRound(k, s', t') && c < 4
    requires forall p :: 0 <= p < 4 ==> Taken(s, p, c) == Taken(s', p, c)
    ensures forall r :: 0 <= r < 4 ==> Cell(t, r, c) == Cell(t', r, c)
  {
    hide Taken, GfMul, Xor, Cell;
  }

  lemma TakenDiffers(s: Block, s': Block, q: nat, c: nat)
    requires q < 4
    ensures Taken(s, q, c) != Taken(s', q, c) <==> Differ(s, s', q, (c + q) % 4)
  {
    hide S;
    SIsInjective(Cell(s, q, (c + q) % 4), Cell(s', q, (c + q) % 4));
  }

  /** Blocks that differ in row q of column d alone differ after a full round in exactly the four bytes of column d - q. */
  lemma OneByteSpreadsToAColumn(k: Block, s: Block, s': Block, t: Block, t': Block, q: nat, d: nat)
    requires q < 4 && d < 4 && FullRound(k, s, t) && FullRound(k, s', t')
    requires forall r, c :: 0 <= r < 4 && 0 <= c < 4 ==> (Differ(s, s', r, c) <==> r == q && c == d)
    ensures forall r, c :: 0 <= r < 4 && 0 <= c < 4 ==> (Differ(t, t', r, c) <==> c == (d + 4 - q) % 4)
  {
    hide Taken, FullRound, Cell;
    forall r, c | 0 <= r < 4 && 0 <= c < 4
      ensures Differ(t, t', r, c) <==> c == (d + 4 - q) % 4
    {
      forall p | 0 <= p < 4
        ensures Taken(s, p, c) != Taken(s', p, c) <==> p == q && c == (d + 4 - q) % 4
      {
        TakenDiffers(s, s', p, c);
        Source(p, c, d);
        Source(q, c, d);
        Target(q, c, d);
      }
      if c == (d + 4 - q) % 4 {
        ColumnDiffers(k, s, s', t, t', c, q);
      } else {
        ColumnAgrees(k, s, s', t, t', c);
      }
    }
  }

  /** Blocks that differ in exactly the four bytes of one column differ in all sixteen bytes after a full round. */
  lemma AColumnSpreadsToTheBlock(k: Block, s: Block, s': Block, t: Block, t': Block, d: nat)
    requires d < 4 && FullRound(k, s, t) && FullRound(k, s', t')
    requires forall r, c :: 0 <= r < 4 && 0 <= c < 4 ==> (Differ(s, s', r, c) <==> c == d)
    ensures forall r, c :: 0 <= r < 4 && 0 <= c < 4 ==> Differ(t, t', r, c)
  {
    hide Taken, FullRound, Cell;
    forall r, c | 0 <= r < 4 && 0 <= c < 4
      ensures Differ(t, t', r, c)
    {
      var q := (d + 4 - c) % 4;
      forall p | 0 <= p < 4
        ensures Taken(s, p, c) != Taken(s', p, c) <==> p == q
      {
        TakenDiffers(s, s', p, c);
        Source(p, c, d);
      }
      ColumnDiffers(k, s, s', t, t', c, q);
    }
  }

  lemma Source(p: nat, c: nat, d: nat)
    requires p < 4 && c < 4 && d < 4
    ensures (c + p) % 4 == d <==> p == (d + 4 - c) % 4
  {}

  lemma Target(q: nat, c: nat, d: nat)
    requires q < 4 && c < 4 && d < 4
    ensures (c + q) % 4 == d <==> c == (d + 4 - q) % 4
  {}

  /** Diffusion: one byte of difference, in row q of column d, reaches one column in one full round and the whole state in two. */
  lemma TwoRoundsSpreadToTheBlock(k: Block, k': Block, s: Block, s': Block, q: nat, d: nat)
    requires q < 4 && d < 4 && forall r, c :: 0 <= r < 4 && 0 <= c < 4 ==> (Differ(s, s', r, c) <==> r == q && c == d)
    ensures forall r, c :: 0 <= r < 4 && 0 <= c < 4 ==> (Differ(Round(s, k), Round(s', k), r, c) <==> c == (d + 4 - q) % 4)
    ensures forall r, c :: 0 <= r < 4 && 0 <= c < 4 ==> Differ(Round(Round(s, k), k'), Round(Round(s', k), k'), r, c)
  {
    hide Round, FullRound, Differ;
    var t, t' := Round(s, k), Round(s', k);
    RoundByByte(k, s);
    RoundByByte(k, s');
    RoundByByte(k', t);
    RoundByByte(k', t');
    OneByteSpreadsToAColumn(k, s, s', t, t', q, d);
    AColumnSpreadsToTheBlock(k', t, t', Round(t, k'), Round(t', k'), (d + 4 - q) % 4);
  }

  // ---- the key schedule ----

  /** x^n in the field. */
  function PowerOfX(n: nat): Byte {
    if n == 0 then 1 else Xtime(PowerOfX(n - 1))
  }

  /** Byte t of what is added to word i - nk to make word i, in terms of the word before. */
  function AddedByte(w: seq<Byte>, nk: nat, i: nat, t: nat): Byte
    requires 1 <= nk <= i && 4 * i <= |w| && t < 4
  {
    if i % nk == 0 then
      var b := S(w[4 * (i - 1) + (t + 1) % 4]);
      if t == 0 then Xor(b, PowerOfX(i / nk - 1)) else b
    else if nk == 8 && i % 8 == 4 then S(w[4 * (i - 1) + t])
    else w[4 * (i - 1) + t]
  }

  /** The buffer starts with the key, and every later word is its predecessor by nk words and what is added (section 5.2 of FIPS 197). */
  ghost predicate Expanded(w: seq<Byte>, key: seq<Byte>, nk: nat, words: nat) {
    && 1 <= nk && |key| == 4 * nk && 4 * nk <= 4 * words <= |w|
    && w[..4 * nk] == key
    && forall i, t :: nk <= i < words && 0 <= t < 4 ==> w[4 * i + t] == Xor(w[4 * (i - nk) + t], AddedByte(w, nk, i, t))
  }
}
