/** The block cipher and key schedule of src/simple_aes.c. */
module SimpleAes {
  import opened Bytes
  import opened Gf256
  import opened AesTables

  type Block = s: seq<Byte> | |s| == 16 witness seq(16, _ => 0)

  // ---- one round, as functions on blocks ----

  function SubBytes(s: Block): Block {
    seq(16, i requires 0 <= i < 16 => Sbox(s[i]))
  }

  function InvSubBytes(s: Block): Block {
    seq(16, i requires 0 <= i < 16 => InvSbox(s[i]))
  }

  /** Byte r + 4c holds row r of column c; row r rotates left by r columns. */
  function ShiftRows(s: Block): Block {
    seq(16, i requires 0 <= i < 16 => s[ShiftIndex(i)])
  }

  function ShiftIndex(i: nat): nat {
    i % 4 + 4 * ((i / 4 + i % 4) % 4)
  }

  function InvShiftRows(s: Block): Block {
    seq(16, i requires 0 <= i < 16 => s[InvShiftIndex(i)])
  }

  function InvShiftIndex(i: nat): nat {
    i % 4 + 4 * ((i / 4 + 4 - i % 4) % 4)
  }

  function MixByte(a: Byte, b: Byte, c: Byte, d: Byte): Byte {
    Xor(Xor(GfMul(a, 2), GfMul(b, 3)), Xor(c, d))
  }

  function InvMixByte(a: Byte, b: Byte, c: Byte, d: Byte): Byte {
    Xor(Xor(GfMul(a, 14), GfMul(b, 11)), Xor(GfMul(c, 13), GfMul(d, 9)))
  }

  type Column = c: seq<Byte> | |c| == 4 witness [0, 0, 0, 0]

  function MixColumn(c: Column): Column {
    hide MixByte;
    [MixByte(c[0], c[1], c[2], c[3]), MixByte(c[1], c[2], c[3], c[0]), MixByte(c[2], c[3], c[0], c[1]), MixByte(c[3], c[0], c[1], c[2])]
  }

  function InvMixColumn(c: Column): Column {
    hide InvMixByte;
    [InvMixByte(c[0], c[1], c[2], c[3]), InvMixByte(c[1], c[2], c[3], c[0]), InvMixByte(c[2], c[3], c[0], c[1]), InvMixByte(c[3], c[0], c[1], c[2])]
  }

  function ColumnOf(s: Block, k: nat): Column
    requires k < 4
  {
    s[4 * k..4 * k + 4]
  }

  function MixColumns(s: Block): Block {
    seq(16, i requires 0 <= i < 16 => MixColumn(ColumnOf(s, i / 4))[i % 4])
  }

  function InvMixColumns(s: Block): Block {
    seq(16, i requires 0 <= i < 16 => InvMixColumn(ColumnOf(s, i / 4))[i % 4])
  }

  function RoundKey(w: seq<Byte>, round: nat): Block
    requires 16 * (round + 1) <= |w|
  {
    w[16 * round..16 * round + 16]
  }

  // ---- the cipher ----

  /** One full round with its key. */
  function Round(s: Block, k: Block): Block {
    XorSeq(MixColumns(ShiftRows(SubBytes(s))), k)
  }

  function InvRound(s: Block, k: Block): Block {
    InvSubBytes(InvShiftRows(InvMixColumns(XorSeq(s, k))))
  }

  /** The last round, which mixes no columns. */
  function LastRound(s: Block, k: Block): Block {
    XorSeq(ShiftRows(SubBytes(s)), k)
  }

  function InvLastRound(s: Block, k: Block): Block {
    InvSubBytes(InvShiftRows(XorSeq(s, k)))
  }

  /** The state after the key addition of round `round`, for every round before the last. */
  function Rounds(w: seq<Byte>, s: Block, round: nat): Block
    requires 16 * (round + 1) <= |w|
  {
    if round == 0 then XorSeq(s, RoundKey(w, 0))
    else Round(Rounds(w, s, round - 1), RoundKey(w, round))
  }

  function Cipher(w: seq<Byte>, rounds: nat, s: Block): Block
    requires 1 <= rounds && 16 * (rounds + 1) <= |w|
  {
    LastRound(Rounds(w, s, rounds - 1), RoundKey(w, rounds))
  }

  function InvRounds(w: seq<Byte>, s: Block, round: nat): Block
    requires 16 * (round + 1) <= |w|
    decreases round
  {
    if round == 0 then XorSeq(s, RoundKey(w, 0))
    else InvRounds(w, InvRound(s, RoundKey(w, round)), round - 1)
  }

  function InvCipher(w: seq<Byte>, rounds: nat, s: Block): Block
    requires 1 <= rounds && 16 * (rounds + 1) <= |w|
  {
    InvRounds(w, InvLastRound(s, RoundKey(w, rounds)), rounds - 1)
  }

  // ---- every step has an inverse ----

  lemma SubBytesUndone(s: Block)
    ensures InvSubBytes(SubBytes(s)) == s && SubBytes(InvSubBytes(s)) == s
  {
    hide Sbox, InvSbox;
    forall i | 0 <= i < 16
      ensures InvSbox(Sbox(s[i])) == s[i] && Sbox(InvSbox(s[i])) == s[i]
    {
      SboxUndone(s[i]);
      InvSboxUndone(s[i]);
    }
  }

  lemma ShiftRowsUndone(s: Block)
    ensures InvShiftRows(ShiftRows(s)) == s && ShiftRows(InvShiftRows(s)) == s
  {
    hide ShiftIndex, InvShiftIndex;
    forall i | 0 <= i < 16
      ensures InvShiftRows(ShiftRows(s))[i] == s[i] && ShiftRows(InvShiftRows(s))[i] == s[i]
    {
      ShiftIndexUndone(i);
    }
  }

  lemma ShiftIndexUndone(i: nat)
    requires i < 16
    ensures ShiftIndex(i) < 16 && InvShiftIndex(ShiftIndex(i)) == i
    ensures InvShiftIndex(i) < 16 && ShiftIndex(InvShiftIndex(i)) == i
  {
    hide *;
    var c, r := i / 4, i % 4;
    TurnedBack(c, r);
    ShiftIndexAt(r, c);
    InvShiftIndexAt(r, c);
    ShiftIndexAt(r, (c + 4 - r) % 4);
    InvShiftIndexAt(r, (c + r) % 4);
  }

  lemma TurnedBack(c: nat, r: nat)
    requires c < 4 && r < 4
    ensures ((c + r) % 4 + 4 - r) % 4 == c && ((c + 4 - r) % 4 + r) % 4 == c
  {
    assert (c + r) % 4 == if c + r < 4 then c + r else c + r - 4;
    assert (c + 4 - r) % 4 == if c < r then c + 4 - r else c - r;
  }

  lemma ShiftIndexAt(r: nat, c: nat)
    requires r < 4 && c < 4
    ensures ShiftIndex(r + 4 * c) == r + 4 * ((c + r) % 4)
  {
    assert (r + 4 * c) / 4 == c && (r + 4 * c) % 4 == r;
  }

  lemma InvShiftIndexAt(r: nat, c: nat)
    requires r < 4 && c < 4
    ensures InvShiftIndex(r + 4 * c) == r + 4 * ((c + 4 - r) % 4)
  {
    assert (r + 4 * c) / 4 == c && (r + 4 * c) % 4 == r;
  }

  // ---- mixing a column and unmixing it ----

  lemma MixXor(a: Byte, b: Byte, c: Byte, d: Byte, a': Byte, b': Byte, c': Byte, d': Byte)
    ensures MixByte(Xor(a, a'), Xor(b, b'), Xor(c, c'), Xor(d, d')) == Xor(MixByte(a, b, c, d), MixByte(a', b', c', d'))
    ensures InvMixByte(Xor(a, a'), Xor(b, b'), Xor(c, c'), Xor(d, d')) == Xor(InvMixByte(a, b, c, d), InvMixByte(a', b', c', d'))
  {
    hide GfMul, Xor;
    GfMulXor(a, a', 2);
    GfMulXor(b, b', 3);
    XorSwap4(GfMul(a, 2), GfMul(b, 3), c, d, GfMul(a', 2), GfMul(b', 3), c', d');
    GfMulXor(a, a', 14);
    GfMulXor(b, b', 11);
    GfMulXor(c, c', 13);
    GfMulXor(d, d', 9);
    XorSwap4(GfMul(a, 14), GfMul(b, 11), GfMul(c, 13), GfMul(d, 9), GfMul(a', 14), GfMul(b', 11), GfMul(c', 13), GfMul(d', 9));
  }

  lemma XorSwap4(a: Byte, b: Byte, c: Byte, d: Byte, a': Byte, b': Byte, c': Byte, d': Byte)
    ensures Xor(Xor(Xor(a, a'), Xor(b, b')), Xor(Xor(c, c'), Xor(d, d')))
         == Xor(Xor(Xor(a, b), Xor(c, d)), Xor(Xor(a', b'), Xor(c', d')))
  {
    hide Xor;
    XorSwap(a, a', b, b');
    XorSwap(c, c', d, d');
    XorSwap(Xor(a, b), Xor(a', b'), Xor(c, d), Xor(c', d'));
  }

  /** One byte of a column that is mixed and then unmixed; the column is given from that byte on. */
  function MixTwice(a: Byte, b: Byte, c: Byte, d: Byte): Byte {
    InvMixByte(MixByte(a, b, c, d), MixByte(b, c, d, a), MixByte(c, d, a, b), MixByte(d, a, b, c))
  }

  /** The same for a column that is unmixed and then mixed. */
  function MixTwice'(a: Byte, b: Byte, c: Byte, d: Byte): Byte {
    MixByte(InvMixByte(a, b, c, d), InvMixByte(b, c, d, a), InvMixByte(c, d, a, b), InvMixByte(d, a, b, c))
  }

  lemma MixTwiceXor(a: Byte, b: Byte, c: Byte, d: Byte, a': Byte, b': Byte, c': Byte, d': Byte)
    ensures MixTwice(Xor(a, a'), Xor(b, b'), Xor(c, c'), Xor(d, d')) == Xor(MixTwice(a, b, c, d), MixTwice(a', b', c', d'))
    ensures MixTwice'(Xor(a, a'), Xor(b, b'), Xor(c, c'), Xor(d, d')) == Xor(MixTwice'(a, b, c, d), MixTwice'(a', b', c', d'))
  {
    hide MixByte, InvMixByte, Xor;
    MixXor(a, b, c, d, a', b', c', d');
    MixXor(b, c, d, a, b', c', d', a');
    MixXor(c, d, a, b, c', d', a', b');
    MixXor(d, a, b, c, d', a', b', c');
    MixXor(MixByte(a, b, c, d), MixByte(b, c, d, a), MixByte(c, d, a, b), MixByte(d, a, b, c),
           MixByte(a', b', c', d'), MixByte(b', c', d', a'), MixByte(c', d', a', b'), MixByte(d', a', b', c'));
    MixXor(InvMixByte(a, b, c, d), InvMixByte(b, c, d, a), InvMixByte(c, d, a, b), InvMixByte(d, a, b, c),
           InvMixByte(a', b', c', d'), InvMixByte(b', c', d', a'), InvMixByte(c', d', a', b'), InvMixByte(d', a', b', c'));
  }

  lemma MixOne(a: Byte)
    ensures MixByte(a, 0, 0, 0) == GfMul(a, 2) && MixByte(0, a, 0, 0) == GfMul(a, 3)
    ensures MixByte(0, 0, a, 0) == a && MixByte(0, 0, 0, a) == a
    ensures InvMixByte(a, 0, 0, 0) == GfMul(a, 14) && InvMixByte(0, a, 0, 0) == GfMul(a, 11)
    ensures InvMixByte(0, 0, a, 0) == GfMul(a, 13) && InvMixByte(0, 0, 0, a) == GfMul(a, 9)
  {
    ProductOfZero(2);
    ProductOfZero(3);
    ProductOfZero(14);
    ProductOfZero(11);
    ProductOfZero(13);
    ProductOfZero(9);
    XorZero(0);
    XorZero(a);
    XorZero(GfMul(a, 2));
    XorZero(GfMul(a, 3));
    XorZero(GfMul(a, 14));
    XorZero(GfMul(a, 11));
    XorZero(GfMul(a, 13));
    XorZero(GfMul(a, 9));
    hide GfMul, Xor;
  }

  lemma FourMultiples(a: Byte, p: Byte, q: Byte, r: Byte, s: Byte)
    ensures Xor(Xor(GfMul(a, p), GfMul(a, q)), Xor(GfMul(a, r), GfMul(a, s))) == GfMul(a, Xor(Xor(p, q), Xor(r, s)))
  {
    hide GfMul, Xor;
    GfMulXorRight(a, p, q);
    GfMulXorRight(a, r, s);
    GfMulXorRight(a, Xor(p, q), Xor(r, s));
  }

  /** The coefficients of one byte of the column in the four sums that unmix a mixed column. */
  lemma Unmix(a: Byte)
    ensures InvMixByte(GfMul(a, 2), a, a, GfMul(a, 3)) == a
    ensures InvMixByte(GfMul(a, 3), GfMul(a, 2), a, a) == 0
    ensures InvMixByte(a, GfMul(a, 3), GfMul(a, 2), a) == 0
    ensures InvMixByte(a, a, GfMul(a, 3), GfMul(a, 2)) == 0
  {
    ProductByOne(a);
    UnmixMultiples(a, 2, 1, 1, 3, 28, 11, 13, 27);
    UnmixMultiples(a, 3, 2, 1, 1, 18, 22, 13, 9);
    UnmixMultiples(a, 1, 3, 2, 1, 14, 29, 26, 9);
    UnmixMultiples(a, 1, 1, 3, 2, 14, 11, 23, 18);
    assert GfMul(a, 0) == 0;
    hide GfMul, MixByte, InvMixByte;
  }

  /** One of the multiples 1, 2, 3 of n. */
  function SmallMultiple(p: Byte, n: Byte): Byte {
    if p == 1 then n else if p == 2 then n << 1 else Xor(n, n << 1)
  }

  lemma ProductBySmall(a: Byte, p: Byte, n: Byte, m: Byte)
    requires 1 <= p <= 3 && n < 0x80 && m == SmallMultiple(p, n)
    ensures GfMul(GfMul(a, p), n) == GfMul(a, m)
  {
    hide GfMul, Xor, SmallMultiple;
    OneTwoThree(p);
    SmallMultiples(n);
    if p == 1 {
      ProductByOne(a);
    } else if p == 2 {
      ProductByTwo(a, n);
    } else {
      ProductByThree(a, n);
    }
  }

  lemma OneTwoThree(p: Byte)
    requires 1 <= p <= 3
    ensures p == 1 || p == 2 || p == 3
  {}

  lemma SmallMultiples(n: Byte)
    ensures SmallMultiple(1, n) == n && SmallMultiple(2, n) == n << 1 && SmallMultiple(3, n) == Xor(n, n << 1)
  {
    hide Xor;
  }

  lemma UnmixMultiples(a: Byte, p: Byte, q: Byte, r: Byte, s: Byte, p': Byte, q': Byte, r': Byte, s': Byte)
    requires 1 <= p <= 3 && 1 <= q <= 3 && 1 <= r <= 3 && 1 <= s <= 3
    requires p' == SmallMultiple(p, 14) && q' == SmallMultiple(q, 11) && r' == SmallMultiple(r, 13) && s' == SmallMultiple(s, 9)
    ensures InvMixByte(GfMul(a, p), GfMul(a, q), GfMul(a, r), GfMul(a, s)) == GfMul(a, Xor(Xor(p', q'), Xor(r', s')))
  {
    hide GfMul, Xor, SmallMultiple;
    ProductBySmall(a, p, 14, p');
    ProductBySmall(a, q, 11, q');
    ProductBySmall(a, r, 13, r');
    ProductBySmall(a, s, 9, s');
    FourMultiples(a, p', q', r', s');
  }

  lemma Remix(a: Byte)
    ensures MixByte(GfMul(a, 14), GfMul(a, 9), GfMul(a, 13), GfMul(a, 11)) == a
    ensures MixByte(GfMul(a, 11), GfMul(a, 14), GfMul(a, 9), GfMul(a, 13)) == 0
    ensures MixByte(GfMul(a, 13), GfMul(a, 11), GfMul(a, 14), GfMul(a, 9)) == 0
    ensures MixByte(GfMul(a, 9), GfMul(a, 13), GfMul(a, 11), GfMul(a, 14)) == 0
  {
    ProductByOne(a);
    RemixMultiples(a, 14, 9, 13, 11, 28, 27);
    RemixMultiples(a, 11, 14, 9, 13, 22, 18);
    RemixMultiples(a, 13, 11, 14, 9, 26, 29);
    RemixMultiples(a, 9, 13, 11, 14, 18, 23);
    assert GfMul(a, 0) == 0;
    hide GfMul, MixByte, InvMixByte;
  }

  lemma RemixMultiples(a: Byte, p: Byte, q: Byte, r: Byte, s: Byte, p': Byte, q': Byte)
    requires p < 0x80 && q < 0x80
    requires p' == SmallMultiple(2, p) && q' == SmallMultiple(3, q)
    ensures MixByte(GfMul(a, p), GfMul(a, q), GfMul(a, r), GfMul(a, s)) == GfMul(a, Xor(Xor(p', q'), Xor(r, s)))
  {
    hide GfMul, Xor, SmallMultiple;
    ProductBySmall(a, 2, p, p');
    ProductsCommute(a, p, 2);
    ProductBySmall(a, 3, q, q');
    ProductsCommute(a, q, 3);
    FourMultiples(a, p', q', r, s);
  }

  lemma MixTwiceOne(a: Byte)
    ensures MixTwice(a, 0, 0, 0) == a && MixTwice(0, a, 0, 0) == 0 && MixTwice(0, 0, a, 0) == 0 && MixTwice(0, 0, 0, a) == 0
    ensures MixTwice'(a, 0, 0, 0) == a && MixTwice'(0, a, 0, 0) == 0 && MixTwice'(0, 0, a, 0) == 0 && MixTwice'(0, 0, 0, a) == 0
  {
    hide GfMul, Xor, MixByte, InvMixByte;
    MixOne(a);
    Unmix(a);
    Remix(a);
  }

  /**
   * The multiples 14, 11, 13, 9 of a mixed column give the column back, and the other way round
   * (section 5.3.3 of FIPS 197).
   */
  lemma MixUndone(a: Byte, b: Byte, c: Byte, d: Byte)
    ensures InvMixByte(MixByte(a, b, c, d), MixByte(b, c, d, a), MixByte(c, d, a, b), MixByte(d, a, b, c)) == a
    ensures MixByte(InvMixByte(a, b, c, d), InvMixByte(b, c, d, a), InvMixByte(c, d, a, b), InvMixByte(d, a, b, c)) == a
  {
    assert MixTwice(a, b, c, d) == a && MixTwice'(a, b, c, d) == a by {
      hide *;
      MixTwiceXor(a, 0, 0, 0, 0, b, 0, 0);
      MixTwiceXor(0, 0, c, 0, 0, 0, 0, d);
      MixTwiceXor(a, b, 0, 0, 0, 0, c, d);
      XorZero(a);
      XorZero(b);
      XorZero(c);
      XorZero(d);
      XorZero(0);
      MixTwiceOne(a);
      MixTwiceOne(b);
      MixTwiceOne(c);
      MixTwiceOne(d);
    }
    hide MixByte, InvMixByte;
  }

  lemma MixColumnUndone(c: Column)
    ensures InvMixColumn(MixColumn(c)) == c && MixColumn(InvMixColumn(c)) == c
  {
    hide MixByte, InvMixByte;
    MixUndone(c[0], c[1], c[2], c[3]);
    MixUndone(c[1], c[2], c[3], c[0]);
    MixUndone(c[2], c[3], c[0], c[1]);
    MixUndone(c[3], c[0], c[1], c[2]);
  }

  lemma ColumnsOfMixed(s: Block, k: nat)
    requires k < 4
    ensures ColumnOf(MixColumns(s), k) == MixColumn(ColumnOf(s, k))
    ensures ColumnOf(InvMixColumns(s), k) == InvMixColumn(ColumnOf(s, k))
  {
    hide MixColumn, InvMixColumn;
    forall j | 0 <= j < 4
      ensures ColumnOf(MixColumns(s), k)[j] == MixColumn(ColumnOf(s, k))[j]
      ensures ColumnOf(InvMixColumns(s), k)[j] == InvMixColumn(ColumnOf(s, k))[j]
    {
      assert (4 * k + j) / 4 == k && (4 * k + j) % 4 == j;
    }
  }

  lemma MixColumnsUndone(s: Block)
    ensures InvMixColumns(MixColumns(s)) == s && MixColumns(InvMixColumns(s)) == s
  {
    hide MixColumn, InvMixColumn;
    forall i | 0 <= i < 16
      ensures InvMixColumns(MixColumns(s))[i] == s[i] && MixColumns(InvMixColumns(s))[i] == s[i]
    {
      ColumnsOfMixed(s, i / 4);
      MixColumnUndone(ColumnOf(s, i / 4));
      assert ColumnOf(s, i / 4)[i % 4] == s[i];
    }
  }

  // ---- the cipher is a permutation of blocks ----

  lemma RoundUndone(s: Block, k: Block)
    ensures InvRound(Round(s, k), k) == s && Round(InvRound(s, k), k) == s
  {
    hide MixColumns, InvMixColumns, ShiftRows, InvShiftRows, SubBytes, InvSubBytes, XorSeq;
    XorSeqCancel(MixColumns(ShiftRows(SubBytes(s))), k);
    MixColumnsUndone(ShiftRows(SubBytes(s)));
    ShiftRowsUndone(SubBytes(s));
    SubBytesUndone(s);
    var x: Block := XorSeq(s, k);
    XorSeqCancel(s, k);
    MixColumnsUndone(x);
    ShiftRowsUndone(InvMixColumns(x));
    SubBytesUndone(InvShiftRows(InvMixColumns(x)));
  }

  lemma LastRoundUndone(s: Block, k: Block)
    ensures InvLastRound(LastRound(s, k), k) == s && LastRound(InvLastRound(s, k), k) == s
  {
    hide ShiftRows, InvShiftRows, SubBytes, InvSubBytes, XorSeq;
    XorSeqCancel(ShiftRows(SubBytes(s)), k);
    ShiftRowsUndone(SubBytes(s));
    SubBytesUndone(s);
    var x: Block := XorSeq(s, k);
    XorSeqCancel(s, k);
    ShiftRowsUndone(x);
    SubBytesUndone(InvShiftRows(x));
  }

  lemma {:induction false} RoundsUndone(w: seq<Byte>, s: Block, round: nat)
    requires 16 * (round + 1) <= |w|
    ensures InvRounds(w, Rounds(w, s, round), round) == s
  {
    hide Round, InvRound, XorSeq, RoundKey;
    if round == 0 {
      XorSeqCancel(s, RoundKey(w, 0));
    } else {
      RoundUndone(Rounds(w, s, round - 1), RoundKey(w, round));
      RoundsUndone(w, s, round - 1);
    }
  }

  lemma {:induction false} RoundsReached(w: seq<Byte>, s: Block, round: nat)
    requires 16 * (round + 1) <= |w|
    ensures Rounds(w, InvRounds(w, s, round), round) == s
    decreases round
  {
    hide Round, InvRound, XorSeq, RoundKey;
    if round == 0 {
      XorSeqCancel(s, RoundKey(w, 0));
    } else {
      RoundUndone(s, RoundKey(w, round));
      RoundsReached(w, InvRound(s, RoundKey(w, round)), round - 1);
    }
  }

  /**
   * For every round-key array and round count the block cipher is a permutation of blocks:
   * `InvCipher` (section 5.3 of FIPS 197) is its inverse on both sides.
   */
  lemma CipherIsPermutation(w: seq<Byte>, rounds: nat, s: Block)
    requires 1 <= rounds && 16 * (rounds + 1) <= |w|
    ensures InvCipher(w, rounds, Cipher(w, rounds, s)) == s
    ensures Cipher(w, rounds, InvCipher(w, rounds, s)) == s
  {
    hide Rounds, InvRounds, LastRound, InvLastRound, RoundKey;
    LastRoundUndone(Rounds(w, s, rounds - 1), RoundKey(w, rounds));
    RoundsUndone(w, s, rounds - 1);
    LastRoundUndone(s, RoundKey(w, rounds));
    RoundsReached(w, InvLastRound(s, RoundKey(w, rounds)), rounds - 1);
  }
}
