/** The in-place block operations and the key schedule of src/simple_aes.c. */
module AesContext {
  import opened Bytes
  import opened Gf256
  import opened AesTables
  import opened SimpleAes
  import opened AesBytes

  // ---- the key schedule, as section 5.2 of FIPS 197 defines it ----

  predicate KeyWords(nk: nat) {
    nk == 4 || nk == 6 || nk == 8
  }

  function RotWord(w: Column): Column {
    [w[1], w[2], w[3], w[0]]
  }

  function SubWord(w: Column): Column {
    [Sbox(w[0]), Sbox(w[1]), Sbox(w[2]), Sbox(w[3])]
  }

  lemma RconIndex(nk: nat, i: nat)
    requires KeyWords(nk) && nk <= i < 4 * (nk + 7)
    ensures i / nk <= 10 && i / nk >= 1
  {}

  /** What is added to word i - nk to make word i, given word i - 1. */
  function Increment(nk: nat, i: nat, previous: Column): Column
    requires KeyWords(nk) && nk <= i < 4 * (nk + 7)
  {
    hide Xor, SubWord, RotWord;
    if i % nk == 0 then
      var t := SubWord(RotWord(previous));
      RconIndex(nk, i);
      [Xor(t[0], RCON[i / nk]), t[1], t[2], t[3]]
    else if nk > 6 && i % nk == 4 then SubWord(previous)
    else previous
  }

  /** Word i of the expanded key. */
  function KeyWord(key: seq<Byte>, nk: nat, i: nat): Column
    requires KeyWords(nk) && |key| == 4 * nk && i < 4 * (nk + 7)
  {
    if i < nk then WordAt(key, i)
    else XorSeq(KeyWord(key, nk, i - nk), Increment(nk, i, KeyWord(key, nk, i - 1)))
  }

  function WordAt(s: seq<Byte>, i: nat): Column
    requires 4 * i + 4 <= |s|
  {
    s[4 * i..4 * i + 4]
  }

  /** Any nk consecutive words of the schedule determine the key. */
  lemma {:induction false} ScheduleIsReversible(k1: seq<Byte>, k2: seq<Byte>, nk: nat, j: nat)
    requires KeyWords(nk) && |k1| == |k2| == 4 * nk && j + nk <= 4 * (nk + 7)
    requires forall t :: j <= t < j + nk ==> KeyWord(k1, nk, t) == KeyWord(k2, nk, t)
    ensures k1 == k2
    decreases j
  {
    hide Increment, XorSeq;
    if j == 0 {
      forall b | 0 <= b < 4 * nk
        ensures k1[b] == k2[b]
      {
        assert KeyWord(k1, nk, b / 4) == KeyWord(k2, nk, b / 4);
        assert k1[b] == WordAt(k1, b / 4)[b % 4] && k2[b] == WordAt(k2, b / 4)[b % 4];
      }
    } else {
      var i := j + nk - 1;
      var previous := KeyWord(k1, nk, i - 1);
      assert previous == KeyWord(k2, nk, i - 1);
      XorSeqCancel(KeyWord(k1, nk, j - 1), Increment(nk, i, previous));
      XorSeqCancel(KeyWord(k2, nk, j - 1), Increment(nk, i, previous));
      assert KeyWord(k1, nk, i) == KeyWord(k2, nk, i);
      ScheduleIsReversible(k1, k2, nk, j - 1);
    }
  }

  // ---- the schedule byte by byte ----

  lemma RconIsPower(n: nat)
    requires 1 <= n <= 10
    ensures RCON[n] == PowerOfX(n - 1)
  {
    Powers();
    hide PowerOfX;
  }

  lemma Powers()
    ensures PowerOfX(0) == 0x01 && PowerOfX(1) == 0x02 && PowerOfX(2) == 0x04 && PowerOfX(3) == 0x08 && PowerOfX(4) == 0x10
    ensures PowerOfX(5) == 0x20 && PowerOfX(6) == 0x40 && PowerOfX(7) == 0x80 && PowerOfX(8) == 0x1B && PowerOfX(9) == 0x36
  {}

  lemma WordBytes(w: seq<Byte>, i: nat, t: nat)
    requires 4 * i + 4 <= |w| && t < 4
    ensures WordAt(w, i)[t] == w[4 * i + t]
  {}

  lemma SubstitutedBytes(p: Column, t: nat)
    requires t < 4
    ensures SubWord(p)[t] == S(p[t]) && SubWord(RotWord(p))[t] == S(p[(t + 1) % 4])
  {
    hide Sbox, S;
    SIsSbox(p[t]);
    SIsSbox(p[(t + 1) % 4]);
  }

  lemma RotatedIncrement(nk: nat, i: nat, p: Column, t: nat)
    requires KeyWords(nk) && nk <= i < 4 * (nk + 7) && i % nk == 0 && t < 4
    ensures i / nk >= 1
    ensures Increment(nk, i, p)[t] == if t == 0 then Xor(S(p[(t + 1) % 4]), PowerOfX(i / nk - 1)) else S(p[(t + 1) % 4])
  {
    hide SubWord, RotWord, Xor, S, PowerOfX;
    RconIndex(nk, i);
    RconIsPower(i / nk);
    SubstitutedBytes(p, t);
  }

  lemma OtherIncrement(nk: nat, i: nat, p: Column, t: nat)
    requires KeyWords(nk) && nk <= i < 4 * (nk + 7) && i % nk != 0 && t < 4
    ensures Increment(nk, i, p)[t] == if nk == 8 && i % 8 == 4 then S(p[t]) else p[t]
  {
    hide SubWord, RotWord, Xor, S;
    SubstitutedBytes(p, t);
  }

  lemma IncrementByByte(w: seq<Byte>, nk: nat, i: nat, t: nat)
    requires KeyWords(nk) && nk <= i < 4 * (nk + 7) && 4 * i <= |w| && t < 4
    ensures Increment(nk, i, WordAt(w, i - 1))[t] == AddedByte(w, nk, i, t)
  {
    hide WordAt, S, Xor, PowerOfX, Increment;
    WordBytes(w, i - 1, t);
    WordBytes(w, i - 1, (t + 1) % 4);
    if i % nk == 0 {
      RotatedIncrement(nk, i, WordAt(w, i - 1), t);
    } else {
      OtherIncrement(nk, i, WordAt(w, i - 1), t);
    }
  }

  /** What `KeyWord` adds to a word, on the bytes. */
  lemma ScheduleByByte(w: seq<Byte>, key: seq<Byte>, nk: nat)
    requires KeyWords(nk) && |key| == 4 * nk && 16 * (nk + 7) <= |w|
    requires forall i :: 0 <= i < 4 * (nk + 7) ==> WordAt(w, i) == KeyWord(key, nk, i)
    ensures Expanded(w, key, nk, 4 * (nk + 7))
  {
    hide WordAt, KeyWord, AddedByte;
    forall b | 0 <= b < 4 * nk
      ensures w[b] == key[b]
    {
      KeyByte(w, key, nk, b);
    }
    assert w[..4 * nk] == key;
    forall i, t | nk <= i < 4 * (nk + 7) && 0 <= t < 4
      ensures w[4 * i + t] == Xor(w[4 * (i - nk) + t], AddedByte(w, nk, i, t))
    {
      WordByByte(w, key, nk, i, t);
    }
  }

  lemma KeyByte(w: seq<Byte>, key: seq<Byte>, nk: nat, b: nat)
    requires KeyWords(nk) && |key| == 4 * nk <= |w| && b < 4 * nk
    requires WordAt(w, b / 4) == KeyWord(key, nk, b / 4)
    ensures w[b] == key[b]
  {
    WordBytes(w, b / 4, b % 4);
    WordBytes(key, b / 4, b % 4);
    hide WordAt;
    assert b == 4 * (b / 4) + b % 4;
  }

  lemma WordByByte(w: seq<Byte>, key: seq<Byte>, nk: nat, i: nat, t: nat)
    requires KeyWords(nk) && |key| == 4 * nk && nk <= i < 4 * (nk + 7) && 4 * i + 4 <= |w| && t < 4
    requires WordAt(w, i) == KeyWord(key, nk, i) && WordAt(w, i - nk) == KeyWord(key, nk, i - nk) && WordAt(w, i - 1) == KeyWord(key, nk, i - 1)
    ensures w[4 * i + t] == Xor(w[4 * (i - nk) + t], AddedByte(w, nk, i, t))
  {
    hide WordAt, Increment, AddedByte, Xor;
    WordBytes(w, i, t);
    WordBytes(w, i - nk, t);
    IncrementByByte(w, nk, i, t);
    assert KeyWord(key, nk, i) == XorSeq(KeyWord(key, nk, i - nk), Increment(nk, i, KeyWord(key, nk, i - 1)));
  }

  // ---- the in-place operations ----

  method SubstituteBytes(state: array<Byte>)
    requires state.Length == 16
    modifies state
    ensures state[..] == SubBytes(old(state[..]))
  {
    hide Sbox;
    for i := 0 to 16
      invariant forall k :: 0 <= k < i ==> state[k] == Sbox(old(state[k]))
      invariant forall k :: i <= k < 16 ==> state[k] == old(state[k])
    {
      state[i] := Sbox(state[i]);
    }
  }

  lemma RowsRotated(s: Block)
    ensures ShiftRows(s) == [s[0], s[5], s[10], s[15], s[4], s[9], s[14], s[3], s[8], s[13], s[2], s[7], s[12], s[1], s[6], s[11]]
  {
    hide ShiftIndex;
    ShiftIndices();
  }

  lemma ShiftIndices()
    ensures ShiftIndex(0) == 0 && ShiftIndex(1) == 5 && ShiftIndex(2) == 10 && ShiftIndex(3) == 15
    ensures ShiftIndex(4) == 4 && ShiftIndex(5) == 9 && ShiftIndex(6) == 14 && ShiftIndex(7) == 3
    ensures ShiftIndex(8) == 8 && ShiftIndex(9) == 13 && ShiftIndex(10) == 2 && ShiftIndex(11) == 7
    ensures ShiftIndex(12) == 12 && ShiftIndex(13) == 1 && ShiftIndex(14) == 6 && ShiftIndex(15) == 11
  {
    hide ShiftIndex;
    RowIndices(0);
    RowIndices(1);
    RowIndices(2);
    RowIndices(3);
  }

  lemma RowIndices(c: nat)
    requires c < 4
    ensures ShiftIndex(4 * c) == 4 * c && ShiftIndex(4 * c + 1) == 1 + 4 * ((c + 1) % 4)
    ensures ShiftIndex(4 * c + 2) == 2 + 4 * ((c + 2) % 4) && ShiftIndex(4 * c + 3) == 3 + 4 * ((c + 3) % 4)
  {
    hide ShiftIndex;
    ShiftIndexAt(0, c);
    ShiftIndexAt(1, c);
    ShiftIndexAt(2, c);
    ShiftIndexAt(3, c);
  }

  method RotateRows(state: array<Byte>)
    requires state.Length == 16
    modifies state
    ensures state[..] == ShiftRows(old(state[..]))
  {
    hide ShiftRows;
    RowsRotated(state[..]);
    var tmp := state[..];
    var rotated := [
      tmp[0], tmp[5], tmp[10], tmp[15],
      tmp[4], tmp[9], tmp[14], tmp[3],
      tmp[8], tmp[13], tmp[2], tmp[7],
      tmp[12], tmp[1], tmp[6], tmp[11]
    ];
    forall i | 0 <= i < 16 {
      state[i] := rotated[i];
    }
  }

  lemma BlockOfColumns(s: Block, t: Block)
    requires forall m :: 0 <= m < 4 ==> ColumnOf(t, m) == MixColumn(ColumnOf(s, m))
    ensures t == MixColumns(s)
  {
    hide MixColumn;
    forall i | 0 <= i < 16
      ensures t[i] == MixColumns(s)[i]
    {
      assert t[i] == ColumnOf(t, i / 4)[i % 4];
    }
  }

  method MixStateColumns(state: array<Byte>)
    requires state.Length == 16
    modifies state
    ensures state[..] == MixColumns(old(state[..]))
  {
    hide MixColumn, MixColumns, ColumnOf;
    ghost var before: Block := state[..];
    for c := 0 to 4
      invariant forall m :: 0 <= m < c ==> ColumnOf(state[..], m) == MixColumn(ColumnOf(before, m))
      invariant forall m :: c <= m < 4 ==> ColumnOf(state[..], m) == ColumnOf(before, m)
    {
      MixOneColumn(state, c);
    }
    BlockOfColumns(before, state[..]);
  }

  method MixOneColumn(state: array<Byte>, c: nat)
    requires state.Length == 16 && c < 4
    modifies state
    ensures ColumnOf(state[..], c) == MixColumn(ColumnOf(old(state[..]), c))
    ensures forall m :: 0 <= m < 4 && m != c ==> ColumnOf(state[..], m) == ColumnOf(old(state[..]), m)
  {
    hide MixColumn, ColumnOf;
    ghost var before: Block := state[..];
    var idx := c * 4;
    var a0, a1, a2, a3 := state[idx], state[idx + 1], state[idx + 2], state[idx + 3];
    ColumnAt(before, c);
    var b0, b1, b2, b3 := MixColumnBytes(a0, a1, a2, a3);
    state[idx] := b0;
    state[idx + 1] := b1;
    state[idx + 2] := b2;
    state[idx + 3] := b3;
    ColumnAt(state[..], c);
    OtherColumns(before, state[..], c);
  }

  lemma ColumnAt(s: Block, c: nat)
    requires c < 4
    ensures ColumnOf(s, c) == [s[4 * c], s[4 * c + 1], s[4 * c + 2], s[4 * c + 3]]
  {}

  lemma OtherColumns(s: Block, t: Block, c: nat)
    requires c < 4 && forall k :: 0 <= k < 16 && !(4 * c <= k < 4 * c + 4) ==> t[k] == s[k]
    ensures forall m :: 0 <= m < 4 && m != c ==> ColumnOf(t, m) == ColumnOf(s, m)
  {}

  method MixColumnBytes(a0: Byte, a1: Byte, a2: Byte, a3: Byte) returns (b0: Byte, b1: Byte, b2: Byte, b3: Byte)
    ensures [b0, b1, b2, b3] == MixColumn([a0, a1, a2, a3])
  {
    hide Xor, GfMul;
    var d0 := MultiplyBytes(a0, 2);
    var d1 := MultiplyBytes(a1, 2);
    var d2 := MultiplyBytes(a2, 2);
    var d3 := MultiplyBytes(a3, 2);
    var t0 := MultiplyBytes(a0, 3);
    var t1 := MultiplyBytes(a1, 3);
    var t2 := MultiplyBytes(a2, 3);
    var t3 := MultiplyBytes(a3, 3);
    b0 := d0 ^ t1 ^ a2 ^ a3;
    b1 := a0 ^ d1 ^ t2 ^ a3;
    b2 := a0 ^ a1 ^ d2 ^ t3;
    b3 := t0 ^ a1 ^ a2 ^ d3;
    XorAnyOrder(d0, t1, a2, a3);
    XorAnyOrder(d1, t2, a3, a0);
    XorAnyOrder(d2, t3, a0, a1);
    XorAnyOrder(d3, t0, a1, a2);
  }

  lemma XorAnyOrder(a: Byte, b: Byte, c: Byte, d: Byte)
    ensures Xor(Xor(a, b), Xor(c, d)) == a ^ b ^ c ^ d
    ensures a ^ b ^ c ^ d == d ^ a ^ b ^ c == c ^ d ^ a ^ b == b ^ c ^ d ^ a
  {}

  method CopyBlock(from: array<Byte>, to: array<Byte>)
    requires from.Length == to.Length
    modifies to
    ensures to[..] == old(from[..])
  {
    forall i | 0 <= i < from.Length {
      to[i] := from[i];
    }
  }

  class Context {
    const roundKeys: array<Byte>
    var rounds: nat

    ghost predicate Valid()
      reads this
    {
      roundKeys.Length == 240 && (rounds == 10 || rounds == 12 || rounds == 14)
    }

    constructor ()
      ensures roundKeys.Length == 240 && fresh(roundKeys) && rounds == 0
    {
      roundKeys := new Byte[240](_ => 0);
      rounds := 0;
    }

    method AddRoundKey(state: array<Byte>, round: nat)
      requires state.Length == 16 && state != roundKeys && 16 * (round + 1) <= roundKeys.Length
      modifies state
      ensures state[..] == XorSeq(old(state[..]), RoundKey(roundKeys[..], round))
    {
      hide Xor;
      for i := 0 to 16
        invariant forall k :: 0 <= k < i ==> state[k] == Xor(old(state[k]), roundKeys[16 * round + k])
        invariant forall k :: i <= k < 16 ==> state[k] == old(state[k])
        invariant roundKeys[..] == old(roundKeys[..])
      {
        state[i] := Xor(state[i], roundKeys[16 * round + i]);
      }
    }

    method EncryptBlock(input: array<Byte>, output: array<Byte>)
      requires Valid()
      requires input.Length == 16 && output.Length == 16 && output != roundKeys
      modifies output
      ensures output[..] == Cipher(roundKeys[..], rounds, old(input[..]))
      ensures exists states :: Encrypts(roundKeys[..], rounds, old(input[..]), states, output[..])
    {
      hide SubBytes, ShiftRows, MixColumns, XorSeq, RoundKey;
      ghost var s: Block := input[..];
      ghost var w := roundKeys[..];
      var state := new Byte[16];
      CopyBlock(input, state);
      AddRoundKey(state, 0);
      for round := 1 to rounds
        invariant state[..] == Rounds(w, s, round - 1)
        invariant roundKeys[..] == w
      {
        SubstituteBytes(state);
        RotateRows(state);
        MixStateColumns(state);
        AddRoundKey(state, round);
      }
      SubstituteBytes(state);
      RotateRows(state);
      AddRoundKey(state, rounds);
      CopyBlock(state, output);
      ghost var states := CipherByByte(w, rounds, s);
    }

    /** `simple_aes_setkey_enc`: the schedule words fill the buffer from its start; nothing else is touched. */
    method SetKeyEnc(key: array<Byte>, keyLen: nat) returns (rc: int)
      requires roundKeys.Length == 240 && key != roundKeys
      requires keyLen == 16 || keyLen == 24 || keyLen == 32 ==> keyLen <= key.Length
      modifies this, roundKeys
      ensures rc == if keyLen == 16 || keyLen == 24 || keyLen == 32 then 0 else -1
      ensures rc != 0 ==> rounds == old(rounds) && roundKeys[..] == old(roundKeys[..])
      ensures rc == 0 ==> Valid() && rounds == keyLen / 4 + 6
      ensures rc == 0 ==> forall i :: 0 <= i < 4 * (rounds + 1) ==> WordAt(roundKeys[..], i) == KeyWord(key[..keyLen], keyLen / 4, i)
      ensures rc == 0 ==> Expanded(roundKeys[..], key[..keyLen], keyLen / 4, 4 * (rounds + 1))
      ensures rc == 0 ==> forall b :: 16 * (rounds + 1) <= b < 240 ==> roundKeys[b] == old(roundKeys[b])
    {
      if keyLen != 16 && keyLen != 24 && keyLen != 32 {
        return -1;
      }
      var nk := keyLen / 4;
      rounds := nk + 6;
      forall i | 0 <= i < keyLen {
        roundKeys[i] := key[i];
      }
      assert roundKeys[..keyLen] == key[..keyLen];
      ExpandKey(roundKeys, nk, 4 * (rounds + 1));
      ScheduleByByte(roundKeys[..], key[..keyLen], nk);
      return 0;
    }

    /** The schedule loop, on a buffer that starts with the key. */
    static method ExpandKey(words: array<Byte>, nk: nat, totalWords: nat)
      requires KeyWords(nk) && totalWords == 4 * (nk + 7) && 4 * totalWords <= words.Length
      modifies words
      ensures forall i :: 0 <= i < totalWords ==> WordAt(words[..], i) == KeyWord(old(words[..4 * nk]), nk, i)
      ensures forall b :: 4 * totalWords <= b < words.Length ==> words[b] == old(words[b])
    {
      hide Increment, XorSeq, KeyWord, WordAt;
      ghost var k := words[..4 * nk];
      FirstWords(words[..], nk);
      for i := nk to totalWords
        invariant forall m :: 0 <= m < i ==> WordAt(words[..], m) == KeyWord(k, nk, m)
        invariant forall b :: 4 * totalWords <= b < words.Length ==> words[b] == old(words[b])
      {
        WordIsSlice(words[..], i - 1);
        NextWord(k, nk, i);
        var t := NextIncrement(nk, i, words[4 * (i - 1)..4 * i]);
        StoreXor(words, i, nk, t);
      }
    }

    static lemma FirstWords(words: seq<Byte>, nk: nat)
      requires KeyWords(nk) && 4 * nk <= |words|
      ensures forall m :: 0 <= m < nk ==> WordAt(words, m) == KeyWord(words[..4 * nk], nk, m)
    {
    }

    static lemma NextWord(key: seq<Byte>, nk: nat, i: nat)
      requires KeyWords(nk) && |key| == 4 * nk && nk <= i < 4 * (nk + 7)
      ensures KeyWord(key, nk, i) == XorSeq(KeyWord(key, nk, i - nk), Increment(nk, i, KeyWord(key, nk, i - 1)))
    {
    }

    static lemma WordIsSlice(words: seq<Byte>, i: nat)
      requires 4 * i + 4 <= |words|
      ensures WordAt(words, i) == words[4 * i..4 * (i + 1)]
    {
    }

    /** Word i becomes the exclusive or of word i - nk and t. */
    static method StoreXor(words: array<Byte>, i: nat, nk: nat, t: Column)
      requires 1 <= nk <= i && 4 * i + 4 <= words.Length
      modifies words
      ensures WordAt(words[..], i) == XorSeq(WordAt(old(words[..]), i - nk), t)
      ensures forall m :: 0 <= m < i ==> WordAt(words[..], m) == WordAt(old(words[..]), m)
      ensures forall b :: 4 * (i + 1) <= b < words.Length ==> words[b] == old(words[b])
    {
      hide Xor;
      forall j | 0 <= j < 4 {
        words[4 * i + j] := Xor(words[4 * (i - nk) + j], t[j]);
      }
    }

    /** The body of the schedule loop that turns the previous word into what is added. */
    static method NextIncrement(nk: nat, i: nat, previous: Column) returns (temp: Column)
      requires KeyWords(nk) && nk <= i < 4 * (nk + 7)
      ensures temp == Increment(nk, i, previous)
    {
      hide Sbox, Xor;
      temp := previous;
      if i % nk == 0 {
        temp := RotWord(temp);
        temp := SubWord(temp);
        temp := temp[0 := Xor(temp[0], RCON[i / nk])];
      } else if nk > 6 && i % nk == 4 {
        temp := SubWord(temp);
      }
    }
  }
}
