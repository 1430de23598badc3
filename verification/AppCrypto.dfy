/** Counter-mode encryption with generated initialisation vectors: src/app_crypto.c with the AES backend. */
module AppCrypto {
  import opened Bytes
  import opened Results
  import opened Entropy
  import opened SimpleAes
  import opened Hex
  import AesContext
  import EntropyThreads

  // ---- counter mode as a function (section 6.5 of NIST SP 800-38A) ----

  /** Input block j of a message: the vector, then the block number modulo 2^32, big-endian. */
  function CounterBlock(iv: Iv, j: nat): Block {
    iv + BigEndian(j % WORD)
  }

  predicate KeyedFor(w: seq<Byte>, rounds: nat) {
    1 <= rounds && 16 * (rounds + 1) <= |w|
  }

  function KeystreamBlock(w: seq<Byte>, rounds: nat, iv: Iv, j: nat): Block
    requires KeyedFor(w, rounds)
  {
    Cipher(w, rounds, CounterBlock(iv, j))
  }

  function KeystreamByte(w: seq<Byte>, rounds: nat, iv: Iv, k: nat): Byte
    requires KeyedFor(w, rounds)
  {
    KeystreamBlock(w, rounds, iv, k / 16)[k % 16]
  }

  function Ctr(w: seq<Byte>, rounds: nat, iv: Iv, data: seq<Byte>): (r: seq<Byte>)
    requires KeyedFor(w, rounds)
    ensures |r| == |data|
  {
    seq(|data|, k requires 0 <= k < |data| => Xor(data[k], KeystreamByte(w, rounds, iv, k)))
  }

  /**
   * Every byte of the result is the byte of data exclusive-ored with its byte of the enciphered counter block: the
   * vector, then the number of the block, counted from zero, as a big-endian 32-bit number.
   */
  lemma CtrByByte(w: seq<Byte>, rounds: nat, iv: Iv, data: seq<Byte>, k: nat, counter: Block)
    requires KeyedFor(w, rounds) && k < |data|
    requires counter[..12] == iv && BigEndianValue(counter[12..]) == k / 16 % WORD
    ensures Ctr(w, rounds, iv, data)[k] == Xor(data[k], Cipher(w, rounds, counter)[k % 16])
  {
    hide Cipher, Xor, BigEndian, BigEndianValue;
    BigEndianValueRoundTrip(counter[12..]);
    assert counter == counter[..12] + counter[12..];
    assert counter == CounterBlock(iv, k / 16);
  }

  /** Applying counter mode twice with one key and vector gives the data back. */
  lemma CtrUndone(w: seq<Byte>, rounds: nat, iv: Iv, data: seq<Byte>)
    requires KeyedFor(w, rounds)
    ensures Ctr(w, rounds, iv, Ctr(w, rounds, iv, data)) == data
  {
    hide Xor, KeystreamByte;
    forall k | 0 <= k < |data|
      ensures Ctr(w, rounds, iv, Ctr(w, rounds, iv, data))[k] == data[k]
    {
      XorCancel(data[k], KeystreamByte(w, rounds, iv, k));
    }
  }

  // ---- no keystream block twice ----

  lemma CounterBlocksDiffer(iv: Iv, j: nat, iv': Iv, j': nat)
    ensures CounterBlock(iv, j) == CounterBlock(iv', j') <==> iv == iv' && j % WORD == j' % WORD
  {
    hide BigEndian, BigEndianValue;
    if CounterBlock(iv, j) == CounterBlock(iv', j') {
      assert CounterBlock(iv, j)[..12] == iv && CounterBlock(iv', j')[..12] == iv';
      assert CounterBlock(iv, j)[12..] == BigEndian(j % WORD) && CounterBlock(iv', j')[12..] == BigEndian(j' % WORD);
      BigEndianRoundTrip(j % WORD);
      BigEndianRoundTrip(j' % WORD);
    }
  }

  lemma KeystreamBlocksDiffer(w: seq<Byte>, rounds: nat, iv: Iv, j: nat, iv': Iv, j': nat)
    requires KeyedFor(w, rounds)
    ensures KeystreamBlock(w, rounds, iv, j) == KeystreamBlock(w, rounds, iv', j') <==> iv == iv' && j % WORD == j' % WORD
  {
    hide Cipher, InvCipher, CounterBlock;
    CounterBlocksDiffer(iv, j, iv', j');
    CipherIsPermutation(w, rounds, CounterBlock(iv, j));
    CipherIsPermutation(w, rounds, CounterBlock(iv', j'));
  }

  /**
   * Over one boot, keystream block j of the m-th encryption and keystream block j' of the m'-th are
   * equal exactly when both the message numbers and the block numbers agree modulo 2^32. So no block
   * is used twice in the first 2^32 encryptions of at most 2^32 blocks each.
   */
  lemma KeystreamNeverReused(w: seq<Byte>, rounds: nat, seed: Iv, x: Word, ctr: Word, m: nat, j: nat, m': nat, j': nat)
    requires KeyedFor(w, rounds)
    ensures KeystreamBlock(w, rounds, IvOfCall(seed, x, ctr, m), j) == KeystreamBlock(w, rounds, IvOfCall(seed, x, ctr, m'), j')
      <==> m % WORD == m' % WORD && j % WORD == j' % WORD
  {
    hide KeystreamBlock, IvOfCall;
    KeystreamBlocksDiffer(w, rounds, IvOfCall(seed, x, ctr, m), j, IvOfCall(seed, x, ctr, m'), j');
    IvsRepeatExactly(seed, x, ctr, m, m');
  }

  /**
   * The same under every interleaving of threads: while at most 2^32 draws are made, two keystream blocks
   * of the boot are equal only if they are one block of one message of at most 2^32 blocks.
   */
  lemma InterleavedKeystreamNeverReused(w: seq<Byte>, rounds: nat, seed: Iv, x: Word, ctr: Word, actions: seq<EntropyThreads.Action>,
                                        m: nat, j: nat, m': nat, j': nat)
    requires KeyedFor(w, rounds) && j < WORD && j' < WORD
    requires var s := EntropyThreads.Run(EntropyThreads.Boot(seed, x, ctr), actions); |s.log| <= WORD && m < |s.issued| && m' < |s.issued|
    ensures var s := EntropyThreads.Run(EntropyThreads.Boot(seed, x, ctr), actions);
      KeystreamBlock(w, rounds, s.issued[m].iv, j) == KeystreamBlock(w, rounds, s.issued[m'].iv, j') <==> m == m' && j == j'
  {
    hide KeystreamBlock, EntropyThreads.Run, EntropyThreads.OfItsDraws, EntropyThreads.OnOrbit, EntropyThreads.Ascending, EntropyThreads.Apart;
    var s := EntropyThreads.Run(EntropyThreads.Boot(seed, x, ctr), actions);
    EntropyThreads.VectorsStayDistinct(seed, x, ctr, actions);
    KeystreamBlocksDiffer(w, rounds, s.issued[m].iv, j, s.issued[m'].iv, j');
  }

  // ---- the counter ----

  /** Bytes i..3 overflow and byte i - 1 absorbs the carry. */
  lemma CarryValue(before: seq<Byte>, after: seq<Byte>, i: nat)
    requires |before| == |after| == 4 && i <= 4
    requires forall k :: i <= k < 4 ==> before[k] == 255 && after[k] == 0
    requires i > 0 ==> before[i - 1] != 255 && after[i - 1] == Successor(before[i - 1])
    requires forall k :: 0 <= k < i - 1 ==> after[k] == before[k]
    ensures BigEndianValue(after) == (BigEndianValue(before) + 1) % WORD
  {
    LastByte();
    if i > 0 {
      NextByte(before[i - 1]);
    }
    ValueOf(before);
    ValueOf(after);
    hide FromByte, BigEndianValue;
    CarryNumbers(FromByte(before[0]), FromByte(before[1]), FromByte(before[2]), FromByte(before[3]),
                 FromByte(after[0]), FromByte(after[1]), FromByte(after[2]), FromByte(after[3]), i);
  }

  lemma CarryNumbers(b0: nat, b1: nat, b2: nat, b3: nat, a0: nat, a1: nat, a2: nat, a3: nat, i: nat)
    requires b0 < 256 && b1 < 256 && b2 < 256 && b3 < 256 && a0 < 256 && a1 < 256 && a2 < 256 && a3 < 256 && i <= 4
    requires if i <= 3 then b3 == 255 && a3 == 0 else a3 == b3 + 1
    requires if i <= 2 then b2 == 255 && a2 == 0 else if i == 3 then a2 == b2 + 1 else a2 == b2
    requires if i <= 1 then b1 == 255 && a1 == 0 else if i == 2 then a1 == b1 + 1 else a1 == b1
    requires if i == 0 then b0 == 255 && a0 == 0 else if i == 1 then a0 == b0 + 1 else a0 == b0
    ensures a0 * 0x100_0000 + a1 * 0x1_0000 + a2 * 0x100 + a3 == (b0 * 0x100_0000 + b1 * 0x1_0000 + b2 * 0x100 + b3 + 1) % WORD
  {}

  lemma LastByte()
    ensures FromByte(255) == 255 && FromByte(0) == 0
  {}

  lemma ValueOf(s: seq<Byte>)
    requires |s| == 4
    ensures BigEndianValue(s) == FromByte(s[0]) * 0x100_0000 + FromByte(s[1]) * 0x1_0000 + FromByte(s[2]) * 0x100 + FromByte(s[3])
  {}

  /** `increment_counter`: the last four bytes count up by one, big-endian, modulo 2^32; the vector stays. */
  method IncrementCounter(counter: array<Byte>)
    requires counter.Length == 16
    modifies counter
    ensures counter[..12] == old(counter[..12])
    ensures BigEndianValue(counter[12..]) == (old(BigEndianValue(counter[12..])) + 1) % WORD
  {
    hide BigEndianValue, Successor;
    ghost var before := counter[12..];
    var i := 15;
    while i >= 12
      invariant 11 <= i <= 15
      invariant counter[..12] == old(counter[..12])
      invariant forall k :: i < k < 16 ==> before[k - 12] == 255 && counter[k] == 0
      invariant forall k :: 12 <= k <= i ==> counter[k] == before[k - 12]
    {
      assert counter[i] == before[i - 12];
      Overflows(counter[i]);
      counter[i] := Successor(counter[i]);
      if counter[i] != 0 {
        CarryValue(before, counter[12..], i - 11);
        return;
      }
      assert counter[i] == 0 && before[i - 12] == 255;
      i := i - 1;
    }
    CarryValue(before, counter[12..], 0);
  }

  function Successor(b: Byte): Byte {
    b + 1
  }

  lemma Overflows(b: Byte)
    ensures Successor(b) == 0 <==> b == 255
  {}

  lemma NextCounterBlock(block: Block, next: Block, iv: Iv, j: nat)
    requires block == CounterBlock(iv, j)
    requires next[..12] == block[..12] && BigEndianValue(next[12..]) == (BigEndianValue(block[12..]) + 1) % WORD
    ensures next == CounterBlock(iv, j + 1)
  {
    hide BigEndian, BigEndianValue;
    assert block[..12] == iv && block[12..] == BigEndian(j % WORD);
    BigEndianRoundTrip(j % WORD);
    BigEndianValueRoundTrip(next[12..]);
    assert (j % WORD + 1) % WORD == (j + 1) % WORD;
    assert next == next[..12] + next[12..];
  }

  class Crypto {
    const ivSeed: array<Byte>
    const keyBuf: array<Byte>
    const aes: AesContext.Context
    var keyLen: nat
    var prngState: Word
    var ivCounter: Word
    var cryptoReady: bool
    var backendSelected: bool

    ghost predicate Valid()
      reads this, aes
    {
      && ivSeed.Length == 12 && keyBuf.Length == 32 && aes.roundKeys.Length == 240
      && ivSeed != keyBuf && ivSeed != aes.roundKeys && keyBuf != aes.roundKeys
      && (cryptoReady ==> aes.Valid())
    }

    /** The statics of the module as they are when the image starts. */
    constructor ()
      ensures Valid() && !IsEnabled() && prngState == 0x6d5a56a1 && ivCounter == 0
      ensures fresh(ivSeed) && fresh(keyBuf) && fresh(aes) && fresh(aes.roundKeys)
    {
      ivSeed := new Byte[12](_ => 0);
      keyBuf := new Byte[32](_ => 0);
      aes := new AesContext.Context();
      keyLen := 0;
      prngState, ivCounter := 0x6d5a56a1, 0;
      cryptoReady, backendSelected := false, false;
    }

    predicate IsEnabled()
      reads this
    {
      cryptoReady && backendSelected
    }

    /** What `app_crypto_init` answers: an error of the seed before one of the key. */
    static function InitCode(ivHex: string, keyHex: string): int {
      var iv, key := HexCode(ivHex, 12), HexCode(keyHex, 32);
      if iv < 0 then iv else if iv != 12 then -EINVAL
      else if key < 0 then key else if key !in {16, 24, 32} then -EINVAL else 0
    }

    /** `app_crypto_init` with the AES backend selected. */
    method Init(ivHex: string, keyHex: string) returns (rc: int)
      requires Valid()
      modifies this, ivSeed, keyBuf, aes, aes.roundKeys
      ensures Valid() && prngState == old(prngState) && ivCounter == old(ivCounter)
      ensures rc == InitCode(ivHex, keyHex)
      ensures HexCode(ivHex, 12) < 0 ==> rc == HexCode(ivHex, 12)
      ensures 0 <= HexCode(ivHex, 12) != 12 ==> rc == -EINVAL
      ensures HexCode(ivHex, 12) == 12 && HexCode(keyHex, 32) < 0 ==> rc == HexCode(keyHex, 32)
      ensures rc == 0 <==> Decode(ivHex, 12).Some? && (Decode(keyHex, 16).Some? || Decode(keyHex, 24).Some? || Decode(keyHex, 32).Some?)
      ensures rc == 0 ==> IsEnabled() && Decode(ivHex, 12) == Some(ivSeed[..])
      ensures rc == 0 ==> AesContext.KeyWords(keyLen / 4) && keyLen % 4 == 0 && Decode(keyHex, keyLen) == Some(keyBuf[..keyLen])
      ensures rc == 0 ==> aes.rounds == keyLen / 4 + 6 && forall i :: 0 <= i < 4 * (aes.rounds + 1) ==>
        AesContext.WordAt(aes.roundKeys[..], i) == AesContext.KeyWord(keyBuf[..keyLen], keyLen / 4, i)
      ensures rc != 0 ==> cryptoReady == old(cryptoReady)
    {
      rc := ParseHexString(ivHex, ivSeed, 12);
      if rc < 0 || rc != 12 {
        return if rc < 0 then rc else -EINVAL;
      }
      assert ivSeed[..12] == ivSeed[..];
      ghost var seed := ivSeed[..];
      backendSelected := true;
      rc := ParseHexString(keyHex, keyBuf, 32);
      if rc < 0 {
        return rc;
      }
      keyLen := rc;
      if !(keyLen == 16 || keyLen == 24 || keyLen == 32) {
        return -EINVAL;
      }
      rc := aes.SetKeyEnc(keyBuf, keyLen);
      assert rc == 0;
      cryptoReady := true;
      return 0;
    }

    /** `next_pseudo_entropy` with no other thread in between: the swap succeeds at once. */
    method NextPseudoEntropy() returns (bytes: seq<Byte>)
      modifies this`prngState
      ensures prngState == NextState(old(prngState))
      ensures bytes == Drawn(prngState)
    {
      var current := prngState;
      var next := (current * MULTIPLIER + INCREMENT) % WORD;
      prngState := next;
      bytes := InMemory(Mix(Bits(next)));
    }

    method GenerateIv(ivOut: array<Byte>)
      requires Valid() && ivOut.Length == 12 && ivOut != ivSeed
      modifies this`prngState, this`ivCounter, ivOut
      ensures ivOut[..] == IvOfCall(old(ivSeed[..]), old(prngState), old(ivCounter), 0)
      ensures prngState == StateAfter(old(prngState), 3)
      ensures ivCounter == (old(ivCounter) + 1) % WORD
    {
      hide Drawn, BigEndian, StateAfter, XorSeq;
      ghost var x, seed := prngState, ivSeed[..];
      FillFromDraws(ivOut);
      var ctr := ivCounter;
      ivCounter := (ivCounter + 1) % WORD;
      XorInto(ivOut, ivSeed[..]);
      assert ivSeed[..] == seed;
      XorInto(ivOut, [0, 0, 0, 0, 0, 0, 0, 0] + BigEndian(ctr));
    }

    /** The first loop of `generate_iv`: one draw for every four bytes. */
    method FillFromDraws(ivOut: array<Byte>)
      requires ivOut.Length == 12
      modifies this`prngState, ivOut
      ensures prngState == StateAfter(old(prngState), 3)
      ensures ivOut[..] == Drawn(StateAfter(old(prngState), 1)) + Drawn(StateAfter(old(prngState), 2)) + Drawn(StateAfter(old(prngState), 3))
    {
      hide Drawn, NextState;
      ghost var x := prngState;
      for w := 0 to 3
        invariant prngState == StateAfter(x, w)
        invariant forall v :: 0 <= v < w ==> ivOut[4 * v..4 * v + 4] == Drawn(StateAfter(x, v + 1))
      {
        var rnd := NextPseudoEntropy();
        for i := 0 to 4
          invariant prngState == StateAfter(x, w + 1)
          invariant ivOut[4 * w..4 * w + i] == rnd[..i]
          invariant forall v :: 0 <= v < w ==> ivOut[4 * v..4 * v + 4] == Drawn(StateAfter(x, v + 1))
        {
          ivOut[4 * w + i] := rnd[i];
        }
      }
      assert ivOut[..] == ivOut[4 * 0..4 * 0 + 4] + ivOut[4 * 1..4 * 1 + 4] + ivOut[4 * 2..4 * 2 + 4];
    }

    /** The two loops that follow it. */
    static method XorInto(a: array<Byte>, s: seq<Byte>)
      requires a.Length == |s|
      modifies a
      ensures a[..] == XorSeq(old(a[..]), s)
    {
      hide Xor;
      for i := 0 to |s|
        invariant forall k :: 0 <= k < i ==> a[k] == Xor(old(a[k]), s[k])
        invariant forall k :: i <= k < |s| ==> a[k] == old(a[k])
      {
        a[i] := Xor(a[i], s[i]);
      }
    }

    /** `ctr_process`; the input and the output may be the same buffer. */
    method CtrProcess(input: array<Byte>, output: array<Byte>, len: nat, iv: array<Byte>)
      requires Valid() && aes.Valid() && iv.Length == 12
      requires len <= input.Length && len <= output.Length && output != aes.roundKeys
      modifies output
      ensures output[..len] == Ctr(aes.roundKeys[..], aes.rounds, old(iv[..]), old(input[..len]))
      ensures forall k :: len <= k < output.Length ==> output[k] == old(output[k])
    {
      hide KeystreamBlock, Xor, BigEndianValue, CounterBlock, Cipher;
      ghost var w, rounds, iv0: Iv, data := aes.roundKeys[..], aes.rounds, iv[..], input[..len];
      var counter := new Byte[16](i requires 0 <= i < 16 reads iv => if i < 12 then iv[i] else 0);
      FirstCounterBlock(counter[..], iv0);
      var stream := new Byte[16];
      var pos := 0;
      ghost var j, spec := 0, Ctr(w, rounds, iv0, data);
      hide Ctr;
      while pos < len
        invariant pos <= len && pos == (if 16 * j < len then 16 * j else len)
        invariant counter[..] == CounterBlock(iv0, j)
        invariant aes.roundKeys[..] == w
        invariant forall k :: 0 <= k < pos ==> output[k] == spec[k]
        invariant forall k :: pos <= k < len ==> input[k] == data[k]
        invariant forall k :: len <= k < output.Length ==> output[k] == old(output[k])
      {
        aes.EncryptBlock(counter, stream);
        ghost var block := stream[..];
        var chunk := if len - pos < 16 then len - pos else 16;
        XorChunk(input, output, stream, pos, chunk);
        ChunkIsSpecified(w, rounds, iv0, j, block, data, output[..], pos, chunk);
        pos := pos + chunk;
        ghost var used := counter[..];
        IncrementCounter(counter);
        NextCounterBlock(used, counter[..], iv0, j);
        j := j + 1;
      }
      assert output[..len] == spec;
    }

    /** The inner loop: one block of keystream, or what is left of the message. */
    static method XorChunk(input: array<Byte>, output: array<Byte>, stream: array<Byte>, pos: nat, chunk: nat)
      requires chunk <= 16 == stream.Length && pos + chunk <= input.Length && pos + chunk <= output.Length && stream != output
      modifies output
      ensures forall i :: 0 <= i < chunk ==> output[pos + i] == Xor(old(input[pos + i]), old(stream[i]))
      ensures forall k :: 0 <= k < output.Length && !(pos <= k < pos + chunk) ==> output[k] == old(output[k])
    {
      hide Xor;
      for i := 0 to chunk
        invariant forall k :: pos <= k < pos + i ==> output[k] == Xor(old(input[k]), old(stream[k - pos]))
        invariant forall k :: 0 <= k < output.Length && !(pos <= k < pos + i) ==> output[k] == old(output[k])
      {
        output[pos + i] := Xor(input[pos + i], stream[i]);
      }
    }

    static lemma ChunkIsSpecified(w: seq<Byte>, rounds: nat, iv: Iv, j: nat, block: Block, data: seq<Byte>, out: seq<Byte>, pos: nat, chunk: nat)
      requires KeyedFor(w, rounds) && block == Cipher(w, rounds, CounterBlock(iv, j))
      requires pos == 16 * j && chunk <= 16 && pos + chunk <= |data| <= |out|
      requires forall i :: 0 <= i < chunk ==> out[pos + i] == Xor(data[pos + i], block[i])
      ensures forall k :: pos <= k < pos + chunk ==> out[k] == Ctr(w, rounds, iv, data)[k]
    {
      hide Cipher, Xor, CounterBlock;
      forall k | pos <= k < pos + chunk
        ensures out[k] == Ctr(w, rounds, iv, data)[k]
      {
        assert k / 16 == j && k % 16 == k - pos;
        assert out[pos + (k - pos)] == Xor(data[pos + (k - pos)], block[k - pos]);
      }
    }

    static lemma FirstCounterBlock(block: Block, iv: Iv)
      requires forall i :: 0 <= i < 12 ==> block[i] == iv[i]
      requires forall i :: 12 <= i < 16 ==> block[i] == 0
      ensures block == CounterBlock(iv, 0)
    {
      ZeroCounter();
    }

    static lemma ZeroCounter()
      ensures BigEndian(0) == [0, 0, 0, 0]
    {}

    /** `app_crypto_encrypt_buffer` */
    method EncryptBuffer(input: array<Byte>, inputLen: nat, cipherOut: array<Byte>, cipherCapacity: nat, ivOut: array<Byte>)
      returns (rc: int, cipherLen: nat)
      requires Valid() && inputLen <= input.Length && cipherCapacity <= cipherOut.Length && ivOut.Length == 12
      requires cipherOut != aes.roundKeys && ivOut != aes.roundKeys && cipherOut != ivOut && ivOut != ivSeed
      modifies this`prngState, this`ivCounter, cipherOut, ivOut
      ensures rc == if !IsEnabled() then -EACCES else if inputLen == 0 then -EINVAL else if cipherCapacity < inputLen then -ENOSPC else 0
      ensures rc != 0 ==> prngState == old(prngState) && ivCounter == old(ivCounter)
      ensures rc != 0 ==> cipherOut[..] == old(cipherOut[..]) && ivOut[..] == old(ivOut[..]) && cipherLen == 0
      ensures rc == 0 ==> ivOut[..] == IvOfCall(old(ivSeed[..]), old(prngState), old(ivCounter), 0)
      ensures rc == 0 ==> prngState == StateAfter(old(prngState), 3) && ivCounter == (old(ivCounter) + 1) % WORD
      ensures rc == 0 ==> cipherLen == inputLen
      ensures rc == 0 ==> forall k :: inputLen <= k < cipherOut.Length ==> cipherOut[k] == old(cipherOut[k])
      ensures rc == 0 ==> cipherOut[..inputLen] == Ctr(aes.roundKeys[..], aes.rounds, ivOut[..], old(input[..inputLen]))
    {
      cipherLen := 0;
      if !IsEnabled() {
        return -EACCES, 0;
      }
      if inputLen == 0 {
        return -EINVAL, 0;
      }
      if cipherCapacity < inputLen {
        return -ENOSPC, 0;
      }
      hide IvOfCall, Ctr, StateAfter;
      var ivTmp := new Byte[12];
      GenerateIv(ivTmp);
      CtrProcess(input, cipherOut, inputLen, ivTmp);
      AesContext.CopyBlock(ivTmp, ivOut);
      return 0, inputLen;
    }

    /** `app_crypto_decrypt_buffer` */
    method DecryptBuffer(cipher: array<Byte>, cipherLen: nat, iv: array<Byte>, plainOut: array<Byte>, plainCapacity: nat)
      returns (rc: int, plainLen: nat)
      requires Valid() && cipherLen <= cipher.Length && plainCapacity <= plainOut.Length && iv.Length == 12
      requires plainOut != aes.roundKeys
      modifies plainOut
      ensures rc == if !IsEnabled() then -EACCES else if cipherLen == 0 then -EINVAL else if plainCapacity < cipherLen then -ENOSPC else 0
      ensures rc != 0 ==> plainOut[..] == old(plainOut[..]) && plainLen == 0
      ensures rc == 0 ==> plainLen == cipherLen
      ensures rc == 0 ==> forall k :: cipherLen <= k < plainOut.Length ==> plainOut[k] == old(plainOut[k])
      ensures rc == 0 ==> plainOut[..cipherLen] == Ctr(aes.roundKeys[..], aes.rounds, old(iv[..]), old(cipher[..cipherLen]))
    {
      plainLen := 0;
      if !IsEnabled() {
        return -EACCES, 0;
      }
      if cipherLen == 0 {
        return -EINVAL, 0;
      }
      if plainCapacity < cipherLen {
        return -ENOSPC, 0;
      }
      hide Ctr;
      CtrProcess(cipher, plainOut, cipherLen, iv);
      return 0, cipherLen;
    }
  }

  /** Encrypting a buffer and decrypting the result gives the plaintext back. */
  method SealAndOpen(c: Crypto, text: array<Byte>) returns (plain: array<Byte>)
    requires c.Valid() && c.IsEnabled() && text.Length > 0
    modifies c`prngState, c`ivCounter
    ensures plain[..] == old(text[..])
  {
    hide Ctr, IvOfCall, StateAfter;
    var sealed, iv := new Byte[text.Length], new Byte[12];
    plain := new Byte[text.Length];
    ghost var w, rounds, message := c.aes.roundKeys[..], c.aes.rounds, text[..];
    assert text[..text.Length] == message;
    var rc, n := c.EncryptBuffer(text, text.Length, sealed, text.Length, iv);
    assert sealed[..text.Length] == Ctr(w, rounds, iv[..], message);
    rc, n := c.DecryptBuffer(sealed, text.Length, iv, plain, text.Length);
    CtrUndone(w, rounds, iv[..], message);
    assert plain[..] == plain[..text.Length];
  }

  // ---- the encryptions of a boot ----

  /** A message as it left `app_crypto_encrypt_buffer`. */
  datatype Sent = Sent(iv: Iv, cipher: seq<Byte>)

  /** The messages that are not refused. */
  function NonEmpty(texts: seq<seq<Byte>>): seq<seq<Byte>> {
    if texts == [] then []
    else NonEmpty(texts[..|texts| - 1]) + (if texts[|texts| - 1] == [] then [] else [texts[|texts| - 1]])
  }

  /** One call of `app_crypto_encrypt_buffer`, into buffers of its own. */
  method SealOne(c: Crypto, text: seq<Byte>) returns (sent: Sent)
    requires c.Valid() && c.IsEnabled() && text != []
    modifies c`prngState, c`ivCounter
    ensures sent.iv == IvOfCall(old(c.ivSeed[..]), old(c.prngState), old(c.ivCounter), 0)
    ensures sent.cipher == Ctr(c.aes.roundKeys[..], c.aes.rounds, sent.iv, text)
    ensures c.prngState == StateAfter(old(c.prngState), 3) && c.ivCounter == (old(c.ivCounter) + 1) % WORD
  {
    hide Ctr, IvOfCall, StateAfter;
    var plain, cipher, iv := new Byte[|text|](k requires 0 <= k < |text| => text[k]), new Byte[|text|], new Byte[12];
    assert plain[..|text|] == text;
    var rc, n := c.EncryptBuffer(plain, |text|, cipher, |text|, iv);
    assert cipher[..|text|] == cipher[..];
    sent := Sent(iv[..], cipher[..]);
  }

  /**
   * Sealing one message after another: the m-th that is accepted draws the m-th vector and is encrypted
   * under it, and no keystream block serves two blocks of all these messages.
   */
  method SealAll(c: Crypto, texts: seq<seq<Byte>>) returns (sent: seq<Sent>)
    requires c.Valid() && c.IsEnabled()
    modifies c`prngState, c`ivCounter
    ensures |sent| == |NonEmpty(texts)|
    ensures forall m :: 0 <= m < |sent| ==>
      && sent[m].iv == IvOfCall(old(c.ivSeed[..]), old(c.prngState), old(c.ivCounter), m)
      && sent[m].cipher == Ctr(c.aes.roundKeys[..], c.aes.rounds, sent[m].iv, NonEmpty(texts)[m])
    ensures |sent| <= WORD ==>
      forall m, j, m', j' :: 0 <= m < |sent| && 0 <= m' < |sent| && 0 <= j < WORD && 0 <= j' < WORD ==>
        (KeystreamBlock(c.aes.roundKeys[..], c.aes.rounds, sent[m].iv, j) == KeystreamBlock(c.aes.roundKeys[..], c.aes.rounds, sent[m'].iv, j')
         <==> m == m' && j == j')
  {
    hide Ctr, IvOfCall, StateAfter, KeystreamBlock, Cipher;
    ghost var w, rounds, seed: Iv, x, ctr := c.aes.roundKeys[..], c.aes.rounds, c.ivSeed[..], c.prngState, c.ivCounter;
    sent := [];
    NoCallsYet(x, ctr);
    for i := 0 to |texts|
      invariant c.Valid() && c.IsEnabled() && c.aes.roundKeys[..] == w && c.aes.rounds == rounds && c.ivSeed[..] == seed
      invariant |sent| == |NonEmpty(texts[..i])|
      invariant c.prngState == StateAfter(x, 3 * |sent|) && c.ivCounter == (ctr + |sent|) % WORD
      invariant forall m :: 0 <= m < |sent| ==>
        sent[m].iv == IvOfCall(seed, x, ctr, m) && sent[m].cipher == Ctr(w, rounds, sent[m].iv, NonEmpty(texts[..i])[m])
    {
      var text := texts[i];
      assert texts[..i + 1][..i] == texts[..i];
      if text != [] {
        IvOfLaterCall(seed, x, ctr, |sent|, 0);
        MoreDraws(x, ctr, |sent|);
        var next := SealOne(c, text);
        sent := sent + [next];
      }
    }
    assert texts[..|texts|] == texts;
    AllBlocksDiffer(w, rounds, seed, x, ctr, sent);
  }

  lemma NoCallsYet(x: Word, ctr: Word)
    ensures StateAfter(x, 0) == x && (ctr + 0) % WORD == ctr
  {}

  lemma MoreDraws(x: Word, ctr: Word, n: nat)
    ensures StateAfter(StateAfter(x, 3 * n), 3) == StateAfter(x, 3 * (n + 1))
    ensures ((ctr + n) % WORD + 1) % WORD == (ctr + (n + 1)) % WORD
  {
    hide StateAfter;
    StateAfterCompose(x, 3 * n, 3);
    assert 3 * n + 3 == 3 * (n + 1);
    OneMoreCall(ctr + n);
  }

  lemma OneMoreCall(n: nat)
    ensures (n % WORD + 1) % WORD == (n + 1) % WORD
  {}

  lemma AllBlocksDiffer(w: seq<Byte>, rounds: nat, seed: Iv, x: Word, ctr: Word, sent: seq<Sent>)
    requires KeyedFor(w, rounds) && forall m :: 0 <= m < |sent| ==> sent[m].iv == IvOfCall(seed, x, ctr, m)
    ensures |sent| <= WORD ==>
      forall m, j, m', j' :: 0 <= m < |sent| && 0 <= m' < |sent| && 0 <= j < WORD && 0 <= j' < WORD ==>
        (KeystreamBlock(w, rounds, sent[m].iv, j) == KeystreamBlock(w, rounds, sent[m'].iv, j') <==> m == m' && j == j')
  {
    hide KeystreamBlock, IvOfCall;
    if |sent| <= WORD {
      forall m, j, m', j' | 0 <= m < |sent| && 0 <= m' < |sent| && 0 <= j < WORD && 0 <= j' < WORD
        ensures KeystreamBlock(w, rounds, sent[m].iv, j) == KeystreamBlock(w, rounds, sent[m'].iv, j') <==> m == m' && j == j'
      {
        KeystreamNeverReused(w, rounds, seed, x, ctr, m, j, m', j');
      }
    }
  }
}
