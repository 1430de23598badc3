/** Eight-bit bytes, their exclusive or, and the number that a run of bytes spells. */
module Bytes {

  type Byte = bv8

  function Xor(a: Byte, b: Byte): Byte {
    a ^ b
  }

  lemma XorAssoc(a: Byte, b: Byte, c: Byte)
    ensures Xor(Xor(a, b), c) == Xor(a, Xor(b, c))
  {}

  lemma XorComm(a: Byte, b: Byte)
    ensures Xor(a, b) == Xor(b, a)
  {}

  lemma XorCancel(a: Byte, b: Byte)
    ensures Xor(Xor(a, b), b) == a
    ensures Xor(b, Xor(b, a)) == a
  {}

  lemma XorSwap(a: Byte, b: Byte, c: Byte, d: Byte)
    ensures Xor(Xor(a, b), Xor(c, d)) == Xor(Xor(a, c), Xor(b, d))
  {
    hide Xor;
    XorAssoc(a, b, Xor(c, d));
    XorAssoc(b, c, d);
    XorComm(b, c);
    XorAssoc(c, b, d);
    XorAssoc(a, c, Xor(b, d));
  }

  /** Byte-wise exclusive or of two equally long strings of bytes. */
  function XorSeq(a: seq<Byte>, b: seq<Byte>): (r: seq<Byte>)
    requires |a| == |b|
    ensures |r| == |a| && forall i :: 0 <= i < |a| ==> r[i] == Xor(a[i], b[i])
  {
    seq(|a|, i requires 0 <= i < |a| => Xor(a[i], b[i]))
  }

  lemma XorSeqCancel(a: seq<Byte>, k: seq<Byte>)
    requires |a| == |k|
    ensures XorSeq(XorSeq(a, k), k) == a
  {
    hide Xor;
    forall i | 0 <= i < |a|
      ensures XorSeq(XorSeq(a, k), k)[i] == a[i]
    {
      XorCancel(a[i], k[i]);
    }
  }

  function ByteOf(n: nat): Byte
    requires n < 256
  {
    n as Byte
  }

  function FromByte(b: Byte): (n: nat)
    ensures n < 256
  {
    b as int
  }

  lemma {:induction false} FromByteOf(n: nat)
    requires n < 256
    ensures FromByte(ByteOf(n)) == n
  {
    if n > 0 {
      FromByteOf(n - 1);
      NextByte(ByteOf(n - 1));
      assert ByteOf(n) == ByteOf(n - 1) + 1;
    }
  }

  lemma ByteOfFrom(b: Byte)
    ensures ByteOf(FromByte(b)) == b
  {}

  /** The low byte of a number. */
  function ToByte(n: nat): Byte {
    ByteOf(n % 256)
  }

  lemma FromToByte(n: nat)
    ensures FromByte(ToByte(n)) == n % 256
  {
    FromByteOf(n % 256);
  }

  lemma ToFromByte(q: nat, b: Byte)
    ensures ToByte(q * 256 + FromByte(b)) == b
  {
    hide FromByte, ByteOf;
    assert (q * 256 + FromByte(b)) % 256 == FromByte(b);
    ByteOfFrom(b);
  }

  lemma NextByte(b: Byte)
    ensures b != 255 ==> FromByte(b + 1) == FromByte(b) + 1
    ensures b == 255 ==> FromByte(b + 1) == 0
  {}

  /** Numbers that fit in a `uint32_t`. */
  const WORD: nat := 0x1_0000_0000

  type Word = n: nat | n < 0x1_0000_0000

  /** The four bytes of a 32-bit number, most significant first. */
  function BigEndian(n: Word): (s: seq<Byte>)
    ensures |s| == 4
  {
    [ToByte(n / 0x100_0000), ToByte(n / 0x1_0000), ToByte(n / 0x100), ToByte(n)]
  }

  function BigEndianValue(s: seq<Byte>): Word
    requires |s| == 4
  {
    FromByte(s[0]) * 0x100_0000 + FromByte(s[1]) * 0x1_0000 + FromByte(s[2]) * 0x100 + FromByte(s[3])
  }

  /** Big-endian coding is a bijection between 32-bit numbers and strings of four bytes. */
  lemma BigEndianRoundTrip(n: Word)
    ensures BigEndianValue(BigEndian(n)) == n
  {
    hide FromByte, ToByte;
    FromToByte(n / 0x100_0000);
    FromToByte(n / 0x1_0000);
    FromToByte(n / 0x100);
    FromToByte(n);
    Digits(n);
  }

  lemma Digits(n: Word)
    ensures n == n / 0x100_0000 % 256 * 0x100_0000 + n / 0x1_0000 % 256 * 0x1_0000 + n / 0x100 % 256 * 0x100 + n % 256
  {
    LowDigit(n, n / 0x100);
    LowDigit(n / 0x100, n / 0x1_0000);
    LowDigit(n / 0x1_0000, n / 0x100_0000);
    assert n / 0x100_0000 < 256;
  }

  lemma LowDigit(n: nat, n1: nat)
    requires n1 == n / 256
    ensures n == 256 * n1 + n % 256
  {}

  lemma ShiftedDigits(b0: nat, b1: nat, b2: nat, b3: nat)
    requires b0 < 256 && b1 < 256 && b2 < 256 && b3 < 256
    ensures var n := b0 * 0x100_0000 + b1 * 0x1_0000 + b2 * 0x100 + b3;
      n / 0x100 == b0 * 0x1_0000 + b1 * 0x100 + b2 && n / 0x1_0000 == b0 * 0x100 + b1 && n / 0x100_0000 == b0
  {}

  lemma BigEndianValueRoundTrip(s: seq<Byte>)
    requires |s| == 4
    ensures BigEndian(BigEndianValue(s)) == s
  {
    hide FromByte, ToByte;
    var b0, b1, b2, b3 := FromByte(s[0]), FromByte(s[1]), FromByte(s[2]), FromByte(s[3]);
    ShiftedDigits(b0, b1, b2, b3);
    ToFromByte(0, s[0]);
    ToFromByte(b0, s[1]);
    ToFromByte(b0 * 0x100 + b1, s[2]);
    ToFromByte(b0 * 0x1_0000 + b1 * 0x100 + b2, s[3]);
  }
}
