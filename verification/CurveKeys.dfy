/** Curve25519 key material: the clamping of scalars. */
module CurveKeys {
  import opened Bytes
  import Arith

  type Key = s: seq<Byte> | |s| == 32 witness seq(32, _ => 0)

  /** `curve25519_ref10_clamp_scalar` as a function. */
  function Clamp(s: Key): Key {
    s[0 := ClampFirst(s[0])][31 := ClampLast(s[31])]
  }

  function ClampFirst(b: Byte): Byte {
    b & 248
  }

  function ClampLast(b: Byte): Byte {
    (b & 127) | 64
  }

  method ClampScalar(scalar: array<Byte>)
    requires scalar.Length == 32
    modifies scalar
    ensures scalar[..] == Clamp(old(scalar[..]))
  {
    scalar[0] := scalar[0] & 248;
    scalar[31] := scalar[31] & 127;
    scalar[31] := scalar[31] | 64;
  }

  /** The bytes of a key as one number, least significant first. */
  function Number(s: seq<Byte>): nat {
    if s == [] then 0 else FromByte(s[0]) + 256 * Number(s[1..])
  }

  function Power256(n: nat): (p: nat)
    ensures p > 0
  {
    if n == 0 then 1 else 256 * Power256(n - 1)
  }

  lemma {:induction false} NumberBound(s: seq<Byte>)
    ensures Number(s) < Power256(|s|)
  {
    hide FromByte;
    if s != [] {
      NumberBound(s[1..]);
    }
  }

  lemma {:induction false} NumberSplit(s: seq<Byte>, t: seq<Byte>)
    ensures Number(s + t) == Number(s) + Power256(|s|) * Number(t)
  {
    hide FromByte;
    if s == [] {
      assert s + t == t;
    } else {
      assert (s + t)[1..] == s[1..] + t;
      NumberSplit(s[1..], t);
      assert Power256(|s|) == 256 * Power256(|s| - 1);
      assert Number(s + t) == FromByte(s[0]) + 256 * Number(s[1..] + t);
      assert Number(s) == FromByte(s[0]) + 256 * Number(s[1..]);
      hide Number, Power256;
      Scale(FromByte(s[0]), Number(s[1..]), Power256(|s| - 1), Number(t));
    }
  }

  lemma Scale(b: nat, m: nat, p: nat, n: nat)
    ensures b + 256 * (m + p * n) == b + 256 * m + 256 * p * n
  {}

  lemma ClampedBytes(b: Byte)
    ensures FromByte(ClampFirst(b)) % 8 == 0 && ClampFirst(ClampFirst(b)) == ClampFirst(b)
    ensures 64 <= FromByte(ClampLast(b)) < 128 && ClampLast(ClampLast(b)) == ClampLast(b)
  {}

  /**
   * Clamping keeps bytes 1 to 30, is idempotent, and makes the scalar a multiple of 8 between 2^254 and
   * 2^255 (section 5 of RFC 7748).
   */
  lemma ClampMeaning(s: Key)
    ensures Clamp(s)[1..31] == s[1..31] && Clamp(Clamp(s)) == Clamp(s)
    ensures Number(Clamp(s)) % 8 == 0
    ensures 64 * Power256(31) <= Number(Clamp(s)) < 128 * Power256(31)
  {
    hide FromByte, ClampFirst, ClampLast, Number, Power256;
    ClampedBytes(s[0]);
    ClampedBytes(s[31]);
    EndsOfNumber(Clamp(s));
  }

  lemma EndsOfNumber(c: Key)
    requires FromByte(c[0]) % 8 == 0 && 64 <= FromByte(c[31]) < 128
    ensures Number(c) % 8 == 0 && 64 * Power256(31) <= Number(c) < 128 * Power256(31)
  {
    hide FromByte, Power256;
    LowEnd(c);
    assert c == c[..31] + [c[31]];
    NumberSplit(c[..31], [c[31]]);
    assert Number([c[31]]) == FromByte(c[31]) by { assert [c[31]][1..] == []; }
    NumberBound(c[..31]);
    hide Number;
    Bounds(Number(c[..31]), Power256(31), FromByte(c[31]));
  }

  lemma LowEnd(c: Key)
    requires FromByte(c[0]) % 8 == 0
    ensures Number(c) % 8 == 0
  {
    hide FromByte;
    assert Number(c) == FromByte(c[0]) + 256 * Number(c[1..]);
    hide Number;
    Mod8(FromByte(c[0]), Number(c[1..]));
  }

  lemma Mod8(a: nat, n: nat)
    requires a % 8 == 0
    ensures (a + 256 * n) % 8 == 0
  {}

  lemma Bounds(low: nat, p: nat, high: nat)
    requires low < p && 64 <= high < 128
    ensures 64 * p <= low + p * high < 128 * p
  {
    assert p * 64 <= p * high;
    assert p * high <= p * 127;
  }

  // ---- the clamped scalar as a number ----

  lemma ClampedNumbers(b: Byte)
    ensures FromByte(ClampFirst(b)) == FromByte(b) - FromByte(b) % 8
    ensures FromByte(ClampLast(b)) == 64 + FromByte(b) % 64
  {
    FirstBits(b);
    LastBits(b);
  }

  lemma FirstBits(b: Byte)
    ensures FromByte(ClampFirst(b)) == FromByte(b) - FromByte(b) % 8
  {}

  lemma LastBits(b: Byte)
    ensures FromByte(ClampLast(b)) == 64 + FromByte(b) % 64
  {}

  lemma NumberOfThree(first: Byte, middle: seq<Byte>, last: Byte)
    ensures Number([first] + middle + [last]) == FromByte(first) + 256 * Number(middle) + Power256(|middle| + 1) * FromByte(last)
  {
    hide FromByte, Power256, Number;
    NumberSplit([first] + middle, [last]);
    FirstOfNumber(first, middle);
    FirstOfNumber(last, []);
    NoBytes();
    assert [last] + [] == [last];
  }

  lemma FirstOfNumber(first: Byte, rest: seq<Byte>)
    ensures Number([first] + rest) == FromByte(first) + 256 * Number(rest)
  {
    hide FromByte;
    assert ([first] + rest)[1..] == rest;
  }

  lemma NoBytes()
    ensures Number([]) == 0
  {}

  /**
   * The clamped scalar is 2^254 plus the given number modulo 2^254, rounded down to a multiple of 8: the two top
   * bits are set to 01, the three lowest cleared, and every other bit stays.
   */
  lemma ClampedNumber(s: Key)
    ensures var top := 64 * Power256(31);
      Number(Clamp(s)) == top + Number(s) % top / 8 * 8
  {
    hide Clamp, Number, Power256;
    ClampRounds(s);
  }

  /** The number modulo top, rounded down to a multiple of 8. */
  function RoundedBelow(n: nat, top: nat): nat
    requires top > 0
  {
    n % top / 8 * 8
  }

  lemma ClampRounds(s: Key)
    ensures Number(Clamp(s)) == 64 * Power256(31) + RoundedBelow(Number(s), 64 * Power256(31))
  {
    hide FromByte, ClampFirst, ClampLast, Number, Power256, RoundedBelow;
    var middle := s[1..31];
    assert s == [s[0]] + middle + [s[31]];
    assert Clamp(s) == [ClampFirst(s[0])] + middle + [ClampLast(s[31])];
    NumberOfThree(s[0], middle, s[31]);
    NumberOfThree(ClampFirst(s[0]), middle, ClampLast(s[31]));
    ClampedNumbers(s[0]);
    ClampedNumbers(s[31]);
    NumberBound(middle);
    PowerStep(30);
    Rounded(FromByte(s[0]), Number(middle), Power256(30), Power256(31), FromByte(s[31]));
  }

  lemma PowerStep(n: nat)
    ensures Power256(n + 1) == 256 * Power256(n)
  {}

  lemma Rounded(first: nat, middle: nat, p: nat, q: nat, last: nat)
    requires first < 256 && middle < p && last < 256 && q == 256 * p
    ensures var n := first + 256 * middle + q * last;
      first - first % 8 + 256 * middle + q * (64 + last % 64) == 64 * q + RoundedBelow(n, 64 * q)
  {
    var n, top := first + 256 * middle + q * last, 64 * q;
    var x := first + 256 * middle + q * (last % 64);
    BelowTop(first, middle, p, last % 64);
    Remainder(n, top, x, last / 64, p, last);
    EighthOf(first, middle + p * (last % 64));
    Spread(p, middle, last % 64);
  }

  lemma BelowTop(first: nat, middle: nat, p: nat, high: nat)
    requires first < 256 && middle < p && high < 64
    ensures first + 256 * middle + 256 * p * high < 64 * (256 * p)
  {
    AtMost63(256 * p, high);
  }

  lemma AtMost63(q: nat, high: nat)
    requires high < 64
    ensures q * high <= q * 63
  {}

  lemma Remainder(n: nat, top: nat, x: nat, q: nat, p: nat, last: nat)
    requires top == 64 * (256 * p) && q == last / 64 && x < top
    requires n - x == 256 * p * last - 256 * p * (last % 64)
    ensures n % top == x
  {
    assert last == 64 * q + last % 64;
    assert n == top * q + x;
    Arith.AddMultiple(x, q, top);
    Arith.SmallMod(x, top);
  }

  lemma EighthOf(first: nat, rest: nat)
    ensures (first + 256 * rest) / 8 * 8 == first - first % 8 + 256 * rest
  {}

  lemma Spread(p: nat, middle: nat, high: nat)
    ensures 256 * (middle + p * high) == 256 * middle + 256 * p * high
    ensures 256 * p * (64 + high) == 64 * (256 * p) + 256 * p * high
  {}
}
