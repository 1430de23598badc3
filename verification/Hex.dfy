/** The hexadecimal coders that src/app_crypto.c, src/uart_commands.c, src/persist_state.c and src/main.c share. */
module Hex {
  import opened Bytes
  import opened Results

  /** `hex_value` and its three copies. */
  function HexValue(c: char): (v: int)
    ensures -1 <= v < 16
  {
    if '0' <= c <= '9' then c as int - '0' as int
    else if 'a' <= c <= 'f' then 10 + (c as int - 'a' as int)
    else if 'A' <= c <= 'F' then 10 + (c as int - 'A' as int)
    else -1
  }

  predicate IsHex(s: string) {
    forall i :: 0 <= i < |s| ==> HexValue(s[i]) >= 0
  }

  function Combine(hi: int, lo: int): Byte
    requires 0 <= hi < 16 && 0 <= lo < 16
  {
    ByteOf(16 * hi + lo)
  }

  /** Byte i that a string of digits spells. */
  function HexByte(s: string, i: nat): Byte
    requires IsHex(s) && 2 * i + 1 < |s|
  {
    Combine(HexValue(s[2 * i]), HexValue(s[2 * i + 1]))
  }

  /** The bytes a string of exactly 2n digits spells, and nothing for any other string. */
  function Decode(s: string, n: nat): (r: Option<seq<Byte>>)
    ensures r.Some? ==> |r.value| == n
  {
    if |s| == 2 * n && IsHex(s) then Some(seq(n, i requires 0 <= i < n => HexByte(s, i))) else None
  }

  const UPPER := "0123456789ABCDEF"
  const LOWER := "0123456789abcdef"

  /** Every byte as two digits of the given alphabet, high digit first. */
  function Encode(digits: string, bytes: seq<Byte>): (s: string)
    requires |digits| == 16
    ensures |s| == 2 * |bytes|
  {
    seq(2 * |bytes|, k requires 0 <= k < 2 * |bytes| => Digit(digits, bytes[k / 2], k % 2 == 0))
  }

  function Digit(digits: string, b: Byte, high: bool): char
    requires |digits| == 16
  {
    digits[if high then FromByte(b) / 16 else FromByte(b) % 16]
  }

  lemma DigitValue(digits: string, n: nat)
    requires digits == UPPER || digits == LOWER
    requires n < 16
    ensures HexValue(digits[n]) == n
  {}

  /** The digits are those of the two alphabets and no other character. */
  lemma DigitsExactly(c: char)
    ensures HexValue(c) >= 0 <==> c in UPPER || c in LOWER
  {
    if HexValue(c) >= 0 {
      var n := HexValue(c);
      if '0' <= c <= '9' || 'A' <= c <= 'F' {
        CharOf(UPPER, n, c);
      } else {
        CharOf(LOWER, n, c);
      }
    }
    if c in UPPER {
      var n :| 0 <= n < 16 && UPPER[n] == c;
      DigitValue(UPPER, n);
    }
    if c in LOWER {
      var n :| 0 <= n < 16 && LOWER[n] == c;
      DigitValue(LOWER, n);
    }
  }

  lemma CharOf(digits: string, n: nat, c: char)
    requires digits == UPPER || digits == LOWER
    requires n < 16 && c as int == (if n < 10 then '0' as int + n else digits[10] as int + n - 10)
    ensures digits[n] == c
  {}

  /** The digit of value n in either alphabet. */
  predicate Spells(c: char, n: nat)
    requires n < 16
  {
    c == UPPER[n] || c == LOWER[n]
  }

  /** Pair i of the text. */
  predicate SpellPair(s: string, i: nat, hi: nat, lo: nat)
    requires 2 * i + 1 < |s| && hi < 16 && lo < 16
  {
    Spells(s[2 * i], hi) && Spells(s[2 * i + 1], lo)
  }

  /** Decoding succeeds exactly on 2n digits; of the two digits of a byte the first counts sixteenfold. */
  lemma DecodeMeaning(s: string, n: nat)
    ensures Decode(s, n).Some? <==> |s| == 2 * n && forall k :: 0 <= k < |s| ==> s[k] in UPPER || s[k] in LOWER
    ensures Decode(s, n).Some? ==>
      forall i, hi, lo :: 0 <= i < n && 0 <= hi < 16 && 0 <= lo < 16 && SpellPair(s, i, hi, lo) ==>
        FromByte(Decode(s, n).value[i]) == 16 * hi + lo
  {
    hide HexValue, FromByte, Combine;
    forall k | 0 <= k < |s|
      ensures HexValue(s[k]) >= 0 <==> s[k] in UPPER || s[k] in LOWER
    {
      DigitsExactly(s[k]);
    }
    if Decode(s, n).Some? {
      forall i, hi, lo | 0 <= i < n && 0 <= hi < 16 && 0 <= lo < 16 && SpellPair(s, i, hi, lo)
        ensures FromByte(Decode(s, n).value[i]) == 16 * hi + lo
      {
        DigitValue(UPPER, hi);
        DigitValue(LOWER, hi);
        DigitValue(UPPER, lo);
        DigitValue(LOWER, lo);
        CombineValue(hi, lo);
      }
    }
  }

  lemma CombineValue(hi: nat, lo: nat)
    requires hi < 16 && lo < 16
    ensures FromByte(Combine(hi, lo)) == 16 * hi + lo
  {
    FromByteOf(16 * hi + lo);
  }

  lemma CombineDigits(b: Byte)
    ensures var n := FromByte(b); 16 * (n / 16) + n % 16 == n && Combine(n / 16, n % 16) == b
  {
    ByteOfFrom(b);
    hide FromByte, ByteOf;
  }

  /** Decoding undoes encoding, in either case of the digits. */
  lemma DecodeEncode(digits: string, bytes: seq<Byte>)
    requires digits == UPPER || digits == LOWER
    ensures Decode(Encode(digits, bytes), |bytes|) == Some(bytes)
  {
    hide Combine, FromByte, Digit;
    var s := Encode(digits, bytes);
    forall k | 0 <= k < |s|
      ensures HexValue(s[k]) >= 0
    {
      DigitOfByte(digits, bytes[k / 2]);
    }
    forall i | 0 <= i < |bytes|
      ensures HexByte(s, i) == bytes[i]
    {
      assert (2 * i) / 2 == i && (2 * i + 1) / 2 == i;
      DigitOfByte(digits, bytes[i]);
    }
    assert Decode(s, |bytes|).value == bytes;
  }

  lemma DigitOfByte(digits: string, b: Byte)
    requires digits == UPPER || digits == LOWER
    ensures var hi, lo := HexValue(Digit(digits, b, true)), HexValue(Digit(digits, b, false));
      hi >= 0 && lo >= 0 && Combine(hi, lo) == b
  {
    hide FromByte;
    DigitValue(digits, FromByte(b) / 16);
    DigitValue(digits, FromByte(b) % 16);
    CombineDigits(b);
    hide HexValue;
  }

  // ---- the decoding loops ----

  /** The loop that all four decoders contain: stops at the first pair that is not two digits. */
  method DecodePairs(s: string, out: array<Byte>, n: nat) returns (rc: int)
    requires 2 * n <= |s| && n <= out.Length
    modifies out
    ensures rc == if IsHex(s[..2 * n]) then 0 else -EINVAL
    ensures rc == 0 ==> Decode(s[..2 * n], n) == Some(out[..n])
    ensures out[n..] == old(out[n..])
  {
    hide Combine;
    var i := 0;
    while i < n
      invariant i <= n && IsHex(s[..2 * i])
      invariant forall k :: 0 <= k < i ==> out[k] == HexByte(s[..2 * i], k)
      invariant out[n..] == old(out[n..])
    {
      var hi := HexValue(s[2 * i]);
      var lo := HexValue(s[2 * i + 1]);
      if hi < 0 || lo < 0 {
        assert s[..2 * n][2 * i] == s[2 * i] && s[..2 * n][2 * i + 1] == s[2 * i + 1];
        return -EINVAL;
      }
      out[i] := Combine(hi, lo);
      i := i + 1;
    }
    assert Decode(s[..2 * n], n).value == out[..n];
    return 0;
  }

  /** What `parse_hex_string` answers: a length in bytes, or the error that the text's length or its first bad pair earns. */
  function HexCode(hex: string, maxLen: nat): int {
    if |hex| > 64 || |hex| % 2 != 0 then -EINVAL
    else if |hex| == 0 || |hex| / 2 > maxLen then -EOVERFLOW
    else if IsHex(hex) then |hex| / 2
    else -EINVAL
  }

  /** `parse_hex_string`: at most 65 digits of text are looked at. */
  method ParseHexString(hex: string, out: array<Byte>, maxLen: nat) returns (rc: int)
    requires maxLen <= out.Length
    modifies out
    ensures rc == HexCode(hex, maxLen)
    ensures rc >= 0 <==> 0 < |hex| <= 64 && |hex| <= 2 * maxLen && |hex| % 2 == 0 && IsHex(hex)
    ensures rc == -EOVERFLOW <==> |hex| <= 64 && |hex| % 2 == 0 && (hex == "" || |hex| > 2 * maxLen)
    ensures rc < 0 ==> rc == -EOVERFLOW || rc == -EINVAL
    ensures rc >= 0 ==> Decode(hex, rc) == Some(out[..rc])
    ensures forall k :: maxLen <= k < out.Length ==> out[k] == old(out[k])
  {
    var len := if |hex| < 65 then |hex| else 65;
    if len % 2 != 0 {
      return -EINVAL;
    }
    var bytes := len / 2;
    if bytes == 0 || bytes > maxLen {
      return -EOVERFLOW;
    }
    assert hex[..2 * bytes] == hex;
    ghost var before := out[..];
    rc := DecodePairs(hex, out, bytes);
    assert forall k :: bytes <= k < out.Length ==> out[k] == out[bytes..][k - bytes] && before[k] == before[bytes..][k - bytes];
    if rc == 0 {
      rc := bytes;
    }
  }

  /** `decode_hex_token`, `decode_hex_key` and `parse_hex_secret`: exactly 2 * outLen digits. */
  method DecodeHexToken(token: string, out: array<Byte>, outLen: nat) returns (rc: int)
    requires outLen <= out.Length
    modifies out
    ensures rc == if Decode(token, outLen).Some? then 0 else -EINVAL
    ensures rc == 0 ==> Decode(token, outLen) == Some(out[..outLen])
    ensures |token| != 2 * outLen ==> out[..] == old(out[..])
  {
    if |token| != 2 * outLen {
      return -EINVAL;
    }
    assert token[..2 * outLen] == token;
    rc := DecodePairs(token, out, outLen);
  }

  /** `app_crypto_bytes_to_hex`: the text is followed by a terminator. */
  method BytesToHex(src: seq<Byte>, dst: array<char>, dstLen: nat) returns (rc: int)
    requires dstLen <= dst.Length
    modifies dst
    ensures rc == if dstLen < 2 * |src| + 1 then -ENOSPC else 0
    ensures rc != 0 ==> dst[..] == old(dst[..])
    ensures rc == 0 ==> dst[..2 * |src|] == Encode(UPPER, src) && dst[2 * |src|] == '\0'
    ensures rc == 0 ==> Decode(dst[..2 * |src|], |src|) == Some(src)
    ensures rc == 0 ==> forall k :: 2 * |src| < k < dst.Length ==> dst[k] == old(dst[k])
  {
    if dstLen < 2 * |src| + 1 {
      return -ENOSPC;
    }
    hide Digit, Decode, Encode;
    DecodeEncode(UPPER, src);
    WriteDigits(UPPER, src, dst);
    ghost var text := dst[..2 * |src|];
    dst[2 * |src|] := '\0';
    assert dst[..2 * |src|] == text;
    return 0;
  }

  method WriteDigits(digits: string, bytes: seq<Byte>, dst: array<char>)
    requires |digits| == 16 && 2 * |bytes| <= dst.Length
    modifies dst
    ensures dst[..2 * |bytes|] == Encode(digits, bytes)
    ensures forall k :: 2 * |bytes| <= k < dst.Length ==> dst[k] == old(dst[k])
  {
    hide Digit, Encode;
    ghost var text := Encode(digits, bytes);
    for i := 0 to |bytes|
      invariant forall k :: 0 <= k < 2 * i ==> dst[k] == text[k]
      invariant forall k :: 2 * |bytes| <= k < dst.Length ==> dst[k] == old(dst[k])
    {
      TextAt(digits, bytes, i);
      dst[2 * i] := Digit(digits, bytes[i], true);
      dst[2 * i + 1] := Digit(digits, bytes[i], false);
    }
  }

  lemma TextAt(digits: string, bytes: seq<Byte>, i: nat)
    requires |digits| == 16 && i < |bytes|
    ensures Encode(digits, bytes)[2 * i] == Digit(digits, bytes[i], true)
    ensures Encode(digits, bytes)[2 * i + 1] == Digit(digits, bytes[i], false)
  {
    hide Digit;
    assert (2 * i) / 2 == i && (2 * i + 1) / 2 == i;
  }
}
