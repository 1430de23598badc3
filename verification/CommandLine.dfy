/** What a line typed at the console of src/uart_commands.c means, in a build with the Curve25519 backend. */
module CommandLine {
  import opened Bytes
  import opened Results
  import opened Hex
  import opened CurveKeys

  // ---- spaces and words ----

  /** `isspace` in the C locale. */
  predicate IsSpace(c: char) {
    c == ' ' || '\t' <= c <= '\r'
  }

  predicate IsWord(s: string) {
    s != "" && forall i :: 0 <= i < |s| ==> !IsSpace(s[i])
  }

  /** `strncmp` of a whole word. */
  predicate Starts(s: string, word: string)
    ensures Starts(s, word) ==> |word| <= |s|
  {
    word <= s
  }

  predicate AllSpaces(s: string) {
    forall i :: 0 <= i < |s| ==> IsSpace(s[i])
  }

  function Skip(s: string): (r: string)
    ensures |r| <= |s| && (r != "" ==> !IsSpace(r[0]))
  {
    if s == "" || !IsSpace(s[0]) then s else Skip(s[1..])
  }

  /** Nothing but space is skipped. */
  lemma {:induction false} SkipsSpace(s: string)
    ensures var n := |s| - |Skip(s)|; Skip(s) == s[n..] && AllSpaces(s[..n])
  {
    if s != "" && IsSpace(s[0]) {
      var rest := s[1..];
      SkipsSpace(rest);
      var n := |rest| - |Skip(rest)|;
      assert s[1 + n..] == rest[n..];
      assert s[..1 + n] == [s[0]] + rest[..n];
    }
  }

  function Token(s: string): (t: string)
    ensures t <= s && (t != "" ==> IsWord(t))
    ensures |t| < |s| ==> IsSpace(s[|t|])
    ensures s != "" && !IsSpace(s[0]) ==> t != ""
  {
    if s == "" || IsSpace(s[0]) then "" else [s[0]] + Token(s[1..])
  }

  /** The words of a line. */
  function Words(s: string): seq<string>
    decreases |s|
  {
    var t := Skip(s);
    if t == "" then [] else [Token(t)] + Words(t[|Token(t)|..])
  }

  // ---- numbers ----

  predicate IsDigit(c: char) {
    '0' <= c <= '9'
  }

  function Digits(s: string): (d: string)
    ensures d <= s && (forall i :: 0 <= i < |d| ==> IsDigit(d[i]))
    ensures |d| < |s| ==> !IsDigit(s[|d|])
  {
    if s == "" || !IsDigit(s[0]) then "" else [s[0]] + Digits(s[1..])
  }

  function DigitValue(c: char): (v: nat)
    requires IsDigit(c)
  {
    c as int - '0' as int
  }

  function Decimal(d: string): nat
    requires forall i :: 0 <= i < |d| ==> IsDigit(d[i])
  {
    if d == "" then 0 else 10 * Decimal(d[..|d| - 1]) + DigitValue(d[|d| - 1])
  }

  /**
   * `strtoul` to base 10 with a 32-bit result, on text without leading spaces: the value and what follows
   * the digits; nothing when there are no digits or the digits spell 2^32 or more. A minus sign negates.
   */
  function Strtoul(s: string): Option<(Word, string)> {
    if s != "" && (s[0] == '+' || s[0] == '-') then Scan(s[1..], s[0] == '-') else Scan(s, false)
  }

  function Scan(s: string, negate: bool): Option<(Word, string)> {
    var d := Digits(s);
    if d == "" || Decimal(d) >= WORD then None
    else Some((if negate then (WORD - Decimal(d)) % WORD else Decimal(d), s[|d|..]))
  }

  // ---- lines ----

  datatype Command =
    | Ignored
    | Status
    | Timeout(ms: Word)
    | ClearTimeout
    | Provision(scalar: Key, peer: Option<Key>)

  function Parse(line: string): Command {
    var s := Skip(line);
    if Starts(s, "wdg") then ParseTimeout(Skip(s[3..]))
    else if Starts(s, "prov") then ParseProvision(Skip(s[4..]))
    else Ignored
  }

  function ParseTimeout(s: string): Command {
    if Starts(s, "?") then Status
    else if Starts(s, "clear") then ClearTimeout
    else
      match Strtoul(s)
      case None => Ignored
      case Some((ms, rest)) => if (rest == "" || IsSpace(rest[0])) && Acceptable(ms) then Timeout(ms) else Ignored
  }

  function ParseProvision(s: string): Command {
    if Starts(s, "curve") then ParseKeys(Skip(s[5..])) else Ignored
  }

  function ParseKeys(s: string): Command {
    Keys(Token(s), Token(Skip(s[|Token(s)|..])))
  }

  /** A peer of 64 characters or more that does not decode leaves the scalar in force; a shorter one does not. */
  function Keys(scalar: string, peer: string): Command {
    if Decode(scalar, 32) == None || 0 < |peer| < 64 then Ignored
    else Provision(Decode(scalar, 32).value, Decode(peer, 32))
  }

  /** What the words after `prov curve` come to. */
  function KeysOf(w: seq<string>): Command {
    if w == [] || Decode(w[0], 32) == None then Ignored
    else if |w| == 1 then Provision(Decode(w[0], 32).value, None)
    else if |w[1]| < 64 then Ignored
    else Provision(Decode(w[0], 32).value, Decode(w[1], 32))
  }

  lemma KeysOfWords(s: string)
    requires Skip(s) == s
    ensures ParseKeys(s) == KeysOf(Words(s))
  {
    hide Decode, Words, Skip, Token, Keys, KeysOf, IsWord;
    FirstOfWords(s);
    if s == "" {
      NoKeys();
    } else {
      var gap := s[|Token(s)|..];
      var rest := Skip(gap);
      SkipTwice(gap);
      SkipKeepsWords(gap);
      FirstOfWords(rest);
      if rest == "" {
        OneKey(Token(s));
        assert Words(s) == [Token(s)];
      } else {
        TwoKeys(Token(s), Token(rest), Words(rest[|Token(rest)|..]));
      }
    }
  }

  lemma NoKeys()
    ensures ParseKeys("") == KeysOf([])
  {
    hide Decode;
    ShortToken("");
    assert Token("") == "";
  }

  lemma OneKey(scalar: string)
    ensures Keys(scalar, "") == KeysOf([scalar])
  {
    hide Decode;
    ShortToken("");
  }

  lemma TwoKeys(scalar: string, peer: string, others: seq<string>)
    requires peer != ""
    ensures Keys(scalar, peer) == KeysOf([scalar] + ([peer] + others))
  {
    hide Decode;
    var w := [scalar] + ([peer] + others);
    assert w[0] == scalar && w[1] == peer;
  }

  lemma FirstOfWords(s: string)
    requires Skip(s) == s
    ensures s == "" <==> Token(s) == ""
    ensures s == "" ==> Words(s) == []
    ensures s != "" ==> Words(s) == [Token(s)] + Words(s[|Token(s)|..])
  {}

  lemma ShortToken(s: string)
    requires |s| != 64
    ensures Decode(s, 32) == None
  {}

  lemma SkipTwice(s: string)
    ensures Skip(Skip(s)) == Skip(s)
  {}

  lemma SkipKeepsWords(s: string)
    ensures Words(Skip(s)) == Words(s)
  {
    SkipTwice(s);
  }

  lemma FirstWord(s: string, w: string)
    requires Words(s) != [] && Words(s)[0] == w
    ensures w <= Skip(s) && Words(Skip(s)[|w|..]) == Words(s)[1..]
  {}

  lemma OtherPrefix(s: string)
    requires Starts(s, "prov")
    ensures !Starts(s, "wdg")
  {
    assert s[0] == "prov"[0];
  }

  /**
   * Whatever white space separates, precedes or follows them, the words of a line that begins `prov curve`
   * alone decide what it means.
   */
  lemma WordsDecide(line: string)
    requires |Words(line)| >= 2 && Words(line)[0] == "prov" && Words(line)[1] == "curve"
    ensures Parse(line) == KeysOf(Words(line)[2..])
  {
    hide Words, Skip, Token, ParseKeys, KeysOf, ParseTimeout;
    FirstWord(line, "prov");
    OtherPrefix(Skip(line));
    AfterProv(Skip(line)[4..]);
    assert Words(line)[1..][1..] == Words(line)[2..];
  }

  lemma AfterProv(s: string)
    requires Words(s) != [] && Words(s)[0] == "curve"
    ensures ParseProvision(Skip(s)) == KeysOf(Words(s)[1..])
  {
    hide Words, Skip, Token, ParseKeys, KeysOf;
    FirstWord(s, "curve");
    var t := Skip(s)[5..];
    SkipKeepsWords(t);
    SkipTwice(t);
    KeysOfWords(Skip(t));
  }

  // ---- printing and parsing ----

  lemma {:induction false} TokenOf(w: string, rest: string)
    requires IsWord(w) && (rest == "" || IsSpace(rest[0]))
    ensures Token(w + rest) == w
    decreases |w|
  {
    var all := w + rest;
    assert all[0] == w[0] && all[1..] == w[1..] + rest;
    if |w| > 1 {
      TokenOf(w[1..], rest);
    } else {
      assert w[1..] + rest == rest;
      assert Token(rest) == "";
    }
    assert Token(all) == [w[0]] + Token(w[1..] + rest);
    assert w == [w[0]] + w[1..];
  }

  lemma WordThen(w: string, rest: string)
    requires IsWord(w) && (rest == "" || IsSpace(rest[0]))
    ensures Words(w + rest) == [w] + Words(rest)
  {
    TokenOf(w, rest);
    assert (w + rest)[|w|..] == rest;
  }

  lemma SpaceThen(rest: string)
    ensures Words(" " + rest) == Words(rest)
  {
    hide Skip;
    SpaceSkipped(rest);
  }

  lemma HexIsWord(digits: string, bytes: seq<Byte>)
    requires (digits == UPPER || digits == LOWER) && bytes != []
    ensures IsWord(Encode(digits, bytes))
  {
    hide FromByte;
    forall k | 0 <= k < 2 * |bytes|
      ensures !IsSpace(Encode(digits, bytes)[k])
    {
      DigitIsNoSpace(digits, bytes[k / 2], k % 2 == 0);
    }
  }

  lemma DigitIsNoSpace(digits: string, b: Byte, high: bool)
    requires digits == UPPER || digits == LOWER
    ensures !IsSpace(Digit(digits, b, high)) && Digit(digits, b, high) != '\0'
  {
    DigitOfByte(digits, b);
    hide Digit;
  }

  /** The line that a host sends to provision a scalar and, if it has one, a peer. */
  function PrintProvision(digits: string, scalar: Key, peer: Option<Key>): (line: string)
    requires |digits| == 16
    ensures |line| == (if peer.Some? then 140 else 75) && "prov curve " <= line
  {
    "prov curve " + Encode(digits, scalar) + (if peer.Some? then " " + Encode(digits, peer.value) else "")
  }

  /** Parsing undoes printing, in either case of the digits. */
  lemma ParsePrinted(digits: string, scalar: Key, peer: Option<Key>)
    requires digits == UPPER || digits == LOWER
    ensures Parse(PrintProvision(digits, scalar, peer)) == Provision(scalar, peer)
  {
    hide Words, Parse, Encode, Decode;
    var line, s := PrintProvision(digits, scalar, peer), Encode(digits, scalar);
    var tail := if peer.Some? then " " + Encode(digits, peer.value) else "";
    HexIsWord(digits, scalar);
    DecodeEncode(digits, scalar);
    PeerWords(digits, peer);
    WordThen(s, tail);
    SpaceThen(s + tail);
    WordThen("curve", " " + (s + tail));
    SpaceThen("curve" + (" " + (s + tail)));
    WordThen("prov", " " + ("curve" + (" " + (s + tail))));
    assert line == "prov" + (" " + ("curve" + (" " + (s + tail))));
    assert Words(line) == ["prov"] + (["curve"] + ([s] + Words(tail)));
    WordsDecide(line);
  }

  lemma PeerWords(digits: string, peer: Option<Key>)
    requires digits == UPPER || digits == LOWER
    ensures peer == None ==> Words("") == []
    ensures peer.Some? ==>
      var p := Encode(digits, peer.value);
      Words(" " + p) == [p] && Decode(p, 32) == Some(peer.value)
  {
    hide Encode, Decode;
    if peer.Some? {
      var p := Encode(digits, peer.value);
      HexIsWord(digits, peer.value);
      DecodeEncode(digits, peer.value);
      SpaceThen(p);
      WordThen(p, "");
      assert p + "" == p;
      assert [p] + [] == [p];
    }
  }

  // ---- how much of a printed line is needed ----

  lemma SpaceShrinks(s: string)
    requires s != "" && IsSpace(s[0])
    ensures |Skip(s)| < |s|
  {}

  lemma KeysNeedRoom(s: string)
    requires ParseKeys(s).Provision?
    ensures |s| >= if ParseKeys(s).peer.Some? then 129 else 64
  {
    hide Skip, Token;
    var gap := s[|Token(s)|..];
    if |Token(s)| != 64 {
      ShortToken(Token(s));
    }
    if gap != "" {
      SpaceShrinks(gap);
    }
    if |Token(Skip(gap))| != 64 {
      ShortToken(Token(Skip(gap)));
    }
  }

  lemma AfterCurve(y: string)
    requires ParseProvision(y).Provision?
    ensures |y| >= 5 && ParseProvision(y) == ParseKeys(Skip(y[5..]))
  {
    hide Skip, ParseKeys;
  }

  /** x is what a cut line has after `prov`. */
  lemma ProvisionNeedsRoom(x: string)
    requires x != "" ==> IsSpace(x[0])
    requires |Skip(x)| > 5 ==> IsSpace(Skip(x)[5])
    requires ParseProvision(Skip(x)).Provision?
    ensures |x| >= if ParseProvision(Skip(x)).peer.Some? then 136 else 71
  {
    hide *;
    var y := Skip(x);
    AfterCurve(y);
    var z := y[5..];
    if x != "" {
      SpaceShrinks(x);
    }
    KeysNeedRoom(Skip(z));
    if z != "" {
      SpaceShrinks(z);
    }
  }

  lemma CutLineNeedsRoom(line: string, k: nat)
    requires k <= |line| && "prov curve " <= line && Parse(line[..k]).Provision?
    ensures k >= if Parse(line[..k]).peer.Some? then 140 else 75
  {
    hide *;
    var s := line[..k];
    CutChars(line, k);
    NoCommand();
    assert s != "";
    OnlyProvisions(s);
    AfterCutProv(line, k);
    ProvisionNeedsRoom(s[4..]);
  }

  lemma AfterCutProv(line: string, k: nat)
    requires 4 <= k <= |line| && "prov curve " <= line
    ensures var x := line[..k][4..];
      && |x| == k - 4 && (x != "" ==> IsSpace(x[0]))
      && (|Skip(x)| > 5 ==> IsSpace(Skip(x)[5]))
  {
    hide *;
    var s := line[..k];
    CutChars(line, k);
    OneSpace(s[4..]);
    if k > 5 {
      SpaceSkipped(s[5..]);
      NothingToSkip(s[5..]);
    }
  }

  lemma OneSpace(x: string)
    ensures |x| <= 1 ==> |Skip(x)| <= 1
  {}

  lemma CutChars(line: string, k: nat)
    requires k <= |line| && "prov curve " <= line
    ensures k > 0 ==> line[..k] != "" && !IsSpace(line[..k][0])
    ensures k > 4 ==> IsSpace(line[..k][4..][0])
    ensures k > 5 ==> line[..k][4..] == " " + line[..k][5..] && line[..k][5..] != "" && !IsSpace(line[..k][5..][0])
    ensures k > 10 ==> IsSpace(line[..k][5..][5])
  {
    assert line[0] == 'p' && line[4] == ' ' && line[5] == 'c' && line[10] == ' ';
  }

  lemma OnlyProvisions(s: string)
    requires s != "" && !IsSpace(s[0]) && Parse(s).Provision?
    ensures |s| >= 4 && Parse(s) == ParseProvision(Skip(s[4..]))
  {
    hide Skip, ParseProvision, ParseTimeout, Starts;
    NothingToSkip(s);
    if Starts(s, "wdg") {
      TimeoutsOnly(Skip(s[3..]), "");
      assert false;
    }
  }

  lemma NoCommand()
    ensures Parse("") == Ignored
  {}

  lemma TimeoutsOnly(s: string, t: string)
    ensures !ParseTimeout(s).Provision? && !ParseProvision(t).Timeout? && !ParseProvision(t).ClearTimeout?
  {
    hide Strtoul, Skip, Token, Starts, Decode;
  }

  /** A number in decimal. */
  function Show(n: nat): (s: string)
    ensures s != "" && (forall i :: 0 <= i < |s| ==> IsDigit(s[i]))
  {
    (if n < 10 then "" else Show(n / 10)) + [('0' as nat + n % 10) as char]
  }

  lemma {:induction false} DecimalShow(n: nat)
    ensures Decimal(Show(n)) == n
  {
    var s := Show(n);
    assert s[..|s| - 1] == if n < 10 then "" else Show(n / 10);
    if n >= 10 {
      DecimalShow(n / 10);
    }
  }

  lemma {:induction false} DigitsOfDigits(s: string)
    requires forall i :: 0 <= i < |s| ==> IsDigit(s[i])
    ensures Digits(s) == s
  {
    if s != "" {
      DigitsOfDigits(s[1..]);
    }
  }

  predicate Acceptable(ms: int) {
    100 <= ms <= 60000
  }

  /** A printed number is taken as itself, and a printed negative number as its complement to 2^32. */
  lemma ParseShown(n: nat)
    ensures Parse("wdg " + Show(n)) == if Acceptable(n) then Timeout(n) else Ignored
    ensures Parse("wdg +" + Show(n)) == if Acceptable(n) then Timeout(n) else Ignored
    ensures Parse("wdg -" + Show(n)) == if Acceptable(WORD - n) then Timeout(WORD - n) else Ignored
  {
    hide Show, Decimal, Parse, Strtoul, Scan, ParseTimeout;
    var s := Show(n);
    DecimalShow(n);
    DigitsScanned(s);
    AfterWdg(s);
    AfterWdg("+" + s);
    AfterWdg("-" + s);
    assert "wdg " + ("+" + s) == "wdg +" + s && "wdg " + ("-" + s) == "wdg -" + s;
    if n < WORD {
      TimeoutOf(s, n);
      TimeoutOf("+" + s, n);
      TimeoutOf("-" + s, (WORD - n) % WORD);
      Complement(n);
    } else {
      NoTimeoutOf(s);
      NoTimeoutOf("+" + s);
      NoTimeoutOf("-" + s);
    }
  }

  lemma Complement(n: Word)
    ensures n == 0 ==> (WORD - n) % WORD == 0 && !Acceptable(0) && !Acceptable(WORD)
    ensures n != 0 ==> (WORD - n) % WORD == WORD - n
  {}

  lemma AfterWdg(s: string)
    requires s != "" && !IsSpace(s[0])
    ensures Parse("wdg " + s) == ParseTimeout(s)
  {
    hide ParseTimeout, ParseProvision, Skip, Starts;
    var line := "wdg " + s;
    WdgLine(s, line);
    NothingToSkip(line);
    NothingToSkip(s);
    SpaceSkipped(s);
  }

  lemma WdgLine(s: string, line: string)
    requires line == "wdg " + s
    ensures Starts(line, "wdg") && line != "" && !IsSpace(line[0]) && line[3..] == " " + s
  {
    assert line[0] == 'w';
    assert line[..3] == "wdg";
  }

  lemma NothingToSkip(s: string)
    requires s != "" && !IsSpace(s[0])
    ensures Skip(s) == s
  {}

  lemma SpaceSkipped(s: string)
    ensures Skip(" " + s) == Skip(s)
  {
    assert (" " + s)[1..] == s;
  }

  lemma TimeoutOf(s: string, ms: Word)
    requires s != "" && (IsDigit(s[0]) || s[0] == '+' || s[0] == '-') && Strtoul(s) == Some((ms, ""))
    ensures ParseTimeout(s) == if Acceptable(ms) then Timeout(ms) else Ignored
  {
    hide Strtoul;
    assert "?"[0] == '?' && "clear"[0] == 'c';
  }

  lemma NoTimeoutOf(s: string)
    requires s != "" && (IsDigit(s[0]) || s[0] == '+' || s[0] == '-') && Strtoul(s) == None
    ensures ParseTimeout(s) == Ignored
  {
    hide Strtoul;
    assert "?"[0] == '?' && "clear"[0] == 'c';
  }

  lemma DigitsScanned(s: string)
    requires s != "" && (forall i :: 0 <= i < |s| ==> IsDigit(s[i]))
    ensures Strtoul(s) == if Decimal(s) < WORD then Some((Decimal(s), "")) else None
    ensures Strtoul("+" + s) == Strtoul(s)
    ensures Strtoul("-" + s) == if Decimal(s) < WORD then Some(((WORD - Decimal(s)) % WORD, "")) else None
  {
    hide Decimal, Digits, Scan;
    DigitsOfDigits(s);
    ScanOfDigits(s, false);
    ScanOfDigits(s, true);
    assert IsDigit(s[0]);
    assert ("+" + s)[1..] == s && ("-" + s)[1..] == s;
  }

  lemma ScanOfDigits(s: string, negate: bool)
    requires s != "" && (forall i :: 0 <= i < |s| ==> IsDigit(s[i])) && Digits(s) == s
    ensures Scan(s, negate) == if Decimal(s) >= WORD then None else Some((if negate then (WORD - Decimal(s)) % WORD else Decimal(s), ""))
  {
    hide Decimal, Digits;
    assert s[|s|..] == "";
  }

  // ---- the word after wdg ----

  lemma {:induction false} DigitsBefore(t: string, rest: string)
    requires rest == "" || !IsDigit(rest[0])
    ensures Digits(t + rest) == Digits(t)
  {
    if t == "" {
      assert t + rest == rest;
    } else {
      assert (t + rest)[0] == t[0] && (t + rest)[1..] == t[1..] + rest;
      DigitsBefore(t[1..], rest);
    }
  }

  /** What decides about a number: its value if it has one, and whether a space or the end follows. */
  function NumberOf(r: Option<(Word, string)>): Command {
    match r
    case None => Ignored
    case Some((ms, rest)) => if (rest == "" || IsSpace(rest[0])) && Acceptable(ms) then Timeout(ms) else Ignored
  }

  lemma ScanBefore(t: string, rest: string, negate: bool)
    requires (rest == "" || IsSpace(rest[0])) && forall i :: 0 <= i < |t| ==> !IsSpace(t[i])
    ensures NumberOf(Scan(t + rest, negate)) == NumberOf(Scan(t, negate))
  {
    hide Decimal, Digits, Acceptable;
    DigitsBefore(t, rest);
    var d := Digits(t);
    assert (t + rest)[|d|..] == t[|d|..] + rest;
  }

  lemma NumberBefore(t: string, rest: string)
    requires IsWord(t) && (rest == "" || IsSpace(rest[0]))
    ensures NumberOf(Strtoul(t + rest)) == NumberOf(Strtoul(t))
  {
    hide Scan, NumberOf;
    assert (t + rest)[0] == t[0] && (t + rest)[1..] == t[1..] + rest;
    ScanBefore(t, rest, false);
    ScanBefore(t[1..], rest, true);
    ScanBefore(t[1..], rest, false);
  }

  lemma StartsBefore(t: string, rest: string, word: string)
    requires IsWord(word) && (rest == "" || IsSpace(rest[0]))
    ensures Starts(t + rest, word) <==> Starts(t, word)
  {
    if Starts(t, word) {
      assert (t + rest)[..|word|] == t[..|word|] == word;
    }
    if |t| < |word| <= |t + rest| {
      assert (t + rest)[|t|] == rest[0] && (t + rest)[..|word|][|t|] == (t + rest)[|t|] != word[|t|];
    } else if Starts(t + rest, word) {
      assert t[..|word|] == (t + rest)[..|word|] == word;
    }
  }

  lemma TimeoutBefore(t: string, rest: string)
    requires IsWord(t) && (rest == "" || IsSpace(rest[0]))
    ensures ParseTimeout(t + rest) == ParseTimeout(t)
  {
    hide Strtoul, Starts;
    StartsBefore(t, rest, "?");
    StartsBefore(t, rest, "clear");
    NumberBefore(t, rest);
    ParsedNumber(t);
    ParsedNumber(t + rest);
    hide ParseTimeout, IsWord;
  }

  lemma ParsedNumber(s: string)
    ensures ParseTimeout(s) == if Starts(s, "?") then Status else if Starts(s, "clear") then ClearTimeout else NumberOf(Strtoul(s))
  {
    hide Strtoul, Starts;
  }

  /** Whatever white space is around it, the word after `wdg` alone decides what the line means; without one it means nothing. */
  lemma TimeoutWordDecides(line: string)
    requires Words(line) != [] && Words(line)[0] == "wdg"
    ensures Parse(line) == if |Words(line)| == 1 then Ignored else ParseTimeout(Words(line)[1])
  {
    hide Words, Skip, Token, ParseTimeout, ParseProvision;
    FirstWord(line, "wdg");
    var gap := Skip(line)[3..];
    var s := Skip(gap);
    SkipTwice(gap);
    SkipKeepsWords(gap);
    FirstOfWords(s);
    if s == "" {
      NoTimeout();
    } else {
      var t := Token(s);
      assert s == t + s[|t|..];
      TimeoutBefore(t, s[|t|..]);
    }
  }

  lemma NoTimeout()
    ensures ParseTimeout("") == Ignored
  {}

  /** A number with anything but digits behind it is no number. */
  lemma TrailingTextRefused(n: nat, x: string)
    requires x != "" && !IsDigit(x[0]) && !IsSpace(x[0])
    ensures ParseTimeout(Show(n) + x) == Ignored
  {
    hide Show, Decimal;
    var s := Show(n);
    assert IsDigit(s[0]) && (s + x)[0] == s[0] && "clear"[0] == 'c' && "?"[0] == '?';
    DigitsOfDigits(s);
    DigitsBefore(s, x);
    assert (s + x)[|s|..] == x;
    hide Digits, IsSpace;
  }

  /** A line with no words, or whose first word begins with neither `wdg` nor `prov`, means nothing. */
  lemma OtherLinesIgnored(line: string)
    requires Words(line) == [] || !(Starts(Words(line)[0], "wdg") || Starts(Words(line)[0], "prov"))
    ensures Parse(line) == Ignored
  {
    hide ParseTimeout, ParseProvision, Words, Skip, Token;
    var s := Skip(line);
    SkipTwice(line);
    SkipKeepsWords(line);
    FirstOfWords(s);
    if s != "" {
      var rest := s[|Token(s)|..];
      assert s == Token(s) + rest;
      StartsBefore(Token(s), rest, "wdg");
      StartsBefore(Token(s), rest, "prov");
    }
  }

  /** What the console's documented words come to. */
  lemma DocumentedWords()
    ensures ParseTimeout("?") == Status && ParseTimeout("clear") == ClearTimeout
  {
    assert "clear"[0] == 'c' && "?"[0] == '?';
  }

  // ---- text in two pieces ----

  lemma {:induction false} SkipBefore(a: string, rest: string)
    ensures Skip(a + rest) == if Skip(a) == "" then Skip(rest) else Skip(a) + rest
  {
    if a == "" {
      assert a + rest == rest;
    } else {
      assert (a + rest)[0] == a[0] && (a + rest)[1..] == a[1..] + rest;
      if IsSpace(a[0]) {
        SkipBefore(a[1..], rest);
      }
    }
  }

  lemma {:induction false} TokenBefore(t: string, rest: string)
    requires rest == "" || IsSpace(rest[0])
    ensures Token(t + rest) == Token(t)
  {
    if t == "" {
      assert t + rest == rest;
    } else {
      assert (t + rest)[0] == t[0] && (t + rest)[1..] == t[1..] + rest;
      TokenBefore(t[1..], rest);
    }
  }

  /** The words of two pieces of text with a space between them. */
  lemma {:induction false} WordsJoined(a: string, b: string)
    ensures Words(a + (" " + b)) == Words(a) + Words(b)
    decreases |a|
  {
    hide Words, Skip, Token, IsWord;
    var t, rest := Skip(a), " " + b;
    SkipBefore(a, rest);
    SkipKeepsWords(a);
    SkipTwice(a);
    SkipKeepsWords(a + rest);
    FirstOfWords(t);
    if t == "" {
      SkipKeepsWords(rest);
      SpaceThen(b);
      assert [] + Words(b) == Words(b);
    } else {
      var left := t[|Token(t)|..];
      TokenBefore(t, rest);
      SkipTwice(a + rest);
      FirstOfWords(t + rest);
      assert (t + rest)[|Token(t)|..] == left + rest;
      WordsJoined(left, b);
      assert [Token(t)] + (Words(left) + Words(b)) == [Token(t)] + Words(left) + Words(b);
    }
  }
}
