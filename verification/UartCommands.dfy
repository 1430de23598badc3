/** The command console of src/uart_commands.c in a build with the Curve25519 backend. */
module UartCommands {
  import opened Bytes
  import opened Results
  import opened Entropy
  import opened Hex
  import opened CurveKeys
  import opened CommandLine
  import opened PersistState
  import opened Device
  import PersistStore
  import Supervisor

  // ---- what a command does to the stored keys ----

  /** The two key records. */
  datatype Slots = Slots(secret: Option<seq<Byte>>, peer: Option<seq<Byte>>)

  function SlotsOf(nvs: map<nat, Item>): Slots {
    Slots(if SECRET_ID in nvs then Some(nvs[SECRET_ID]) else None, if PEER_ID in nvs then Some(nvs[PEER_ID]) else None)
  }

  function SecretRecord(scalar: Key): Item {
    PersistStore.KeyRecord(SECRET_MAGIC, Clamp(scalar))
  }

  function PeerRecord(peer: Key): Item {
    PersistStore.KeyRecord(PEER_MAGIC, peer)
  }

  /** The peer is written only after the scalar was. */
  function Stored(s: Slots, c: Command, ok: bool, okPeer: bool): Slots {
    if !c.Provision? || !ok then s
    else Slots(Some(SecretRecord(c.scalar)), if c.peer.Some? && okPeer then Some(PeerRecord(c.peer.value)) else s.peer)
  }

  function Written(nvs: map<nat, Item>, c: Command, ok: bool, okPeer: bool): map<nat, Item> {
    if !c.Provision? || !ok then nvs
    else if c.peer == None || !okPeer then nvs[SECRET_ID := SecretRecord(c.scalar)]
    else nvs[SECRET_ID := SecretRecord(c.scalar)][PEER_ID := PeerRecord(c.peer.value)]
  }

  lemma WrittenSlots(nvs: map<nat, Item>, c: Command, ok: bool, okPeer: bool)
    ensures SlotsOf(Written(nvs, c, ok, okPeer)) == Stored(SlotsOf(nvs), c, ok, okPeer)
  {
    hide SecretRecord, PeerRecord;
  }

  /** What a command does to the persisted state and to the supervisor. */
  function Served(b: Build, k: Sealing, m: Machine, c: Command, now: nat, a: Attempt): Machine
    requires Usable(k)
  {
    match c
    case Timeout(ms) => Advance(b, k, m, Override(ms, now, a))
    case ClearTimeout => Advance(b, k, m, ClearOverride(now, a))
    case _ => m
  }

  // ---- walking over a line: a `char *` is the text from there on ----

  method SkipSpaces(s: string) returns (r: string)
    ensures r == Skip(s)
  {
    r := s;
    while r != "" && IsSpace(r[0])
      invariant Skip(r) == Skip(s)
      decreases |r|
    {
      r := r[1..];
    }
  }

  method TokenLength(s: string) returns (n: nat)
    ensures n == |Token(s)| && s[..n] == Token(s)
  {
    n := 0;
    while n < |s| && !IsSpace(s[n])
      invariant n <= |s| && |Token(s)| == n + |Token(s[n..])|
    {
      assert s[n..][1..] == s[n + 1..];
      n := n + 1;
    }
  }

  /** `prov_command_complete`: whether both tokens have come in at full length. */
  function Complete(line: string): bool {
    var s := Skip(line);
    if !Starts(s, "prov") then true
    else
      var t := Skip(s[4..]);
      if !Starts(t, "curve") then true else KeysComplete(Skip(t[5..]))
  }

  function KeysComplete(s: string): bool {
    var rest := Skip(s[|Token(s)|..]);
    |Token(s)| >= 64 && (rest == "" || |Token(rest)| >= 64)
  }

  /** What `handle_provision_command` makes of the text after `prov`, complete or not. */
  function Provisioned(args: string): Command {
    var s := Skip(args);
    if !Starts(s, "curve") then Ignored else Given(Skip(s[5..]))
  }

  function Given(s: string): Command {
    GivenTokens(Token(s), Token(Skip(s[|Token(s)|..])))
  }

  function GivenTokens(scalar: string, peer: string): Command {
    if Decode(scalar, 32) == None then Ignored else Provision(Decode(scalar, 32).value, Decode(peer, 32))
  }

  lemma KeysGiven(s: string)
    ensures ParseKeys(s) == if KeysComplete(s) then Given(s) else Ignored
  {
    hide Skip, Token, Decode;
    var rest := Skip(s[|Token(s)|..]);
    assert rest != "" ==> Token(rest) != "";
    if |Token(s)| != 64 {
      ShortToken(Token(s));
    }
  }

  /** Checking for completeness first and reading the keys afterwards is what parsing a line means. */
  lemma ProvisionMeaning(line: string)
    requires Skip(line) == line && Starts(line, "prov")
    ensures Parse(line) == if Complete(line) then Provisioned(line[4..]) else Ignored
  {
    hide Skip, Token, ParseKeys, KeysComplete, Given;
    OtherPrefix(line);
    SkipTwice(line[4..]);
    var t := Skip(line[4..]);
    if Starts(t, "curve") {
      KeysGiven(Skip(t[5..]));
    }
  }

  method CommandComplete(line: string) returns (complete: bool)
    ensures complete == Complete(line)
  {
    hide Skip, Token, IsWord;
    var cursor := SkipSpaces(line);
    if !Starts(cursor, "prov") {
      return true;
    }
    cursor := SkipSpaces(cursor[4..]);
    if !Starts(cursor, "curve") {
      return true;
    }
    cursor := SkipSpaces(cursor[5..]);
    var scalarLen := TokenLength(cursor);
    if scalarLen < 64 {
      return false;
    }
    cursor := SkipSpaces(cursor[scalarLen..]);
    if cursor == "" {
      return true;
    }
    var peerLen := TokenLength(cursor);
    return peerLen >= 64;
  }

  // ---- the console ----

  /** Up to the terminator. */
  function Visible(s: string): (v: string)
    ensures v <= s
  {
    if s == "" || s[0] == '\0' then "" else [s[0]] + Visible(s[1..])
  }

  /** A chunk behind the text so far, after a space, and cut to what the buffer holds; a full buffer is emptied. */
  function Appended(capacity: nat, text: string, chunk: string): string
    requires capacity > 0
  {
    var all := (if text == "" then "" else text + " ") + chunk;
    if |text| >= capacity - 1 then "" else if |all| < capacity then all else all[..capacity - 1]
  }

  /** Text that fits keeps its words, in order. */
  lemma AppendedWords(capacity: nat, text: string, chunk: string)
    requires |text| + 1 + |chunk| < capacity
    ensures Words(Appended(capacity, text, chunk)) == Words(text) + Words(chunk)
  {
    hide Words;
    if text == "" {
      NoWords();
      assert "" + chunk == chunk && [] + Words(chunk) == Words(chunk);
    } else {
      WordsJoined(text, chunk);
      assert text + " " + chunk == text + (" " + chunk);
    }
  }

  lemma NoWords()
    ensures Words("") == []
  {}

  /** What was typed since the last line end, and the key records. */
  datatype Hearing = Hearing(pending: string, slots: Slots)

  /** A received byte, when it came in, and whether the flash takes the first and the second write it leads to. */
  datatype Arrival = Arrival(ch: char, now: nat, ok: bool, okPeer: bool)

  predicate EndsLine(ch: char) {
    ch == '\r' || ch == '\n'
  }

  function Hear(capacity: nat, h: Hearing, a: Arrival): Hearing {
    if EndsLine(a.ch) then Hearing("", Stored(h.slots, Parse(Visible(h.pending)), a.ok, a.okPeer))
    else if |h.pending| + 1 < capacity then h.(pending := h.pending + [a.ch])
    else h
  }

  function HearAll(capacity: nat, h: Hearing, input: seq<Arrival>): Hearing {
    if input == [] then h else Hear(capacity, HearAll(capacity, h, input[..|input| - 1]), input[|input| - 1])
  }

  /** What a stretch of input does to the persisted state and to the supervisor; an attempt goes with each byte. */
  function ServeAll(b: Build, k: Sealing, capacity: nat, m: Machine, h: Hearing, input: seq<Arrival>, attempts: seq<Attempt>): Machine
    requires Usable(k) && |attempts| == |input|
    decreases |input|
  {
    if input == [] then m
    else
      var n := |input| - 1;
      var before := ServeAll(b, k, capacity, m, h, input[..n], attempts[..n]);
      if EndsLine(input[n].ch) then Served(b, k, before, Parse(Visible(HearAll(capacity, h, input[..n]).pending)), input[n].now, attempts[n])
      else before
  }

  /** A file system that answers at once; on mounted flash nobody asks. */
  const UP := Media([0, 0, 0], true, 0, [0, 0, 0])

  class Console {
    const build: Build
    const persist: PersistStore.Persist
    const thread: Supervisor.Thread
    const buffer: array<char>
    var len: nat
    const accum: array<char>
    var accumLen: nat

    ghost predicate Valid()
      reads this, buffer, accum, persist, persist.crypto, persist.crypto.aes, thread
    {
      && buffer != accum && len < buffer.Length == accum.Length && accumLen < accum.Length
      && persist.Valid() && persist.loaded
      && thread.Valid()
      && (accum as object) !in {persist.crypto.aes.roundKeys, persist.crypto.ivSeed}
      && (buffer as object) !in {persist.crypto.aes.roundKeys, persist.crypto.ivSeed}
    }

    constructor (build: Build, persist: PersistStore.Persist, thread: Supervisor.Thread, capacity: nat)
      requires capacity > 0 && persist.Valid() && persist.loaded && thread.Valid()
      ensures Valid() && buffer.Length == capacity && fresh(buffer) && fresh(accum)
      ensures this.build == build && this.persist == persist && this.thread == thread && len == 0 && accumLen == 0
    {
      this.build, this.persist, this.thread := build, persist, thread;
      buffer, accum := new char[capacity], new char[capacity];
      len, accumLen := 0, 0;
    }

    function Typed(): string
      requires len <= buffer.Length
      reads this, buffer
    {
      buffer[..len]
    }

    function Accumulated(): string
      requires accumLen <= accum.Length
      reads this, accum
    {
      accum[..accumLen]
    }

    function Running(): Machine
      reads persist, thread, thread.watchdog
    {
      Machine(persist.Contents(), thread.Now(), [])
    }

    /** `prov_accum_reset` and `prov_accum_abort` */
    method AccumReset()
      requires accum.Length > 0
      modifies this`accumLen, accum
      ensures accumLen == 0
    {
      accumLen := 0;
      accum[0] := '\0';
    }

    /** `prov_accum_append` */
    method AccumAppend(chunk: string)
      requires accumLen < accum.Length
      modifies this`accumLen, accum
      ensures accumLen < accum.Length && Accumulated() == Appended(accum.Length, old(Accumulated()), chunk)
    {
      if accumLen >= accum.Length - 1 {
        AccumReset();
        return;
      }
      ghost var text := Accumulated();
      if accumLen != 0 {
        accum[accumLen] := ' ';
        accumLen := accumLen + 1;
        assert Accumulated() == text + " ";
      }
      var rest := CopyChunk(chunk);
      if rest != "" {
        accumLen := accum.Length - 1;
      }
      text := Accumulated();
      accum[accumLen] := '\0';
      assert Accumulated() == text;
    }

    /** The loop of `prov_accum_append`; rest is what did not fit. */
    method CopyChunk(chunk: string) returns (rest: string)
      requires accumLen < accum.Length
      modifies this`accumLen, accum
      ensures accumLen < accum.Length && (rest != "" ==> accumLen == accum.Length - 1)
      ensures Accumulated() + rest == old(Accumulated()) + chunk
      ensures Accumulated() == (old(Accumulated()) + chunk)[..accumLen]
    {
      ghost var start := Accumulated();
      rest := chunk;
      while rest != "" && accumLen < accum.Length - 1
        invariant accumLen < accum.Length && Accumulated() + rest == start + chunk
        decreases |rest|
      {
        ghost var before := Accumulated();
        accum[accumLen] := rest[0];
        accumLen := accumLen + 1;
        assert Accumulated() == before + [rest[0]];
        rest := rest[1..];
      }
      assert Accumulated() == (Accumulated() + rest)[..accumLen];
    }

    /** `apply_timeout` */
    method ApplyTimeout(ms: Word, now: nat, ok: bool)
      requires Valid()
      modifies persist`nvs, persist`blob, persist`loaded, persist.crypto`prngState, persist.crypto`ivCounter, thread
      ensures Valid() && persist.Sealed() == old(persist.Sealed())
      ensures SlotsOf(persist.nvs) == old(SlotsOf(persist.nvs))
      ensures var c := if Acceptable(ms) then Timeout(ms) else Ignored;
        Running() == Served(build, old(persist.Sealed()), old(Running()), c, now, old(persist.NextAttempt(ok)))
    {
      hide Retimed, SlotsOf, IvOfCall;
      hide PersistStore.Persist.NextAttempt, PersistStore.Persist.Sealed, Running;
      if ms < 100 || ms > 60000 {
        return;
      }
      Retune(ms, ms, now, ok);
    }

    /** `clear_override` */
    method ClearOverride(now: nat, ok: bool)
      requires Valid()
      modifies persist`nvs, persist`blob, persist`loaded, persist.crypto`prngState, persist.crypto`ivCounter, thread
      ensures Valid() && persist.Sealed() == old(persist.Sealed())
      ensures SlotsOf(persist.nvs) == old(SlotsOf(persist.nvs))
      ensures Running() == Served(build, old(persist.Sealed()), old(Running()), ClearTimeout, now, old(persist.NextAttempt(ok)))
    {
      hide Retimed, SlotsOf, IvOfCall;
      hide PersistStore.Persist.NextAttempt, PersistStore.Persist.Sealed, Running;
      Retune(0, build.steadyTimeoutMs, now, ok);
    }

    /** What `apply_timeout` and `clear_override` share. */
    method Retune(overrideMs: Word, targetMs: Word, now: nat, ok: bool)
      requires Valid()
      modifies persist`nvs, persist`blob, persist`loaded, persist.crypto`prngState, persist.crypto`ivCounter, thread
      ensures Valid() && persist.Sealed() == old(persist.Sealed())
      ensures SlotsOf(persist.nvs) == old(SlotsOf(persist.nvs))
      ensures Running() == Retimed(old(persist.Sealed()), old(Running()), overrideMs, targetMs, now, old(persist.NextAttempt(ok)))
    {
      hide SetOverride, Supervisor.RequestTarget, Load, Record, IvOfCall;
      var rc;
      ghost var first, a;
      rc, first, a := persist.SetWatchdogOverride(overrideMs, UP, ok, ok);
      if rc < 0 {
        return;
      }
      thread.Request(targetMs, true, now);
    }

    /** The branch of `handle_line` after `wdg`. */
    method HandleTimeout(text: string, now: nat, ok: bool)
      requires Valid()
      modifies persist`nvs, persist`blob, persist`loaded, persist.crypto`prngState, persist.crypto`ivCounter, thread
      ensures Valid() && persist.Sealed() == old(persist.Sealed())
      ensures SlotsOf(persist.nvs) == old(SlotsOf(persist.nvs))
      ensures Running() == Served(build, old(persist.Sealed()), old(Running()), ParseTimeout(Skip(text)), now, old(persist.NextAttempt(ok)))
    {
      hide Served, Strtoul, SlotsOf, IvOfCall, Skip, Starts, PersistStore.Persist.NextAttempt, PersistStore.Persist.Sealed, Running;
      ghost var k, m, a := persist.Sealed(), Running(), persist.NextAttempt(ok);
      var args := SkipSpaces(text);
      assert persist.Sealed() == k && Running() == m && persist.NextAttempt(ok) == a;
      NothingServed(build, persist.Sealed(), Running(), Ignored, now, persist.NextAttempt(ok));
      NothingServed(build, persist.Sealed(), Running(), Status, now, persist.NextAttempt(ok));
      if Starts(args, "?") {
        return;
      }
      if Starts(args, "clear") {
        ClearOverride(now, ok);
        return;
      }
      match Strtoul(args) {
        case None =>
          return;
        case Some((value, end)) =>
          if end != "" && !IsSpace(end[0]) {
            return;
          }
          ApplyTimeout(value, now, ok);
      }
    }

    /** The branch of `handle_line` for a line that begins `prov`. */
    method HandleProvisionLine(line: string, ok: bool, okPeer: bool)
      requires Valid() && Starts(line, "prov") && Skip(line) == line && |line| < accum.Length
      modifies this`accumLen, accum, persist`nvs, persist`blob, persist`loaded, persist.crypto`prngState, persist.crypto`ivCounter
      ensures persist.Valid() && persist.Sealed() == old(persist.Sealed()) && persist.Holding() == old(persist.Holding())
      ensures persist.nvs == Written(old(persist.nvs), Parse(line), ok, okPeer) && accumLen < accum.Length
    {
      hide Skip, Parse, Complete, Provisioned, Written;
      ProvisionMeaning(line);
      AccumReset();
      AccumAppend(line);
      assert Accumulated() == line;
      var complete := CommandComplete(Accumulated());
      if complete {
        HandleProvision(Accumulated()[4..], ok, okPeer);
        AccumReset();
      } else {
        NothingWritten(persist.nvs, ok, okPeer);
      }
    }

    /** The same branch as it looks from outside. */
    method ServeProvision(line: string, ok: bool, okPeer: bool)
      requires Valid() && Starts(line, "prov") && Skip(line) == line && |line| < accum.Length
      modifies this`accumLen, accum, persist`nvs, persist`blob, persist`loaded, persist.crypto`prngState, persist.crypto`ivCounter
      ensures Valid() && persist.Sealed() == old(persist.Sealed())
      ensures SlotsOf(persist.nvs) == Stored(old(SlotsOf(persist.nvs)), Parse(line), ok, okPeer)
      ensures Running() == old(Running())
    {
      hide Skip, Starts, Parse, Stored, Written, SlotsOf;
      WrittenRecord(persist.nvs, Parse(line), ok, okPeer);
      WrittenSlots(persist.nvs, Parse(line), ok, okPeer);
      HandleProvisionLine(line, ok, okPeer);
    }

    /** `handle_line` after leading space is skipped and an unfinished command is dropped. */
    method Dispatch(line: string, now: nat, ok: bool, okPeer: bool)
      requires Valid() && |line| < accum.Length && Skip(line) == line
      requires accumLen > 0 ==> Starts(line, "prov")
      modifies this`accumLen, accum, persist`nvs, persist`blob, persist`loaded, persist.crypto`prngState, persist.crypto`ivCounter, thread
      ensures Valid() && persist.Sealed() == old(persist.Sealed())
      ensures SlotsOf(persist.nvs) == Stored(old(SlotsOf(persist.nvs)), Parse(line), ok, okPeer)
      ensures Running() == Served(build, old(persist.Sealed()), old(Running()), Parse(line), now, old(persist.NextAttempt(ok)))
    {
      hide Skip, Starts, Parse, ParseTimeout, Stored, Served, Written, SlotsOf, IvOfCall;
      hide PersistStore.Persist.NextAttempt, PersistStore.Persist.Sealed, Running;
      WhatLinesMean(line);
      if Starts(line, "wdg") {
        NothingStored(SlotsOf(persist.nvs), Parse(line), ok, okPeer);
        HandleTimeout(line[3..], now, ok);
        return;
      }
      NothingServed(build, persist.Sealed(), Running(), Parse(line), now, persist.NextAttempt(ok));
      if Starts(line, "prov") {
        ServeProvision(line, ok, okPeer);
        return;
      }
      NothingStored(SlotsOf(persist.nvs), Parse(line), ok, okPeer);
      if accumLen > 0 {
        assert false;
      }
    }

    /** `handle_line`; nothing that an earlier line left behind has any say. */
    method HandleLine(text: string, now: nat, ok: bool, okPeer: bool)
      requires Valid() && |text| < accum.Length
      modifies this`accumLen, accum, persist`nvs, persist`blob, persist`loaded, persist.crypto`prngState, persist.crypto`ivCounter, thread
      ensures Valid() && persist.Sealed() == old(persist.Sealed())
      ensures SlotsOf(persist.nvs) == Stored(old(SlotsOf(persist.nvs)), Parse(text), ok, okPeer)
      ensures Running() == Served(build, old(persist.Sealed()), old(Running()), Parse(text), now, old(persist.NextAttempt(ok)))
    {
      hide Skip, Starts, Parse, ParseTimeout, Stored, Served, Written, SlotsOf, IvOfCall;
      hide PersistStore.Persist.NextAttempt, PersistStore.Persist.Sealed, Running;
      var line := SkipSpaces(text);
      WhatLinesMean(text);
      if line == "" {
        NothingServed(build, persist.Sealed(), Running(), Ignored, now, persist.NextAttempt(ok));
        NothingStored(SlotsOf(persist.nvs), Ignored, ok, okPeer);
        return;
      }
      if accumLen > 0 && !Starts(line, "prov") {
        AccumReset();
      }
      Dispatch(line, now, ok, okPeer);
    }

    /** One byte through the loop of `command_thread`. */
    method Receive(a: Arrival)
      requires Valid()
      modifies this`len, this`accumLen, buffer, accum
      modifies persist`nvs, persist`blob, persist`loaded, persist.crypto`prngState, persist.crypto`ivCounter, thread
      ensures Valid() && persist.Sealed() == old(persist.Sealed())
      ensures Heard() == Hear(buffer.Length, old(Heard()), a)
      ensures if EndsLine(a.ch) then
        Running() == Served(build, old(persist.Sealed()), old(Running()), Parse(Visible(old(Typed()))), a.now, old(persist.NextAttempt(a.ok)))
      else
        Running() == old(Running())
    {
      hide Parse, Served, Stored, SlotsOf, IvOfCall;
      hide PersistStore.Persist.NextAttempt, PersistStore.Persist.Sealed, Running;
      if EndsLine(a.ch) {
        EmptyLine();
        NothingStored(SlotsOf(persist.nvs), Ignored, a.ok, a.okPeer);
        NothingServed(build, persist.Sealed(), Running(), Ignored, a.now, persist.NextAttempt(a.ok));
        if len > 0 {
          ghost var k, m, next := persist.Sealed(), Running(), persist.NextAttempt(a.ok);
          ghost var typed := Typed();
          buffer[len] := '\0';
          assert persist.Sealed() == k && Running() == m && persist.NextAttempt(a.ok) == next && Typed() == typed;
          HandleLine(Visible(buffer[..len]), a.now, a.ok, a.okPeer);
          len := 0;
        }
        return;
      }
      if len < buffer.Length - 1 {
        buffer[len] := a.ch;
        len := len + 1;
      }
    }

    function Heard(): Hearing
      requires len <= buffer.Length
      reads this, buffer, persist
    {
      Hearing(Typed(), SlotsOf(persist.nvs))
    }

    /** `command_thread` on a stretch of input. */
    method Listen(input: seq<Arrival>) returns (ghost attempts: seq<Attempt>)
      requires Valid()
      modifies this`len, this`accumLen, buffer, accum
      modifies persist`nvs, persist`blob, persist`loaded, persist.crypto`prngState, persist.crypto`ivCounter, thread
      ensures Valid() && persist.Sealed() == old(persist.Sealed())
      ensures Heard() == HearAll(buffer.Length, old(Heard()), input)
      ensures |attempts| == |input| && forall i :: 0 <= i < |input| ==> attempts[i].ok == input[i].ok
      ensures Running() == ServeAll(build, old(persist.Sealed()), buffer.Length, old(Running()), old(Heard()), input, attempts)
    {
      hide Hear, EndsLine, Parse, Visible, Served, Stored, SlotsOf, IvOfCall;
      hide PersistStore.Persist.Sealed, Running;
      attempts := [];
      for i := 0 to |input|
        invariant Valid() && persist.Sealed() == old(persist.Sealed())
        invariant Heard() == HearAll(buffer.Length, old(Heard()), input[..i])
        invariant |attempts| == i && forall n :: 0 <= n < i ==> attempts[n].ok == input[n].ok
        invariant Running() == ServeAll(build, old(persist.Sealed()), buffer.Length, old(Running()), old(Heard()), input[..i], attempts)
      {
        ghost var next := persist.NextAttempt(input[i].ok);
        Receive(input[i]);
        OneMoreServed(build, old(persist.Sealed()), buffer.Length, old(Running()), old(Heard()), input[..i], input[i], attempts, next);
        assert input[..i + 1] == input[..i] + [input[i]];
        attempts := attempts + [next];
      }
      assert input[..|input|] == input;
    }

    /** The first half of `handle_provision_command`: the two tokens, or nothing when a branch gives up before. */
    static method FindTokens(args: string) returns (found: bool, scalar: string, peer: string)
      ensures Provisioned(args) == if found then GivenTokens(scalar, peer) else Ignored
    {
      hide Skip, Token, IsWord, GivenTokens, Starts;
      found, scalar, peer := false, "", "";
      var s := SkipSpaces(args);
      if !Starts(s, "curve") {
        return;
      }
      s := SkipSpaces(s[5..]);
      if s == "" {
        NoToken("");
        NothingGiven(Token(Skip("")));
        return;
      }
      var scalarLen := TokenLength(s);
      scalar := s[..scalarLen];
      s := SkipSpaces(s[scalarLen..]);
      if s != "" {
        var peerLen := TokenLength(s);
        peer := s[..peerLen];
      } else {
        NoToken("");
      }
      found := true;
    }

    /** `handle_provision_command` */
    method HandleProvision(args: string, ok: bool, okPeer: bool)
      requires persist.Valid() && persist.loaded
      modifies persist`nvs, persist`blob, persist`loaded, persist.crypto`prngState, persist.crypto`ivCounter
      ensures persist.Valid() && persist.Sealed() == old(persist.Sealed()) && persist.Holding() == old(persist.Holding())
      ensures persist.nvs == Written(old(persist.nvs), Provisioned(args), ok, okPeer)
    {
      hide Provisioned, GivenTokens, Written;
      var found, scalar, peer := FindTokens(args);
      if found {
        StoreKeys(scalar, peer, ok, okPeer);
      } else {
        NothingWritten(persist.nvs, ok, okPeer);
      }
    }

    /** The second half of `handle_provision_command`, after the tokens are found; an empty peer is one that is not there. */
    method StoreKeys(scalar: string, peer: string, ok: bool, okPeer: bool)
      requires persist.Valid() && persist.loaded
      modifies persist`nvs, persist`blob, persist`loaded, persist.crypto`prngState, persist.crypto`ivCounter
      ensures persist.Valid() && persist.Sealed() == old(persist.Sealed()) && persist.Holding() == old(persist.Holding())
      ensures persist.nvs == Written(old(persist.nvs), GivenTokens(scalar, peer), ok, okPeer)
    {
      hide Decode, PersistStore.KeyRecord, Clamp;
      ghost var nvs := persist.nvs;
      var buffer := new Byte[32];
      var rc := DecodeHexToken(scalar, buffer, 32);
      ghost var first;
      if rc != 0 {
        return;
      }
      assert buffer[..32] == buffer[..];
      rc, first := persist.SetSecret(buffer, UP, ok, ok);
      if rc != 0 {
        return;
      }
      assert persist.nvs == Written(nvs, Provision(Decode(scalar, 32).value, None), ok, okPeer);
      if |peer| != 64 {
        ShortToken(peer);
        return;
      }
      rc := DecodeHexToken(peer, buffer, 32);
      if rc != 0 {
        return;
      }
      assert buffer[..32] == buffer[..];
      rc, first := persist.SetPeer(buffer, UP, okPeer, okPeer);
    }
  }

  lemma OneMoreServed(b: Build, k: Sealing, capacity: nat, m: Machine, h: Hearing,
                      input: seq<Arrival>, a: Arrival, attempts: seq<Attempt>, next: Attempt)
    requires Usable(k) && |attempts| == |input|
    ensures var before, heard := ServeAll(b, k, capacity, m, h, input, attempts), HearAll(capacity, h, input);
      && HearAll(capacity, h, input + [a]) == Hear(capacity, heard, a)
      && ServeAll(b, k, capacity, m, h, input + [a], attempts + [next])
         == if EndsLine(a.ch) then Served(b, k, before, Parse(Visible(heard.pending)), a.now, next) else before
  {
    hide Hear, EndsLine, Parse, Visible, Served;
    assert (input + [a])[..|input|] == input && (attempts + [next])[..|input|] == attempts;
  }

  lemma NothingGiven(peer: string)
    ensures GivenTokens("", peer) == Ignored
  {
    ShortToken("");
  }

  lemma NothingServed(b: Build, k: Sealing, m: Machine, c: Command, now: nat, a: Attempt)
    requires Usable(k)
    ensures !c.Timeout? && !c.ClearTimeout? ==> Served(b, k, m, c, now, a) == m
  {
    hide Advance;
  }

  lemma NothingStored(s: Slots, c: Command, ok: bool, okPeer: bool)
    ensures !c.Provision? ==> Stored(s, c, ok, okPeer) == s
  {}

  /** Which of the three kinds of lines a text is, and what it cannot mean. */
  lemma WhatLinesMean(text: string)
    ensures var line := Skip(text);
      && Parse(line) == Parse(text) && Skip(line) == line
      && (Starts(line, "wdg") ==> Parse(text) == ParseTimeout(Skip(line[3..])) && !Parse(text).Provision?)
      && (Starts(line, "prov") ==> !Starts(line, "wdg"))
      && (!Starts(line, "wdg") ==> !Parse(text).Timeout? && !Parse(text).ClearTimeout?)
      && (!Starts(line, "wdg") && !Starts(line, "prov") ==> Parse(text) == Ignored)
      && (line == "" ==> Parse(text) == Ignored)
  {
    hide Skip, Starts, ParseTimeout, ParseProvision;
    SkipTwice(text);
    assert |"wdg"| == 3 && |"prov"| == 4;
    var line := Skip(text);
    if Starts(line, "prov") {
      OtherPrefix(line);
      TimeoutsOnly("", Skip(line[4..]));
    }
    if Starts(line, "wdg") {
      TimeoutsOnly(Skip(line[3..]), "");
    }
  }

  lemma EmptyLine()
    ensures Parse(Visible("")) == Ignored
  {}

  lemma WrittenRecord(nvs: map<nat, Item>, c: Command, ok: bool, okPeer: bool)
    ensures var nvs' := Written(nvs, c, ok, okPeer);
      (RECORD_ID in nvs' <==> RECORD_ID in nvs) && (RECORD_ID in nvs ==> nvs'[RECORD_ID] == nvs[RECORD_ID])
  {}

  lemma NothingWritten(nvs: map<nat, Item>, ok: bool, okPeer: bool)
    ensures Written(nvs, Ignored, ok, okPeer) == nvs
  {}

  lemma NoToken(rest: string)
    requires rest == "" || IsSpace(rest[0])
    ensures Token(rest) == ""
  {}

  // ---- from the bytes a host sends to the stored keys ----

  /** A host's text as it arrives, with a flash that takes every write. */
  predicate Arrives(input: seq<Arrival>, text: string) {
    |input| == |text| && forall i :: 0 <= i < |text| ==> input[i].ch == text[i] && input[i].ok && input[i].okPeer
  }

  predicate Printable(text: string) {
    forall i :: 0 <= i < |text| ==> !EndsLine(text[i]) && text[i] != '\0'
  }

  /** What the buffer keeps of a line. */
  function Cut(capacity: nat, text: string): string
    requires capacity > 0
  {
    if |text| < capacity then text else text[..capacity - 1]
  }

  lemma {:induction false} LineIsTyped(capacity: nat, h: Hearing, input: seq<Arrival>, text: string)
    requires capacity > 0 && h.pending == "" && Arrives(input, text) && Printable(text)
    ensures HearAll(capacity, h, input) == h.(pending := Cut(capacity, text))
  {
    if text != "" {
      var n := |text| - 1;
      LineIsTyped(capacity, h, input[..n], text[..n]);
      assert text == text[..n] + [text[n]];
      assert n >= capacity - 1 ==> text[..n][..capacity - 1] == text[..capacity - 1];
      assert n == capacity - 1 ==> text[..n] == text[..capacity - 1];
    }
  }

  lemma {:induction false} HeardAfter(capacity: nat, h: Hearing, before: seq<Arrival>, input: seq<Arrival>)
    ensures HearAll(capacity, h, before + input) == HearAll(capacity, HearAll(capacity, h, before), input)
  {
    hide Hear;
    if input == [] {
      assert before + input == before;
    } else {
      var n := |input| - 1;
      HeardAfter(capacity, h, before, input[..n]);
      assert (before + input)[..|before| + n] == before + input[..n];
    }
  }

  lemma {:induction false} AllVisible(text: string)
    requires Printable(text)
    ensures Visible(text) == text
  {
    if text != "" {
      AllVisible(text[1..]);
    }
  }

  /** A line end forgets what was typed. */
  lemma LineEndForgets(capacity: nat, h: Hearing, input: seq<Arrival>)
    requires input != [] && EndsLine(input[|input| - 1].ch)
    ensures HearAll(capacity, h, input).pending == ""
  {
    hide Parse, Stored;
  }

  /** A line, then CR LF, on a console on which nothing is typed: what the buffer keeps of it is parsed once. */
  lemma LineIsObeyed(capacity: nat, h: Hearing, input: seq<Arrival>, text: string)
    requires capacity > 0 && h.pending == "" && Arrives(input, text + "\r\n") && Printable(text)
    ensures HearAll(capacity, h, input) == Hearing("", Stored(h.slots, Parse(Cut(capacity, text)), true, true))
  {
    hide Parse, Stored, Cut, Hear, HearAll, Visible;
    var n, kept := |text|, Cut(capacity, text);
    CrLf(text);
    var line := input[..n];
    assert Arrives(line, text);
    LineIsTyped(capacity, h, line, text);
    CutIsPrintable(capacity, text);
    AllVisible(kept);
    assert input[..n + 1] == line + [input[n]] && input == input[..n + 1] + [input[n + 1]];
    HearOneMore(capacity, h, line, input[n]);
    HearOneMore(capacity, h, input[..n + 1], input[n + 1]);
    HearLineEnd(capacity, h.(pending := kept), input[n]);
    HearLineEnd(capacity, Hearing("", Stored(h.slots, Parse(kept), true, true)), input[n + 1]);
    EmptyLine();
    NothingStored(Stored(h.slots, Parse(kept), true, true), Ignored, true, true);
  }

  lemma CutIsPrintable(capacity: nat, text: string)
    requires capacity > 0 && Printable(text)
    ensures Printable(Cut(capacity, text))
  {}

  lemma HearOneMore(capacity: nat, h: Hearing, input: seq<Arrival>, a: Arrival)
    ensures HearAll(capacity, h, input + [a]) == Hear(capacity, HearAll(capacity, h, input), a)
  {
    hide Hear;
    assert (input + [a])[..|input|] == input;
  }

  lemma HearLineEnd(capacity: nat, h: Hearing, a: Arrival)
    requires EndsLine(a.ch)
    ensures Hear(capacity, h, a) == Hearing("", Stored(h.slots, Parse(Visible(h.pending)), a.ok, a.okPeer))
  {
    hide Parse, Stored, Visible;
  }

  lemma CrLf(text: string)
    ensures (text + "\r\n")[|text|] == '\r' && (text + "\r\n")[|text| + 1] == '\n' && |text + "\r\n"| == |text| + 2
    ensures (text + "\r\n")[..|text|] == text
  {}

  /** The records that a host means to leave behind. */
  function Meant(s: Slots, scalar: Key, peer: Option<Key>): Slots {
    Slots(Some(SecretRecord(scalar)), if peer.Some? then Some(PeerRecord(peer.value)) else s.peer)
  }

  /**
   * Whatever was received up to the last line end, the line that a host prints for a scalar and an optional
   * peer, in either case of the digits and followed by CR LF, stores exactly the clamped scalar and the peer
   * if the buffer holds it; and a console that has neither record yet ends with these only if it does.
   */
  lemma ProvisioningStores(capacity: nat, h: Hearing, before: seq<Arrival>, input: seq<Arrival>,
                           digits: string, scalar: Key, peer: Option<Key>)
    requires digits == UPPER || digits == LOWER
    requires capacity > 0 && if before == [] then h.pending == "" else EndsLine(before[|before| - 1].ch)
    requires Arrives(input, PrintProvision(digits, scalar, peer) + "\r\n")
    ensures var s := HearAll(capacity, h, before).slots;
      && (capacity > |PrintProvision(digits, scalar, peer)| ==> HearAll(capacity, h, before + input) == Hearing("", Meant(s, scalar, peer)))
      && (s == Slots(None, None) && capacity <= |PrintProvision(digits, scalar, peer)| ==>
            HearAll(capacity, h, before + input).slots != Meant(s, scalar, peer))
  {
    hide Parse, PrintProvision, Hear, SecretRecord, PeerRecord, HearAll;
    var text := PrintProvision(digits, scalar, peer);
    HeardAfter(capacity, h, before, input);
    if before != [] {
      LineEndForgets(capacity, h, before);
    } else {
      NothingHeard(capacity, h);
    }
    PrintedIsPrintable(digits, scalar, peer);
    ParsePrinted(digits, scalar, peer);
    LineIsObeyed(capacity, HearAll(capacity, h, before), input, text);
    if capacity <= |text| {
      CutLineStoresLess(text, capacity - 1, scalar, peer);
    }
  }

  lemma NothingHeard(capacity: nat, h: Hearing)
    ensures HearAll(capacity, h, []) == h
  {}

  lemma CutLineStoresLess(line: string, k: nat, scalar: Key, peer: Option<Key>)
    requires k < |line| && "prov curve " <= line && |line| == if peer.Some? then 140 else 75
    ensures Stored(Slots(None, None), Parse(line[..k]), true, true) != Meant(Slots(None, None), scalar, peer)
  {
    hide Parse, SecretRecord, PeerRecord;
    if Parse(line[..k]).Provision? {
      CutLineNeedsRoom(line, k);
    }
  }

  lemma PrintedIsPrintable(digits: string, scalar: Key, peer: Option<Key>)
    requires digits == UPPER || digits == LOWER
    ensures Printable(PrintProvision(digits, scalar, peer))
  {
    hide Encode;
    HexIsPrintable(digits, scalar);
    if peer.Some? {
      HexIsPrintable(digits, peer.value);
    }
  }

  lemma HexIsPrintable(digits: string, bytes: seq<Byte>)
    requires digits == UPPER || digits == LOWER
    ensures Printable(Encode(digits, bytes))
  {
    hide FromByte;
    forall k | 0 <= k < 2 * |bytes|
      ensures !EndsLine(Encode(digits, bytes)[k]) && Encode(digits, bytes)[k] != '\0'
    {
      DigitIsNoSpace(digits, bytes[k / 2], k % 2 == 0);
    }
  }

  /** A line whose scalar is not 64 hexadecimal digits changes no key, whatever the flash does and whatever else is on it. */
  lemma BadScalarChangesNothing(capacity: nat, h: Hearing, a: Arrival)
    requires EndsLine(a.ch)
    requires var w := Words(Visible(h.pending)); |w| >= 2 && w[0] == "prov" && w[1] == "curve" && (|w| == 2 || Decode(w[2], 32) == None)
    ensures Hear(capacity, h, a) == h.(pending := "")
  {
    hide Words, Decode;
    WordsDecide(Visible(h.pending));
  }

  /** A provisioning line writes the scalar first: if the flash refuses it, no record changes, and if it refuses the peer, only the scalar's does. */
  lemma RefusedWrites(capacity: nat, h: Hearing, a: Arrival)
    requires EndsLine(a.ch) && Parse(Visible(h.pending)).Provision?
    ensures !a.ok ==> Hear(capacity, h, a).slots == h.slots
    ensures a.ok && !a.okPeer ==>
      Hear(capacity, h, a).slots == Slots(Some(PersistStore.KeyRecord(SECRET_MAGIC, Clamp(Parse(Visible(h.pending)).scalar))), h.slots.peer)
  {
    hide Parse, Clamp, Visible;
  }
}
