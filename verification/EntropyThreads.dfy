/**
 * Threads that share the generator of src/app_crypto.c. One action is one atomic access: the load of
 * the state, the compare-and-swap, or the increment of the call counter. Any thread may act at any time.
 */
module EntropyThreads {
  import opened Bytes
  import opened Entropy

  /** A successful draw: the how-many-th of the boot it is, and the state it installed. */
  datatype Draw = Draw(number: nat, state: Word)

  /** Where a thread stands in `generate_iv`, with the draws it has made for the vector in hand. */
  datatype Thread =
    | Idle
    | Loading(words: seq<Draw>)
    | Swapping(words: seq<Draw>, current: Word)
    | Counting(words: seq<Draw>)

  datatype Issued = Issued(iv: Iv, words: seq<Draw>)

  datatype System = System(seed: Iv, prng: Word, ivCounter: Word, threads: map<nat, Thread>, log: seq<Word>, issued: seq<Issued>)

  datatype Action = Begin(t: nat) | Load(t: nat) | Swap(t: nat) | Finish(t: nat)

  function At(s: System, t: nat): Thread {
    if t in s.threads then s.threads[t] else Idle
  }

  /** The state after an action; an action its thread is not ready for changes nothing. */
  function Next(s: System, a: Action): System {
    match (a, At(s, a.t))
    case (Begin(t), Idle) => s.(threads := s.threads[t := Loading([])])
    case (Load(t), Loading(words)) => s.(threads := s.threads[t := Swapping(words, s.prng)])
    case (Swap(t), Swapping(words, current)) =>
      if s.prng != current then s.(threads := s.threads[t := Loading(words)])
      else
        var next := NextState(current);
        var words' := words + [Draw(|s.log| + 1, next)];
        s.(prng := next, log := s.log + [next], threads := s.threads[t := if |words'| < 3 then Loading(words') else Counting(words')])
    case (Finish(t), Counting(words)) =>
      if |words| != 3 then s
      else
        var iv := MakeIv(s.seed, words[0].state, words[1].state, words[2].state, s.ivCounter);
        s.(ivCounter := (s.ivCounter + 1) % WORD, threads := s.threads[t := Idle], issued := s.issued + [Issued(iv, words)])
    case _ => s
  }

  function Run(s: System, actions: seq<Action>): System
    decreases |actions|
  {
    if actions == [] then s else Next(Run(s, actions[..|actions| - 1]), actions[|actions| - 1])
  }

  function Boot(seed: Iv, x: Word, ctr: Word): System {
    System(seed, x, ctr, map[], [], [])
  }

  // ---- what every step keeps ----

  function Words(th: Thread): seq<Draw> {
    if th.Idle? then [] else th.words
  }

  /** The draws in a list are points of the orbit of x that the log has reached. */
  ghost predicate OnOrbit(x: Word, drawn: nat, words: seq<Draw>) {
    forall k :: 0 <= k < |words| ==> 1 <= words[k].number <= drawn && words[k].state == StateAfter(x, words[k].number)
  }

  ghost predicate OfItsDraws(seed: Iv, ctr: Word, i: Issued) {
    |i.words| == 3 && i.iv == MakeIv(seed, i.words[0].state, i.words[1].state, i.words[2].state, ctr)
  }

  /** The call counter as the k-th finished call finds it. */
  function CounterOf(ctr: Word, k: nat): Word {
    (ctr + k) % WORD
  }

  /** No draw serves two vectors, be they issued or still in a thread's hands. */
  ghost predicate Unshared(s: System) {
    && (forall i, j :: 0 <= i < j < |s.issued| ==> Apart(s.issued[i].words, s.issued[j].words))
    && (forall i, t :: 0 <= i < |s.issued| ==> Apart(s.issued[i].words, Words(At(s, t))))
    && (forall t, u :: t != u ==> Apart(Words(At(s, t)), Words(At(s, u))))
  }

  ghost predicate Apart(a: seq<Draw>, b: seq<Draw>) {
    forall k, m :: 0 <= k < |a| && 0 <= m < |b| ==> a[k].number != b[m].number
  }

  /** The draws for one vector come one after another. */
  ghost predicate Ascending(words: seq<Draw>) {
    forall k, m :: 0 <= k < m < |words| ==> words[k].number < words[m].number
  }

  ghost predicate Inv(x: Word, ctr: Word, s: System) {
    && s.ivCounter == CounterOf(ctr, |s.issued|)
    && s.prng == StateAfter(x, |s.log|)
    && (forall k :: 0 <= k < |s.log| ==> s.log[k] == StateAfter(x, k + 1))
    && (forall t :: OnOrbit(x, |s.log|, Words(At(s, t))))
    && (forall i :: 0 <= i < |s.issued| ==> OnOrbit(x, |s.log|, s.issued[i].words) && OfItsDraws(s.seed, CounterOf(ctr, i), s.issued[i]))
    && (forall t :: Ascending(Words(At(s, t))))
    && (forall i :: 0 <= i < |s.issued| ==> Ascending(s.issued[i].words))
    && Unshared(s)
  }

  lemma NextKeepsInv(x: Word, ctr: Word, s: System, a: Action)
    requires Inv(x, ctr, s)
    ensures Inv(x, ctr, Next(s, a)) && Next(s, a).seed == s.seed
  {
    match (a, At(s, a.t))
    case (Swap(t), Swapping(words, current)) =>
      if s.prng == current {
        SwapKeepsInv(x, ctr, s, t, words);
      } else {
        QuietStepKeepsInv(x, ctr, s, a);
      }
    case (Finish(t), Counting(words)) =>
      if |words| == 3 {
        FinishKeepsInv(x, ctr, s, t, words);
      }
    case _ => QuietStepKeepsInv(x, ctr, s, a);
  }

  /** A step that draws nothing and issues nothing. */
  lemma QuietStepKeepsInv(x: Word, ctr: Word, s: System, a: Action)
    requires Inv(x, ctr, s)
    requires Next(s, a).log == s.log && Next(s, a).issued == s.issued && Next(s, a).prng == s.prng && Next(s, a).seed == s.seed && Next(s, a).ivCounter == s.ivCounter
    ensures Inv(x, ctr, Next(s, a))
  {
    hide StateAfter, MakeIv, NextState, OnOrbit, Ascending, Apart, OfItsDraws;
    var s' := Next(s, a);
    NoWords(x, |s.log|);
    assert forall u :: Words(At(s', u)) == Words(At(s, u)) || Words(At(s', u)) == [];
  }

  lemma NoWords(x: Word, drawn: nat)
    ensures OnOrbit(x, drawn, []) && Ascending([])
    ensures forall words: seq<Draw> :: Apart([], words) && Apart(words, [])
  {}

  lemma SwapKeepsInv(x: Word, ctr: Word, s: System, t: nat, words: seq<Draw>)
    requires Inv(x, ctr, s) && At(s, t) == Swapping(words, s.prng)
    ensures Inv(x, ctr, Next(s, Swap(t)))
  {
    hide StateAfter, MakeIv, NextState, OnOrbit, Apart, Ascending, OfItsDraws;
    var s', n := Next(s, Swap(t)), |s.log| + 1;
    OneMore(x, |s.log|);
    var words' := words + [Draw(n, s'.prng)];
    assert words == Words(At(s, t)) && Words(At(s', t)) == words';
    SwapKeepsOrbit(x, ctr, s, t, words');
    SwapKeepsApart(x, ctr, s, t, words');
    SwapKeepsOrder(x, ctr, s, t, words');
    AfterSwap(x, ctr, s, s', t, words');
  }

  /** The parts of the invariant put together, the predicates on draws left closed. */
  lemma AfterSwap(x: Word, ctr: Word, s: System, s': System, t: nat, words': seq<Draw>)
    requires Inv(x, ctr, s) && s'.seed == s.seed && s'.issued == s.issued && s'.ivCounter == s.ivCounter
    requires s'.prng == StateAfter(x, |s.log| + 1) && s'.log == s.log + [s'.prng]
    requires Words(At(s', t)) == words' && forall u :: u != t ==> At(s', u) == At(s, u)
    requires OnOrbit(x, |s'.log|, words') && forall u :: OnOrbit(x, |s'.log|, Words(At(s, u)))
    requires forall i :: 0 <= i < |s.issued| ==> OnOrbit(x, |s'.log|, s.issued[i].words)
    requires forall u :: u != t ==> Apart(Words(At(s, u)), words') && Apart(words', Words(At(s, u)))
    requires forall i :: 0 <= i < |s.issued| ==> Apart(s.issued[i].words, words')
    requires Ascending(words')
    ensures Inv(x, ctr, s')
  {
    hide StateAfter, OnOrbit, Apart, Ascending, OfItsDraws, Words, At;
  }

  lemma SwapKeepsOrder(x: Word, ctr: Word, s: System, t: nat, words': seq<Draw>)
    requires Inv(x, ctr, s)
    requires var n := |s.log| + 1; words' == Words(At(s, t)) + [Draw(n, StateAfter(x, n))]
    ensures Ascending(words')
  {
    hide StateAfter, OfItsDraws, Apart;
    assert OnOrbit(x, |s.log|, Words(At(s, t))) && Ascending(Words(At(s, t)));
  }

  lemma SwapKeepsOrbit(x: Word, ctr: Word, s: System, t: nat, words': seq<Draw>)
    requires Inv(x, ctr, s)
    requires var n := |s.log| + 1; words' == Words(At(s, t)) + [Draw(n, StateAfter(x, n))]
    ensures OnOrbit(x, |s.log| + 1, words')
    ensures forall u :: OnOrbit(x, |s.log| + 1, Words(At(s, u)))
    ensures forall i :: 0 <= i < |s.issued| ==> OnOrbit(x, |s.log| + 1, s.issued[i].words)
  {
    hide StateAfter, OfItsDraws, Apart, Ascending;
    assert OnOrbit(x, |s.log|, Words(At(s, t)));
  }

  lemma SwapKeepsApart(x: Word, ctr: Word, s: System, t: nat, words': seq<Draw>)
    requires Inv(x, ctr, s)
    requires var n := |s.log| + 1; words' == Words(At(s, t)) + [Draw(n, StateAfter(x, n))]
    ensures forall u :: u != t ==> Apart(Words(At(s, u)), words') && Apart(words', Words(At(s, u)))
    ensures forall i :: 0 <= i < |s.issued| ==> Apart(s.issued[i].words, words')
  {
    hide StateAfter, OfItsDraws;
    forall u | u != t
      ensures Apart(Words(At(s, u)), words') && Apart(words', Words(At(s, u)))
    {
      assert OnOrbit(x, |s.log|, Words(At(s, u))) && Apart(Words(At(s, t)), Words(At(s, u)));
    }
    forall i | 0 <= i < |s.issued|
      ensures Apart(s.issued[i].words, words')
    {
      assert OnOrbit(x, |s.log|, s.issued[i].words) && Apart(s.issued[i].words, Words(At(s, t)));
    }
  }

  lemma OneMore(x: Word, n: nat)
    ensures StateAfter(x, n + 1) == NextState(StateAfter(x, n))
  {}

  lemma FinishKeepsInv(x: Word, ctr: Word, s: System, t: nat, words: seq<Draw>)
    requires Inv(x, ctr, s) && At(s, t) == Counting(words) && |words| == 3
    ensures Inv(x, ctr, Next(s, Finish(t)))
  {
    hide StateAfter, MakeIv;
    var s' := Next(s, Finish(t));
    var last := s'.issued[|s.issued|];
    assert OfItsDraws(s.seed, CounterOf(ctr, |s.issued|), last);
    NextCounter(ctr, |s.issued|);
    hide CounterOf;
    assert words == Words(At(s, t));
    assert forall u :: u != t ==> At(s', u) == At(s, u);
    assert Words(At(s', t)) == [];
  }

  lemma {:induction false} RunKeepsInv(seed: Iv, x: Word, ctr: Word, actions: seq<Action>)
    ensures var s := Run(Boot(seed, x, ctr), actions); Inv(x, ctr, s) && s.seed == seed
    decreases |actions|
  {
    hide StateAfter, MakeIv, NextState;
    if actions == [] {
      assert StateAfter(x, 0) == x by { NoDraws(x); }
    } else {
      RunKeepsInv(seed, x, ctr, actions[..|actions| - 1]);
      NextKeepsInv(x, ctr, Run(Boot(seed, x, ctr), actions[..|actions| - 1]), actions[|actions| - 1]);
      hide Inv;
    }
  }

  lemma NextCounter(ctr: Word, k: nat)
    ensures CounterOf(ctr, k + 1) == (CounterOf(ctr, k) + 1) % WORD
  {}

  lemma NoDraws(x: Word)
    ensures StateAfter(x, 0) == x
  {}

  /**
   * Under every interleaving the n-th successful draw of the boot installs the n-th point of the one
   * orbit; the k-th issued vector comes of three of these draws and the k-th counter value; no draw serves
   * two vectors or one vector twice; and while there are at most 2^32 draws no two issued vectors are equal.
   */
  lemma VectorsStayDistinct(seed: Iv, x: Word, ctr: Word, actions: seq<Action>)
    ensures var s := Run(Boot(seed, x, ctr), actions);
      && (forall n :: 0 <= n < |s.log| ==> s.log[n] == StateAfter(x, n + 1))
      && (forall i :: 0 <= i < |s.issued| ==> OfItsDraws(seed, CounterOf(ctr, i), s.issued[i]) && Ascending(s.issued[i].words))
      && (forall i :: 0 <= i < |s.issued| ==> OnOrbit(x, |s.log|, s.issued[i].words))
      && (forall i, j :: 0 <= i < j < |s.issued| ==> Apart(s.issued[i].words, s.issued[j].words))
      && (|s.log| <= WORD ==> forall i, j :: 0 <= i < j < |s.issued| ==> s.issued[i].iv != s.issued[j].iv)
  {
    hide *;
    RunKeepsInv(seed, x, ctr, actions);
    InvTells(x, ctr, Run(Boot(seed, x, ctr), actions));
  }

  lemma InvTells(x: Word, ctr: Word, s: System)
    requires Inv(x, ctr, s)
    ensures forall n :: 0 <= n < |s.log| ==> s.log[n] == StateAfter(x, n + 1)
    ensures forall i :: 0 <= i < |s.issued| ==> OfItsDraws(s.seed, CounterOf(ctr, i), s.issued[i]) && Ascending(s.issued[i].words)
    ensures forall i :: 0 <= i < |s.issued| ==> OnOrbit(x, |s.log|, s.issued[i].words)
    ensures forall i, j :: 0 <= i < j < |s.issued| ==> Apart(s.issued[i].words, s.issued[j].words)
    ensures |s.log| <= WORD ==> forall i, j :: 0 <= i < j < |s.issued| ==> s.issued[i].iv != s.issued[j].iv
  {
    hide StateAfter, OfItsDraws, CounterOf, Ascending, OnOrbit, Apart;
    if |s.log| <= WORD {
      forall i, j | 0 <= i < j < |s.issued|
        ensures s.issued[i].iv != s.issued[j].iv
      {
        IssuedDiffer(x, ctr, s, i, j);
      }
    }
  }

  lemma IssuedDiffer(x: Word, ctr: Word, s: System, i: nat, j: nat)
    requires Inv(x, ctr, s) && |s.log| <= WORD && i < j < |s.issued|
    ensures s.issued[i].iv != s.issued[j].iv
  {
    hide StateAfter, MakeIv;
    var a, b := s.issued[i].words, s.issued[j].words;
    var c, d := CounterOf(ctr, i), CounterOf(ctr, j);
    assert OfItsDraws(s.seed, c, s.issued[i]) && OfItsDraws(s.seed, d, s.issued[j]);
    assert Apart(a, b) && OnOrbit(x, |s.log|, a) && OnOrbit(x, |s.log|, b);
    assert a[0].number != b[0].number;
    if s.issued[i].iv == s.issued[j].iv {
      FirstWordTells(s.seed, a[0].state, a[1].state, a[2].state, c, b[0].state, b[1].state, b[2].state, d);
      StatePositions(x, a[0].number, b[0].number);
      assert false;
    }
  }

  // ---- progress ----

  predicate OfOthers(t: nat, actions: seq<Action>) {
    forall a :: a in actions ==> a.t != t
  }

  lemma {:induction false} OthersLeaveThread(s: System, t: nat, others: seq<Action>)
    requires OfOthers(t, others)
    ensures var s' := Run(s, others); At(s', t) == At(s, t) && |s'.log| >= |s.log| && (|s'.log| == |s.log| ==> s'.prng == s.prng)
    decreases |others|
  {
    hide MakeIv, NextState;
    if others != [] {
      var before, last := others[..|others| - 1], others[|others| - 1];
      assert last in others && forall a :: a in before ==> a in others;
      OthersLeaveThread(s, t, before);
    }
  }

  /** Lock freedom: whatever the others do between a load and the swap that follows, somebody's draw succeeds. */
  lemma SomebodyDraws(s: System, t: nat, others: seq<Action>)
    requires At(s, t).Loading? && OfOthers(t, others)
    ensures |Next(Run(Next(s, Load(t)), others), Swap(t)).log| > |s.log|
  {
    hide NextState, MakeIv, Run;
    OthersLeaveThread(Next(s, Load(t)), t, others);
  }

  function WholeCall(t: nat): seq<Action> {
    [Begin(t), Load(t), Swap(t), Load(t), Swap(t), Load(t), Swap(t), Finish(t)]
  }

  /** A call that no other thread interrupts issues the vector, and leaves the state, of `generate_iv`. */
  lemma UninterruptedCall(s: System, t: nat)
    requires At(s, t) == Idle
    ensures var s' := Run(s, WholeCall(t));
      && |s'.issued| == |s.issued| + 1 && s'.issued[|s.issued|].iv == IvOfCall(s.seed, s.prng, s.ivCounter, 0)
      && s'.issued[..|s.issued|] == s.issued
      && s'.prng == StateAfter(s.prng, 3) && s'.ivCounter == (s.ivCounter + 1) % WORD && At(s', t) == Idle
  {
    hide NextState, MakeIv, Run, StateAfter, Next, At;
    var s1 := Next(s, Begin(t));
    var s3 := Next(Next(s1, Load(t)), Swap(t));
    var s5 := Next(Next(s3, Load(t)), Swap(t));
    var s7 := Next(Next(s5, Load(t)), Swap(t));
    var d1, d2, d3 := Draw(|s.log| + 1, s3.prng), Draw(|s3.log| + 1, s5.prng), Draw(|s5.log| + 1, s7.prng);
    ThreeDraws(s.prng);
    RunsInTurn(s, t);
    CallBegins(s, t);
    DrawsAlone(s1, t, []);
    assert [] + [d1] == [d1] && [d1] + [d2] == [d1, d2] && [d1, d2] + [d3] == [d1, d2, d3];
    DrawsAlone(s3, t, [d1]);
    DrawsAlone(s5, t, [d1, d2]);
    CallEnds(s7, t, [d1, d2, d3]);
  }

  lemma CallBegins(s: System, t: nat)
    requires At(s, t) == Idle
    ensures var s' := Next(s, Begin(t)); At(s', t) == Loading([]) && s' == s.(threads := s'.threads)
  {}

  lemma DrawsAlone(s: System, t: nat, words: seq<Draw>)
    requires At(s, t) == Loading(words) && |words| < 3
    ensures var s', next := Next(Next(s, Load(t)), Swap(t)), NextState(s.prng);
      var words' := words + [Draw(|s.log| + 1, next)];
      s' == s.(prng := next, log := s.log + [next], threads := s'.threads) && At(s', t) == if |words'| < 3 then Loading(words') else Counting(words')
  {
    hide NextState;
  }

  lemma CallEnds(s: System, t: nat, words: seq<Draw>)
    requires At(s, t) == Counting(words) && |words| == 3
    ensures var s' := Next(s, Finish(t));
      && s'.issued == s.issued + [Issued(MakeIv(s.seed, words[0].state, words[1].state, words[2].state, s.ivCounter), words)]
      && s'.prng == s.prng && s'.ivCounter == (s.ivCounter + 1) % WORD && At(s', t) == Idle
  {
    hide MakeIv;
  }

  lemma ThreeDraws(x: Word)
    ensures StateAfter(x, 1) == NextState(x) && StateAfter(x, 2) == NextState(NextState(x)) && StateAfter(x, 3) == NextState(NextState(NextState(x)))
  {
    hide NextState;
    assert StateAfter(x, 0) == x;
  }

  lemma RunsInTurn(s: System, t: nat)
    ensures Run(s, WholeCall(t)) == Next(Next(Next(Next(Next(Next(Next(Next(s, Begin(t)), Load(t)), Swap(t)), Load(t)), Swap(t)), Load(t)), Swap(t)), Finish(t))
  {
    hide Next;
    var w := WholeCall(t);
    RunPrefix(s, w, 0);
    RunPrefix(s, w, 1);
    RunPrefix(s, w, 2);
    RunPrefix(s, w, 3);
    RunPrefix(s, w, 4);
    RunPrefix(s, w, 5);
    RunPrefix(s, w, 6);
    RunPrefix(s, w, 7);
    assert w[..8] == w && w[..0] == [];
    assert Run(s, []) == s;
  }

  lemma RunPrefix(s: System, w: seq<Action>, n: nat)
    requires n < |w|
    ensures Run(s, w[..n + 1]) == Next(Run(s, w[..n]), w[n])
  {
    hide Next;
    assert w[..n + 1][..n] == w[..n];
  }
}
