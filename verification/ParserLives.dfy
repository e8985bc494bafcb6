/** What every run of `argp_parse` means: for each group, for the order of the groups, and for the
    value that is returned. */
module ParserLives {
  import opened Wrappers
  import opened ParserRuns
  import ParserTables

  // ----- What one group sees -----

  /** The keys a group is called with. */
  function KeysOf(calls: seq<Call>, g: nat): seq<Key> {
    if calls == [] then []
    else KeysOf(calls[..|calls| - 1], g) + if calls[|calls| - 1].group == g then [calls[|calls| - 1].key] else []
  }

  lemma {:induction false} KeysAppend(a: seq<Call>, b: seq<Call>, g: nat)
    ensures KeysOf(a + b, g) == KeysOf(a, g) + KeysOf(b, g)
  {
    if b == [] {
      assert a + b == a;
    } else {
      assert (a + b)[..|a + b| - 1] == a + b[..|b| - 1];
      KeysAppend(a, b[..|b| - 1], g);
    }
  }

  function Told(told: bool, key: Key): seq<Key> { if told then [key] else [] }

  lemma UpNext(hasParser: seq<bool>, key: Key, n: nat, calls: seq<Call>)
    requires n > 0 && calls == Up(hasParser, key, n)
    ensures calls == Up(hasParser, key, n - 1) + One(hasParser, n - 1, key)
  {}

  /** A pass one group longer: P and Q tell which of its parts reach group G. */
  lemma PassGrows(whole: seq<Call>, a: seq<Call>, b: seq<Call>, key: Key, g: nat, p: bool, q: bool, told: bool)
    requires whole == a + b && KeysOf(a, g) == Told(p, key) && KeysOf(b, g) == Told(q, key)
    requires !(p && q) && told == (p || q)
    ensures KeysOf(whole, g) == Told(told, key)
  {
    KeysAppend(a, b, g);
  }

  lemma KeysOne(hasParser: seq<bool>, h: nat, key: Key, g: nat, told: bool)
    requires h < |hasParser| && told == (h == g && hasParser[h])
    ensures KeysOf(One(hasParser, h, key), g) == Told(told, key)
  {}

  lemma KeysOneIdle(hasParser: seq<bool>, args: seq<int>, h: nat, key: Key, g: nat, told: bool)
    requires h < |hasParser| == |args| && told == (h == g && hasParser[h] && args[h] == 0)
    ensures KeysOf(OneIdle(hasParser, args, h, key), g) == Told(told, key)
  {}

  lemma {:induction false} KeysUp(hasParser: seq<bool>, key: Key, n: nat, g: nat, told: bool, calls: seq<Call>)
    requires n <= |hasParser| && told == (g < n && hasParser[g]) && calls == Up(hasParser, key, n)
    ensures KeysOf(calls, g) == Told(told, key)
  {
    if n == 0 {
      assert calls == [];
    } else {
      var p, q, before := g < n - 1 && hasParser[g], n - 1 == g && hasParser[n - 1], Up(hasParser, key, n - 1);
      UpNext(hasParser, key, n, calls);
      KeysUp(hasParser, key, n - 1, g, p, before);
      KeysOne(hasParser, n - 1, key, g, q);
      PassGrows(calls, before, One(hasParser, n - 1, key), key, g, p, q, told);
    }
  }

  lemma {:induction false} KeysUpIdle(hasParser: seq<bool>, args: seq<int>, key: Key, n: nat, g: nat, told: bool, calls: seq<Call>)
    requires n <= |hasParser| == |args| && told == (g < n && hasParser[g] && args[g] == 0) && calls == UpIdle(hasParser, args, key, n)
    ensures KeysOf(calls, g) == Told(told, key)
  {
    if n == 0 {
      assert calls == [];
    } else {
      var p, q := g < n - 1 && hasParser[g] && args[g] == 0, n - 1 == g && hasParser[n - 1] && args[n - 1] == 0;
      var before := UpIdle(hasParser, args, key, n - 1);
      KeysUpIdle(hasParser, args, key, n - 1, g, p, before);
      KeysOneIdle(hasParser, args, n - 1, key, g, q);
      PassGrows(calls, before, OneIdle(hasParser, args, n - 1, key), key, g, p, q, told);
    }
  }

  lemma {:induction false} KeysDown(hasParser: seq<bool>, key: Key, n: nat, g: nat, told: bool, calls: seq<Call>)
    requires n <= |hasParser| && told == (n <= g < |hasParser| && hasParser[g]) && calls == Down(hasParser, key, n)
    ensures KeysOf(calls, g) == Told(told, key)
    decreases |hasParser| - n
  {
    if n == |hasParser| {
      assert calls == [];
    } else {
      var p, q, before := n + 1 <= g < |hasParser| && hasParser[g], n == g && hasParser[n], Down(hasParser, key, n + 1);
      KeysDown(hasParser, key, n + 1, g, p, before);
      KeysOne(hasParser, n, key, g, q);
      PassGrows(calls, before, One(hasParser, n, key), key, g, p, q, told);
    }
  }

  /** What a group with a parsing function sees of the end of a run. */
  function ClosingKeys(processed: bool, c: Closing, g: nat): seq<Key> {
    Told(g < c.idle && !processed, NoArgs) + Told(c.ended <= g, End)
    + (if c.failed then [Error] else Told(c.succeeded <= g, Success)) + [Fini]
  }

  lemma KeysClosing(hasParser: seq<bool>, args: seq<int>, c: Closing, g: nat, processed: bool)
    requires Bounded(hasParser, c) && |args| == |hasParser| && g < |hasParser| && hasParser[g] && processed == (args[g] != 0)
    ensures KeysOf(ClosingCalls(hasParser, args, c), g) == ClosingKeys(processed, c, g)
  {
    var idle, ended := UpIdle(hasParser, args, NoArgs, c.idle), Down(hasParser, End, c.ended);
    var verdict, fini := Verdict(hasParser, c), Down(hasParser, Fini, 0);
    KeysAppend(idle + ended + verdict, fini, g);
    KeysAppend(idle + ended, verdict, g);
    KeysAppend(idle, ended, g);
    KeysUpIdle(hasParser, args, NoArgs, c.idle, g, g < c.idle && !processed, idle);
    KeysDown(hasParser, End, c.ended, g, c.ended <= g, ended);
    KeysDown(hasParser, Fini, 0, g, true, fini);
    if c.failed {
      KeysUp(hasParser, Error, |hasParser|, g, true, verdict);
    } else {
      KeysDown(hasParser, Success, c.succeeded, g, c.succeeded <= g, verdict);
    }
  }

  /** Calls made while the command line is read. */
  predicate IsReading(k: Key) { k.User? || k == Arg || k == Args }

  ghost predicate AllReading(s: seq<Call>) { forall i | 0 <= i < |s| :: IsReading(s[i].key) }

  ghost predicate ReadingKeys(ks: seq<Key>) { forall i | 0 <= i < |ks| :: IsReading(ks[i]) }

  lemma {:induction false} OffersAreReading(hasParser: seq<bool>, n: nat)
    ensures AllReading(Offers(hasParser, n))
  {
    if n > 0 {
      OffersAreReading(hasParser, n - 1);
    }
  }

  lemma {:induction false} MiddleIsReading(hasParser: seq<bool>, steps: seq<Step>)
    ensures AllReading(MiddleCalls(hasParser, steps))
  {
    if steps != [] {
      var t := steps[|steps| - 1];
      MiddleIsReading(hasParser, steps[..|steps| - 1]);
      OffersAreReading(hasParser, if t.taker.Some? then t.taker.value else |hasParser|);
    }
  }

  lemma {:induction false} KeysAreReading(middle: seq<Call>, g: nat)
    requires AllReading(middle)
    ensures ReadingKeys(KeysOf(middle, g))
  {
    if middle != [] {
      KeysAreReading(middle[..|middle| - 1], g);
    }
  }

  /** A turn that credits a group ends with a call to it, answered with success. */
  lemma CreditMeans(s: Setup, e: Event, t: Step, g: nat)
    requires StepOk(s, e, t) && Credits(t, g)
    ensures var calls := StepCalls(s.hasParser, t);
            && calls != [] && |t.answers| == |calls| && calls[|calls| - 1].group == g && calls[|calls| - 1].key in {Arg, Args}
            && t.answers[|calls| - 1].err == 0
  {
    var offer := Offer(s.hasParser, g, t.whole);
    assert offer != [] && offer[|offer| - 1].group == g && offer[|offer| - 1].key in {Arg, Args};
    assert StepCalls(s.hasParser, t) == Offers(s.hasParser, g) + offer;
  }

  /** What a group sees of a complete run. */
  ghost function LifeKeys(hasParser: seq<bool>, run: Run, g: nat): seq<Key>
    requires WellFormed(hasParser, run) && run.Complete?
  {
    [Init] + KeysOf(MiddleCalls(hasParser, run.steps), g) + ClosingKeys(Processed(run.steps, g), run.closing, g)
  }

  /** The life of a group in a complete run: initialized once, then options and arguments, then
      at most once told that it had no arguments, only if it processed none in any turn, and at
      most once that all is read; then the error or the success but never both; then finished. */
  lemma GroupLife(hasParser: seq<bool>, run: Run, g: nat)
    requires WellFormed(hasParser, run) && run.Complete? && g < |hasParser| && hasParser[g]
    ensures KeysOf(RunCalls(hasParser, run), g) == LifeKeys(hasParser, run, g)
    ensures ReadingKeys(KeysOf(MiddleCalls(hasParser, run.steps), g))
    ensures NoArgs in KeysOf(RunCalls(hasParser, run), g) ==> !Processed(run.steps, g)
  {
    var init, middle, args := Up(hasParser, Init, |hasParser|), MiddleCalls(hasParser, run.steps), Counts(|hasParser|, run.steps);
    KeysAppend(init + middle, ClosingCalls(hasParser, args, run.closing), g);
    KeysAppend(init, middle, g);
    KeysUp(hasParser, Init, |hasParser|, g, true, init);
    CountsTell(|hasParser|, run.steps, g);
    KeysClosing(hasParser, args, run.closing, g, Processed(run.steps, g));
    MiddleIsReading(hasParser, run.steps);
    KeysAreReading(middle, g);
    NoArgsOnlyThere(KeysOf(middle, g), Processed(run.steps, g), run.closing, g);
  }

  lemma NoArgsOnlyThere(ks: seq<Key>, processed: bool, c: Closing, g: nat)
    requires ReadingKeys(ks)
    ensures NoArgs in [Init] + ks + ClosingKeys(processed, c, g) <==> g < c.idle && !processed
  {
    var tail := Told(c.ended <= g, End) + (if c.failed then [Error] else Told(c.succeeded <= g, Success)) + [Fini];
    assert ClosingKeys(processed, c, g) == Told(g < c.idle && !processed, NoArgs) + tail;
    assert NoArgs !in tail && NoArgs !in ks;
  }

  lemma ClosingOfSuccess(n: nat, processed: bool, c: Closing, all: bool, g: nat)
    requires g < n && !c.failed && c.succeeded == 0
    requires if all then c.idle == n && c.ended == 0 else c.idle == 0 && c.ended == n
    ensures ClosingKeys(processed, c, g) == if all then Told(!processed, NoArgs) + [End, Success, Fini] else [Success, Fini]
  {}

  /** Every argument was read when the closing began. */
  predicate AllArguments(s: Setup, run: Run)
    requires run.Complete? && run.steps != []
  {
    run.steps[|run.steps| - 1].after.next == s.argc
  }

  /** A run that returns 0 gives every parser one of the documented sequences, with FINI last. */
  lemma SuccessfulLife(s: Setup, events: seq<Event>, wantsEnd: bool, first: Reader, run: Run, g: nat)
    requires WellFormed(s.hasParser, run) && run.Complete? && RunOk(s, events, wantsEnd, first, run, 0)
    requires g < |s.hasParser| && s.hasParser[g]
    ensures AllArguments(s, run) || wantsEnd
    ensures KeysOf(RunCalls(s.hasParser, run), g) ==
              [Init] + KeysOf(MiddleCalls(s.hasParser, run.steps), g)
              + (if AllArguments(s, run) then Told(!Processed(run.steps, g), NoArgs) + [End, Success, Fini] else [Success, Fini])
  {
    SuccessIsReal(s, wantsEnd, run);
    GroupLife(s.hasParser, run, g);
    ClosingOfSuccess(|s.hasParser|, Processed(run.steps, g), run.closing, AllArguments(s, run), g);
  }

  lemma SuccessIsReal(s: Setup, wantsEnd: bool, run: Run)
    requires run.Complete? && run.steps != [] && Bounded(s.hasParser, run.closing) && LastError(run.steps) != 0
    requires Ended(s, wantsEnd, Counts(|s.hasParser|, run.steps), run.steps[|run.steps| - 1], run.closing, run.closed, run.verdict, run.fini, 0)
    ensures !run.closing.failed && run.closing.succeeded == 0 && Fine(run.steps[|run.steps| - 1])
  {}

  /** A run aborted during initialization only initialized a first stretch of the groups. */
  lemma AbortedLife(hasParser: seq<bool>, run: Run, g: nat)
    requires WellFormed(hasParser, run) && run.Aborted? && g < |hasParser|
    ensures KeysOf(RunCalls(hasParser, run), g) == Told(g < run.groups && hasParser[g], Init)
  {
    KeysUp(hasParser, Init, run.groups, g, g < run.groups && hasParser[g], RunCalls(hasParser, run));
  }

  // ----- The value returned -----

  lemma {:induction false} MiddleObeyed(s: Setup, events: seq<Event>, steps: seq<Step>, start: Reader, end: Reader)
    requires Turns(s, events, steps, start, end)
    ensures Obeyed(MiddleAnswers(steps), LastError(steps))
  {
    if steps != [] {
      var m := |steps| - 1;
      MiddleObeyed(s, events, steps[..m], start, steps[m].before);
      assert LastError(steps[..m]) == 0;
      StepObeyed(steps[m].answers, steps[m].err);
      ObeyedStep(MiddleAnswers(steps[..m]), steps[m].answers, steps[m].err);
    }
  }

  lemma StepObeyed(rs: seq<Answer>, err: int)
    requires Answered(rs, err)
    ensures Obeyed(rs, err)
  {}

  /** All answers before the parsers are told how it went. */
  ghost function BeforeVerdict(run: Run): seq<Answer>
    requires run.Complete?
  {
    run.init + MiddleAnswers(run.steps) + run.closed
  }

  /** The value `argp_parse` returns: the first error code of a parsing function that is not
      tolerated, which also ends the run; EINVAL when there was none but an option or an argument
      was not understood; 0 otherwise. */
  lemma ErrorReturned(s: Setup, events: seq<Event>, wantsEnd: bool, first: Reader, run: Run, err: int)
    requires WellFormed(s.hasParser, run) && run.Complete? && RunOk(s, events, wantsEnd, first, run, err)
    ensures run.closing.failed ==> if Calm(BeforeVerdict(run)) then err == EINVAL else Obeyed(BeforeVerdict(run), err)
    ensures !run.closing.failed ==> Calm(BeforeVerdict(run)) && Obeyed(run.verdict, err) && err != EBADKEY
    ensures err == 0 ==> !run.closing.failed && Calm(BeforeVerdict(run)) && Calm(run.verdict)
  {
    var t := run.steps[|run.steps| - 1];
    NothingClosed(s, wantsEnd, Counts(|s.hasParser|, run.steps), t, run.closing, run.closed, run.verdict, run.fini, err);
    MiddleObeyed(s, events, run.steps, Started(first, run.init), t.after);
    SumOfParts(run.init, MiddleAnswers(run.steps), run.closed, run.verdict, run.closing, Fine(t), t.err, err);
  }

  lemma OneObeyed(rs: seq<Answer>, err: int, err': int)
    requires Obeyed(rs, err) && Obeyed(rs, err') && err != EBADKEY && err' != EBADKEY
    ensures err == err'
  {}

  lemma OneReturned(c: Closing, fine: bool, err0: int, closed: seq<Answer>, verdict: seq<Answer>, err: int, err': int)
    requires Returned(c, fine, err0, closed, verdict, err) && Returned(c, fine, err0, closed, verdict, err')
    ensures err == err'
  {
    if !c.failed {
      OneObeyed(verdict, err, err');
    } else if fine && !Calm(closed) {
      OneObeyed(closed, err, err');
    }
  }

  /** A run determines the value that is returned. */
  lemma OneResult(s: Setup, events: seq<Event>, wantsEnd: bool, first: Reader, run: Run, err: int, err': int)
    requires WellFormed(s.hasParser, run) && RunOk(s, events, wantsEnd, first, run, err) && RunOk(s, events, wantsEnd, first, run, err')
    ensures err == err'
  {
    if run.Aborted? {
      OneObeyed(run.init, err, err');
    } else if run.Complete? {
      var t := run.steps[|run.steps| - 1];
      OneReturned(run.closing, Fine(t), t.err, run.closed, run.verdict, err, err');
    }
  }

  lemma NothingClosed(s: Setup, wantsEnd: bool, args: seq<int>, t: Step, c: Closing,
                      closed: seq<Answer>, verdict: seq<Answer>, fini: seq<Answer>, err: int)
    requires Bounded(s.hasParser, c) && |args| == |s.hasParser| && Ended(s, wantsEnd, args, t, c, closed, verdict, fini, err)
    ensures Returned(c, Fine(t), t.err, closed, verdict, err) && (!Fine(t) ==> closed == [])
  {
    assert c.idle == 0 && c.ended == |s.hasParser| ==> ReadCalls(s.hasParser, args, c.idle, c.ended) == [];
  }

  lemma SumOfParts(init: seq<Answer>, read: seq<Answer>, closed: seq<Answer>, verdict: seq<Answer>, c: Closing, fine: bool, err0: int, err: int)
    requires Calm(init) && Obeyed(read, err0) && err0 != 0 && (fine ==> err0 == EBADKEY) && (!fine ==> closed == [])
    requires Returned(c, fine, err0, closed, verdict, err)
    ensures c.failed ==> if Calm(init + read + closed) then err == EINVAL else Obeyed(init + read + closed, err)
    ensures !c.failed ==> Calm(init + read + closed)
    ensures err == 0 ==> !c.failed && Calm(init + read + closed) && Calm(verdict)
  {
    var before := init + read;
    ObeyedStep(init, read, err0);
    if !fine {
      assert before + closed == before;
      if err0 != EBADKEY {
        assert !Tolerated(before[|before| - 1].err);
      }
    } else if c.failed && !Calm(closed) {
      ObeyedStep(before, closed, err);
      var i :| 0 <= i < |closed| && !Tolerated(closed[i].err);
      assert (before + closed)[|before| + i] == closed[i];
    }
  }

  // ----- The order of the groups -----

  /** The groups called with a key, in the order of the calls. */
  function Called(calls: seq<Call>, key: Key): seq<nat> {
    if calls == [] then []
    else Called(calls[..|calls| - 1], key) + if calls[|calls| - 1].key == key then [calls[|calls| - 1].group] else []
  }

  lemma {:induction false} CalledAppend(a: seq<Call>, b: seq<Call>, key: Key)
    ensures Called(a + b, key) == Called(a, key) + Called(b, key)
  {
    if b == [] {
      assert a + b == a;
    } else {
      assert (a + b)[..|a + b| - 1] == a + b[..|b| - 1];
      CalledAppend(a, b[..|b| - 1], key);
    }
  }

  lemma {:induction false} NoneCalled(calls: seq<Call>, key: Key)
    requires forall i | 0 <= i < |calls| :: calls[i].key != key
    ensures Called(calls, key) == []
  {
    if calls != [] {
      NoneCalled(calls[..|calls| - 1], key);
    }
  }

  ghost predicate Falling(gs: seq<nat>) { forall i, j | 0 <= i < j < |gs| :: gs[i] > gs[j] }

  ghost predicate AllFrom(gs: seq<nat>, n: nat) { forall i | 0 <= i < |gs| :: gs[i] >= n }

  lemma FallingSnoc(gs: seq<nat>, n: nat)
    requires Falling(gs) && AllFrom(gs, n + 1)
    ensures Falling(gs + [n]) && AllFrom(gs + [n], n)
  {}

  lemma FallingStep(whole: seq<Call>, a: seq<Call>, b: seq<Call>, key: Key, n: nat)
    requires whole == a + b && Falling(Called(a, key)) && AllFrom(Called(a, key), n + 1) && (b == [] || b == [Call(n, key)])
    ensures Falling(Called(whole, key)) && AllFrom(Called(whole, key), n)
  {
    if b == [] {
      assert whole == a;
    } else {
      assert whole[..|whole| - 1] == a && whole[|whole| - 1] == Call(n, key);
      FallingSnoc(Called(a, key), n);
    }
  }

  lemma {:induction false} DownFalls(hasParser: seq<bool>, key: Key, n: nat)
    requires n <= |hasParser|
    ensures Falling(Called(Down(hasParser, key, n), key)) && AllFrom(Called(Down(hasParser, key, n), key), n)
    decreases |hasParser| - n
  {
    if n < |hasParser| {
      DownFalls(hasParser, key, n + 1);
      FallingStep(Down(hasParser, key, n), Down(hasParser, key, n + 1), One(hasParser, n, key), key, n);
    }
  }

  lemma {:induction false} DownKeys(hasParser: seq<bool>, key: Key, n: nat)
    requires n <= |hasParser|
    ensures forall i | 0 <= i < |Down(hasParser, key, n)| :: Down(hasParser, key, n)[i].key == key
    decreases |hasParser| - n
  {
    if n < |hasParser| {
      DownKeys(hasParser, key, n + 1);
    }
  }

  lemma {:induction false} UpKeys(hasParser: seq<bool>, key: Key, n: nat)
    requires n <= |hasParser|
    ensures forall i | 0 <= i < |Up(hasParser, key, n)| :: Up(hasParser, key, n)[i].key == key
  {
    if n > 0 {
      UpKeys(hasParser, key, n - 1);
    }
  }

  lemma {:induction false} UpIdleKeys(hasParser: seq<bool>, args: seq<int>, key: Key, n: nat)
    requires n <= |hasParser| == |args|
    ensures forall i | 0 <= i < |UpIdle(hasParser, args, key, n)| :: UpIdle(hasParser, args, key, n)[i].key == key
  {
    if n > 0 {
      UpIdleKeys(hasParser, args, key, n - 1);
    }
  }

  /** Called by a downward pass with one key, asked for another. */
  lemma DownCalled(hasParser: seq<bool>, key: Key, n: nat, wanted: Key)
    requires n <= |hasParser|
    ensures Falling(Called(Down(hasParser, key, n), wanted)) && (key != wanted ==> Called(Down(hasParser, key, n), wanted) == [])
  {
    if key == wanted {
      DownFalls(hasParser, key, n);
    } else {
      DownKeys(hasParser, key, n);
      NoneCalled(Down(hasParser, key, n), wanted);
    }
  }

  lemma VerdictCalled(hasParser: seq<bool>, c: Closing, wanted: Key)
    requires Bounded(hasParser, c) && wanted in {End, Success, Fini}
    ensures Falling(Called(Verdict(hasParser, c), wanted)) && (wanted != Success ==> Called(Verdict(hasParser, c), wanted) == [])
  {
    if c.failed {
      UpKeys(hasParser, Error, |hasParser|);
      NoneCalled(Verdict(hasParser, c), wanted);
    } else {
      DownCalled(hasParser, Success, c.succeeded, wanted);
    }
  }

  /** Of two parts, at least one of which makes no such call. */
  lemma FallingJoin(whole: seq<Call>, a: seq<Call>, b: seq<Call>, key: Key)
    requires whole == a + b && Falling(Called(a, key)) && Falling(Called(b, key)) && (Called(a, key) == [] || Called(b, key) == [])
    ensures Falling(Called(whole, key)) && (Called(whole, key) == [] <==> Called(a, key) == [] && Called(b, key) == [])
  {
    CalledAppend(a, b, key);
  }

  lemma ClosingFalls(hasParser: seq<bool>, args: seq<int>, c: Closing, key: Key)
    requires Bounded(hasParser, c) && |args| == |hasParser| && key in {End, Success, Fini}
    ensures Falling(Called(ClosingCalls(hasParser, args, c), key))
  {
    var idle, ended := UpIdle(hasParser, args, NoArgs, c.idle), Down(hasParser, End, c.ended);
    var verdict, fini := Verdict(hasParser, c), Down(hasParser, Fini, 0);
    UpIdleKeys(hasParser, args, NoArgs, c.idle);
    NoneCalled(idle, key);
    DownCalled(hasParser, End, c.ended, key);
    VerdictCalled(hasParser, c, key);
    DownCalled(hasParser, Fini, 0, key);
    FallingJoin(idle + ended, idle, ended, key);
    FallingJoin(idle + ended + verdict, idle + ended, verdict, key);
    FallingJoin(ClosingCalls(hasParser, args, c), idle + ended + verdict, fini, key);
  }

  /** END, SUCCESS and FINI reach groups with higher numbers first: children before parents. */
  lemma ChildrenFirst(hasParser: seq<bool>, run: Run, key: Key)
    requires WellFormed(hasParser, run) && run.Complete? && key in {End, Success, Fini}
    ensures Falling(Called(RunCalls(hasParser, run), key))
  {
    var init, middle, args := Up(hasParser, Init, |hasParser|), MiddleCalls(hasParser, run.steps), Counts(|hasParser|, run.steps);
    UpKeys(hasParser, Init, |hasParser|);
    NoneCalled(init, key);
    MiddleIsReading(hasParser, run.steps);
    NoneCalled(middle, key);
    ClosingFalls(hasParser, args, run.closing, key);
    FallingJoin(init + middle, init, middle, key);
    FallingJoin(RunCalls(hasParser, run), init + middle, ClosingCalls(hasParser, args, run.closing), key);
  }

  /** The parser flags of the groups a tree is converted to. */
  function ParserFlags(gs: seq<ParserTables.Group>): seq<bool> {
    seq(|gs|, i requires 0 <= i < |gs| => gs[i].hasParser)
  }

  /** When the groups come from `convert_options`, a child hears of END, SUCCESS and FINI before
      its parent does. */
  lemma ChildBeforeParent(gs: seq<ParserTables.Group>, slots: nat, run: Run, key: Key, i: nat, j: nat)
    requires ParserTables.WellLinked(gs, slots)
    requires WellFormed(ParserFlags(gs), run) && run.Complete? && key in {End, Success, Fini}
    requires var called := Called(RunCalls(ParserFlags(gs), run), key);
             i < |called| && j < |called| && called[i] < |gs| && gs[called[i]].parent == Some(called[j])
    ensures i < j
  {
    ChildrenFirst(ParserFlags(gs), run, key);
    var called := Called(RunCalls(ParserFlags(gs), run), key);
    assert ParserTables.LinkedAt(gs, 0, None, 0, 1, called[i]);
  }
}
