/** What ARGP_NO_ARGS, a quoting `--`, the end of the options and the last turn mean for every run
    of `argp_parse`. */
module TurnLaws {
  import opened Wrappers
  import opened ParserRuns
  import opened ParserLives

  function TurnsOf(run: Run): seq<Step> {
    match run
    case Aborted(_, _) => []
    case Unfinished(_, steps, _) => steps
    case Complete(_, steps, _, _, _, _) => steps
  }

  /** Turn I is about event I, begins where the one before ended, and succeeded unless it is the
      last. */
  ghost predicate Follows(s: Setup, events: seq<Event>, steps: seq<Step>, i: nat)
    requires i < |steps| <= |events|
  {
    && StepOk(s, events[i], steps[i]) && (i > 0 ==> steps[i].before == steps[i - 1].after)
    && (i + 1 < |steps| ==> steps[i].err == 0)
  }

  ghost predicate Sequel(s: Setup, events: seq<Event>, steps: seq<Step>) {
    |steps| <= |events| && forall i: nat | i < |steps| :: Follows(s, events, steps, i)
  }

  lemma {:induction false} TurnsAreSequel(s: Setup, events: seq<Event>, steps: seq<Step>, start: Reader, end: Reader)
    requires Turns(s, events, steps, start, end)
    ensures Sequel(s, events, steps)
  {
    if steps != [] {
      var m := |steps| - 1;
      var before := steps[..m];
      TurnsAreSequel(s, events, before, start, steps[m].before);
      if m > 0 {
        LastAfter(s, events, before, start, steps[m].before);
      }
      SequelNext(s, events, before, steps);
    }
  }

  lemma LastAfter(s: Setup, events: seq<Event>, steps: seq<Step>, start: Reader, end: Reader)
    requires Turns(s, events, steps, start, end) && steps != []
    ensures steps[|steps| - 1].after == end
  {}

  lemma SequelNext(s: Setup, events: seq<Event>, before: seq<Step>, steps: seq<Step>)
    requires Sequel(s, events, before) && before < steps && |steps| == |before| + 1 <= |events|
    requires StepOk(s, events[|before|], steps[|before|])
    requires before != [] ==> before[|before| - 1].err == 0 && steps[|before|].before == before[|before| - 1].after
    ensures Sequel(s, events, steps)
  {
    forall i: nat | i < |steps|
      ensures Follows(s, events, steps, i)
    {
      if i < |before| {
        assert Follows(s, events, before, i);
      }
    }
  }

  /** The turns of a run follow one another, each on its own event. */
  lemma RunIsSequel(s: Setup, events: seq<Event>, wantsEnd: bool, first: Reader, run: Run, err: int)
    requires WellFormed(s.hasParser, run) && RunOk(s, events, wantsEnd, first, run, err)
    ensures Sequel(s, events, TurnsOf(run))
  {
    match run {
      case Aborted(_, _) =>
      case Unfinished(init, steps, end) =>
        TurnsAreSequel(s, events, steps, Started(first, init), end);
      case Complete(init, steps, _, _, _, _) =>
        TurnsAreSequel(s, events, steps, Started(first, init), steps[|steps| - 1].after);
    }
  }

  // ----- ARGP_NO_ARGS -----

  predicate Offering(c: Call) { c.key == Arg || c.key == Args }

  ghost predicate NoOffers(calls: seq<Call>) { forall i | 0 <= i < |calls| :: !Offering(calls[i]) }

  lemma {:induction false} MiddleNoOffers(hasParser: seq<bool>, steps: seq<Step>)
    requires forall i | 0 <= i < |steps| :: !steps[i].turn.Argument?
    ensures NoOffers(MiddleCalls(hasParser, steps))
  {
    if steps != [] {
      MiddleNoOffers(hasParser, steps[..|steps| - 1]);
    }
  }

  lemma ClosingNoOffers(hasParser: seq<bool>, args: seq<int>, c: Closing)
    requires Bounded(hasParser, c) && |args| == |hasParser|
    ensures NoOffers(ClosingCalls(hasParser, args, c))
  {
    UpIdleKeys(hasParser, args, NoArgs, c.idle);
    DownKeys(hasParser, End, c.ended);
    UpKeys(hasParser, Error, |hasParser|);
    DownKeys(hasParser, Success, c.succeeded);
    DownKeys(hasParser, Fini, 0);
  }

  lemma NoOffersAppend(a: seq<Call>, b: seq<Call>)
    requires NoOffers(a) && NoOffers(b)
    ensures NoOffers(a + b)
  {}

  lemma RunNoOffers(hasParser: seq<bool>, run: Run)
    requires WellFormed(hasParser, run) && forall i | 0 <= i < |TurnsOf(run)| :: !TurnsOf(run)[i].turn.Argument?
    ensures NoOffers(RunCalls(hasParser, run))
  {
    if run.Aborted? {
      UpKeys(hasParser, Init, run.groups);
    } else {
      var init, middle := Up(hasParser, Init, |hasParser|), MiddleCalls(hasParser, TurnsOf(run));
      UpKeys(hasParser, Init, |hasParser|);
      MiddleNoOffers(hasParser, TurnsOf(run));
      NoOffersAppend(init, middle);
      if run.Complete? {
        var closing := ClosingCalls(hasParser, Counts(|hasParser|, run.steps), run.closing);
        ClosingNoOffers(hasParser, Counts(|hasParser|, run.steps), run.closing);
        NoOffersAppend(init + middle, closing);
      }
    }
  }

  lemma NoArgumentTurns(s: Setup, events: seq<Event>, steps: seq<Step>)
    requires Sequel(s, events, steps) && s.noArgs && forall i | 0 <= i < |events| :: !events[i].GetoptArg?
    ensures forall i | 0 <= i < |steps| :: !steps[i].turn.Argument?
  {
    forall i | 0 <= i < |steps|
      ensures !steps[i].turn.Argument?
    {
      assert Follows(s, events, steps, i);
    }
  }

  /** Under ARGP_NO_ARGS no parser is offered an argument, unless getopt itself returns one. */
  lemma NoArgsNoOffers(s: Setup, events: seq<Event>, wantsEnd: bool, first: Reader, run: Run, err: int)
    requires WellFormed(s.hasParser, run) && RunOk(s, events, wantsEnd, first, run, err)
    requires s.noArgs && forall i | 0 <= i < |events| :: !events[i].GetoptArg?
    ensures NoOffers(RunCalls(s.hasParser, run))
  {
    RunIsSequel(s, events, wantsEnd, first, run, err);
    NoArgumentTurns(s, events, TurnsOf(run));
    RunNoOffers(s.hasParser, run);
  }

  // ----- Arguments left over -----

  lemma {:induction false} OffersReach(hasParser: seq<bool>, n: nat, g: nat)
    requires g < n && g < |hasParser| && hasParser[g]
    ensures Call(g, Arg) in Offers(hasParser, n)
  {
    if g < n - 1 {
      OffersReach(hasParser, n - 1, g);
    } else {
      assert Call(g, Arg) in Offer(hasParser, g, true);
    }
  }

  /** An argument is offered to every parser up to the one that settles it. */
  lemma ArgumentOffered(hasParser: seq<bool>, taker: Option<nat>, whole: bool, g: nat)
    requires g < |hasParser| && hasParser[g] && (taker.Some? ==> g <= taker.value)
    ensures Call(g, Arg) in ArgCalls(hasParser, taker, whole)
  {
    if taker == Some(g) {
      assert Call(g, Arg) in Offer(hasParser, g, whole);
    } else {
      OffersReach(hasParser, if taker.Some? then taker.value else |hasParser|, g);
    }
  }

  lemma {:induction false} CallOfTurn(hasParser: seq<bool>, steps: seq<Step>, i: nat, c: Call)
    requires i < |steps| && c in StepCalls(hasParser, steps[i])
    ensures c in MiddleCalls(hasParser, steps)
  {
    if i < |steps| - 1 {
      CallOfTurn(hasParser, steps[..|steps| - 1], i, c);
    }
  }

  lemma CallOfRun(hasParser: seq<bool>, run: Run, c: Call)
    requires WellFormed(hasParser, run) && c in MiddleCalls(hasParser, TurnsOf(run))
    ensures c in RunCalls(hasParser, run)
  {}

  /** A turn has the argument at AT before it: getopt returned it, or getopt is out of the game
      and, without ARGP_NO_ARGS, arguments are left over. */
  predicate HasArgument(s: Setup, before: Reader, e: Event, at: int) {
    if Asked(before) && e.GetoptArg? then at == e.next - 1
    else if Asked(before) then !s.noArgs && e.GetoptEnd? && at == e.next < s.argc
    else !s.noArgs && at == before.next < s.argc
  }

  /** No argument is dropped: the turn is about it, and every parser is called with ARG until one
      settles it. */
  lemma ArgumentsReachParsers(s: Setup, events: seq<Event>, wantsEnd: bool, first: Reader, run: Run, err: int, i: nat, at: int, g: nat)
    requires WellFormed(s.hasParser, run) && RunOk(s, events, wantsEnd, first, run, err) && i < |TurnsOf(run)| <= |events|
    requires HasArgument(s, TurnsOf(run)[i].before, events[i], at)
    requires g < |s.hasParser| && s.hasParser[g] && (TurnsOf(run)[i].taker.Some? ==> g <= TurnsOf(run)[i].taker.value)
    ensures TurnsOf(run)[i].turn == Argument && TurnsOf(run)[i].index == at && Call(g, Arg) in RunCalls(s.hasParser, run)
  {
    var t := TurnsOf(run)[i];
    RunIsSequel(s, events, wantsEnd, first, run, err);
    assert Follows(s, events, TurnsOf(run), i);
    ArgumentOffered(s.hasParser, t.taker, t.whole, g);
    CallOfTurn(s.hasParser, TurnsOf(run), i, Call(g, Arg));
    CallOfRun(s.hasParser, run, Call(g, Arg));
  }

  /** An option that getopt finds reaches the parser of its group with its key. */
  lemma OptionsReachParsers(s: Setup, events: seq<Event>, wantsEnd: bool, first: Reader, run: Run, err: int, i: nat, g: nat)
    requires WellFormed(s.hasParser, run) && RunOk(s, events, wantsEnd, first, run, err) && i < |TurnsOf(run)| <= |events|
    requires Asked(TurnsOf(run)[i].before) && events[i].GetoptOption? && events[i].group == Some(g)
    requires g < |s.hasParser| && s.hasParser[g]
    ensures Call(g, User(events[i].key)) in RunCalls(s.hasParser, run)
  {
    var c := Call(g, User(events[i].key));
    RunIsSequel(s, events, wantsEnd, first, run, err);
    assert Follows(s, events, TurnsOf(run), i);
    assert c in StepCalls(s.hasParser, TurnsOf(run)[i]);
    CallOfTurn(s.hasParser, TurnsOf(run), i, c);
    CallOfRun(s.hasParser, run, c);
  }

  /** Of an argument that nobody or TAKER settles, group G sees: ARG and, when it rejects that,
      ARGS at once; nothing if an earlier group settled it. */
  lemma {:induction false} SeenOfArgument(hasParser: seq<bool>, taker: Option<nat>, whole: bool, g: nat)
    requires g < |hasParser| && hasParser[g] && (taker.Some? ==> taker.value < |hasParser|)
    ensures KeysOf(ArgCalls(hasParser, taker, whole), g) ==
            if taker.Some? && g > taker.value then [] else if taker == Some(g) && !whole then [Arg] else [Arg, Args]
  {
    if taker.Some? {
      OffersSeen(hasParser, taker.value, g, Offers(hasParser, taker.value));
      OfferSeen(hasParser, taker.value, whole, g);
      KeysAppend(Offers(hasParser, taker.value), Offer(hasParser, taker.value, whole), g);
    } else {
      OffersSeen(hasParser, |hasParser|, g, Offers(hasParser, |hasParser|));
    }
  }

  lemma {:induction false} OfferSeen(hasParser: seq<bool>, h: nat, whole: bool, g: nat)
    requires g < |hasParser| && hasParser[g] && h < |hasParser|
    ensures KeysOf(Offer(hasParser, h, whole), g) == if h != g then [] else if whole then [Arg, Args] else [Arg]
  {
    var a, b := One(hasParser, h, Arg), if whole then One(hasParser, h, Args) else [];
    KeysOne(hasParser, h, Arg, g, h == g);
    if whole {
      KeysOne(hasParser, h, Args, g, h == g);
    }
    KeysAppend(a, b, g);
  }

  lemma {:induction false} OffersSeen(hasParser: seq<bool>, n: nat, g: nat, calls: seq<Call>)
    requires g < |hasParser| && hasParser[g] && n <= |hasParser| && calls == Offers(hasParser, n)
    ensures KeysOf(calls, g) == if g < n then [Arg, Args] else []
  {
    if n == 0 {
      assert calls == [];
    } else {
      var m := n - 1;
      var before, last := Offers(hasParser, m), Offer(hasParser, m, true);
      OffersNext(hasParser, n, calls);
      OffersSeen(hasParser, m, g, before);
      OfferSeen(hasParser, m, true, g);
      SeenTogether(before, last, g, if g < m then [Arg, Args] else [], if g == m then [Arg, Args] else []);
    }
  }

  lemma {:induction false} OffersNext(hasParser: seq<bool>, n: nat, calls: seq<Call>)
    requires n > 0 && calls == Offers(hasParser, n)
    ensures calls == Offers(hasParser, n - 1) + Offer(hasParser, n - 1, true)
  {}

  lemma {:induction false} SeenTogether(a: seq<Call>, b: seq<Call>, g: nat, ks: seq<Key>, js: seq<Key>)
    requires KeysOf(a, g) == ks && KeysOf(b, g) == js
    ensures KeysOf(a + b, g) == ks + js
  {
    KeysAppend(a, b, g);
  }

  // ----- Quoting and the end of the options -----

  /** A turn in which getopt takes part as an option parser. */
  predicate OnOptions(t: Step) { t.turn.AnOption? || t.turn.Refused? }

  lemma QuotedTurn(s: Setup, e: Event, t: Step)
    requires StepOk(s, e, t) && 0 < t.before.quoted <= t.before.next
    ensures !OnOptions(t) && t.after.quoted == t.before.quoted
  {}

  lemma {:induction false} QuotedTurns(s: Setup, events: seq<Event>, steps: seq<Step>, i: nat, j: nat, q: int)
    requires Sequel(s, events, steps) && i < j < |steps| && steps[i].after.quoted == q > 0
    requires forall k | i < k <= j :: steps[k].before.next >= q
    ensures !OnOptions(steps[j]) && steps[j].after.quoted == q
  {
    assert Follows(s, events, steps, j);
    if i < j - 1 {
      QuotedTurns(s, events, steps, i, j - 1, q);
    }
    QuotedTurn(s, events[j], steps[j]);
  }

  /** Getopt ends at a `--` of the command line.  Then nothing behind it is taken for an option,
      whatever the parsers do, unless one goes back before it. */
  lemma QuotedRest(s: Setup, events: seq<Event>, wantsEnd: bool, first: Reader, run: Run, err: int, i: nat, j: nat)
    requires WellFormed(s.hasParser, run) && RunOk(s, events, wantsEnd, first, run, err) && i < j < |TurnsOf(run)| <= |events|
    requires Asked(TurnsOf(run)[i].before) && events[i].GetoptEnd? && events[i].quote && events[i].next > 1
    requires forall k | i < k <= j :: TurnsOf(run)[k].before.next >= events[i].next
    ensures !OnOptions(TurnsOf(run)[j])
  {
    RunIsSequel(s, events, wantsEnd, first, run, err);
    assert Follows(s, events, TurnsOf(run), i);
    QuotedTurns(s, events, TurnsOf(run), i, j, events[i].next);
  }

  /** A parser took an argument and went back to it or before it. */
  predicate WentBack(t: Step) { t.turn.Argument? && t.err == 0 && t.after.next <= t.index }

  lemma UnaskedTurn(s: Setup, e: Event, t: Step)
    requires StepOk(s, e, t) && (!t.before.tryGetopt || (Asked(t.before) && e.GetoptEnd?)) && !WentBack(t)
    ensures !t.after.tryGetopt && !OnOptions(t)
  {}

  lemma {:induction false} UnaskedTurns(s: Setup, events: seq<Event>, steps: seq<Step>, i: nat, j: nat)
    requires Sequel(s, events, steps) && i <= j < |steps| && Asked(steps[i].before) && events[i].GetoptEnd?
    requires forall k | i <= k <= j :: !WentBack(steps[k])
    ensures !steps[j].after.tryGetopt && !OnOptions(steps[j])
  {
    assert Follows(s, events, steps, j);
    if i < j {
      UnaskedTurns(s, events, steps, i, j - 1);
    }
    UnaskedTurn(s, events[j], steps[j]);
  }

  /** Once getopt has found the end of the options, no turn takes an option until a parser goes
      back. */
  lemma OptionsEnd(s: Setup, events: seq<Event>, wantsEnd: bool, first: Reader, run: Run, err: int, i: nat, j: nat)
    requires WellFormed(s.hasParser, run) && RunOk(s, events, wantsEnd, first, run, err)
    requires i <= j < |TurnsOf(run)| <= |events| && Asked(TurnsOf(run)[i].before) && events[i].GetoptEnd?
    requires forall k | i <= k <= j :: !WentBack(TurnsOf(run)[k])
    ensures !OnOptions(TurnsOf(run)[j])
  {
    RunIsSequel(s, events, wantsEnd, first, run, err);
    UnaskedTurns(s, events, TurnsOf(run), i, j);
  }

  /** Getopt was asked in a turn and did not end: it found an option, an error or an argument. */
  predicate FromGetopt(e: Event, t: Step) {
    t.before.tryGetopt && (t.before.quoted == 0 || t.before.next < t.before.quoted) && !e.GetoptEnd?
  }

  /** Getopt goes on: what it finds in the next turn is taken from it. */
  predicate TakenFromGetopt(e: Event, t: Step) {
    && (e.GetoptOption? ==> t.turn == AnOption(e.group, e.key)) && (e.GetoptError? ==> t.turn == Refused)
    && (e.GetoptArg? ==> t.turn == Argument && t.index == e.next - 1)
  }

  /** Getopt is asked in the first turn; after a turn in which it found something; and after a turn
      in which a parser went back, unless the parser stays within the quoted part. */
  lemma GetoptGoesOn(s: Setup, events: seq<Event>, wantsEnd: bool, first: Reader, run: Run, err: int, i: nat)
    requires WellFormed(s.hasParser, run) && RunOk(s, events, wantsEnd, first, run, err) && i < |TurnsOf(run)| <= |events|
    requires if i == 0 then first == Reader(true, 0, first.next)
             else
               var t := TurnsOf(run)[i - 1];
               || FromGetopt(events[i - 1], t)
               || (WentBack(t) && (t.after.quoted == 0 || t.after.next < t.after.quoted))
    ensures TakenFromGetopt(events[i], TurnsOf(run)[i])
  {
    RunIsSequel(s, events, wantsEnd, first, run, err);
    assert Follows(s, events, TurnsOf(run), i);
    if i == 0 {
      FirstBefore(s, events, wantsEnd, first, run, err);
    } else {
      assert Follows(s, events, TurnsOf(run), i - 1);
    }
  }

  lemma {:induction false} FirstOfTurns(s: Setup, events: seq<Event>, steps: seq<Step>, start: Reader, end: Reader)
    requires Turns(s, events, steps, start, end) && steps != []
    ensures steps[0].before == start
  {
    var m := |steps| - 1;
    if m > 0 {
      FirstOfTurns(s, events, steps[..m], start, steps[m].before);
    }
  }

  lemma FirstBefore(s: Setup, events: seq<Event>, wantsEnd: bool, first: Reader, run: Run, err: int)
    requires WellFormed(s.hasParser, run) && RunOk(s, events, wantsEnd, first, run, err) && TurnsOf(run) != []
    ensures TurnsOf(run)[0].before.tryGetopt == first.tryGetopt && TurnsOf(run)[0].before.quoted == first.quoted
  {
    var steps := TurnsOf(run);
    FirstOfTurns(s, events, steps, Started(first, run.init), if run.Unfinished? then run.end else steps[|steps| - 1].after);
  }

  // ----- Groups without arguments -----

  /** Group G took an argument, or the whole rest, and the next argument moved forward. */
  predicate TookForward(t: Step, g: nat) { t.turn.Argument? && t.err == 0 && t.taker == Some(g) && t.after.next > t.index }

  lemma ProcessedIsTaken(steps: seq<Step>, g: nat)
    ensures Processed(steps, g) <==> exists i: nat | i < |steps| :: TookForward(steps[i], g)
  {
    if i: nat :| i < |steps| && TookForward(steps[i], g) {
      assert Credits(steps[i], g);
    }
  }

  /** In a run that returns 0 with all arguments read, a parser is told NO_ARGS exactly when it took
      none. */
  lemma IdleAreTold(s: Setup, events: seq<Event>, wantsEnd: bool, first: Reader, run: Run, g: nat)
    requires WellFormed(s.hasParser, run) && run.Complete? && RunOk(s, events, wantsEnd, first, run, 0)
    requires AllArguments(s, run) && g < |s.hasParser| && s.hasParser[g]
    ensures NoArgs in KeysOf(RunCalls(s.hasParser, run), g) <==> forall i: nat | i < |run.steps| :: !TookForward(run.steps[i], g)
  {
    SuccessfulLife(s, events, wantsEnd, first, run, g);
    GroupLife(s.hasParser, run, g);
    ProcessedIsTaken(run.steps, g);
  }

  /** A parser that takes the whole rest leaves nothing. */
  lemma RestTaken(s: Setup, events: seq<Event>, wantsEnd: bool, first: Reader, run: Run, err: int, i: nat)
    requires WellFormed(s.hasParser, run) && RunOk(s, events, wantsEnd, first, run, err) && i < |TurnsOf(run)|
    requires TurnsOf(run)[i].turn == Argument && TurnsOf(run)[i].err == 0 && TurnsOf(run)[i].whole
    ensures TurnsOf(run)[i].after.next == s.argc
  {
    RunIsSequel(s, events, wantsEnd, first, run, err);
    assert Follows(s, events, TurnsOf(run), i);
  }

  // ----- The last turn and the value returned -----

  /** An option that getopt refuses or that no parser knows makes the run fail with EINVAL.  An
      argument that no parser takes does so unless the caller takes the index of the rest; then
      only the parsers, told of success, can still fail. */
  lemma LastTurnDecides(s: Setup, events: seq<Event>, wantsEnd: bool, first: Reader, run: Run, err: int)
    requires WellFormed(s.hasParser, run) && RunOk(s, events, wantsEnd, first, run, err) && run.Complete?
    ensures var t := run.steps[|run.steps| - 1];
            && (t.err != EBADKEY ==> err == t.err)
            && (t.err == EBADKEY && OnOptions(t) ==> err == EINVAL)
            && (t.err == EBADKEY && !OnOptions(t) && t.after.next != s.argc ==>
                  if wantsEnd then !run.closing.failed && Obeyed(run.verdict, err) else err == EINVAL)
            && (err == 0 ==> t.err == EBADKEY && !OnOptions(t) && (t.after.next == s.argc || wantsEnd))
  {
    var t := run.steps[|run.steps| - 1];
    NothingClosed(s, wantsEnd, Counts(|s.hasParser|, run.steps), t, run.closing, run.closed, run.verdict, run.fini, err);
  }
}
