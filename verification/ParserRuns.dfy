/** What a run of `argp_parse` is: the calls to the parsing functions of its groups, what they
    answer, and the turns of the reading loop.  The parsing functions and getopt are arbitrary. */
module ParserRuns {
  import opened Wrappers

  const EBADKEY := 7
  const EINVAL := 22

  /** The key of a call: a user key of an option, or one of the ARGP_KEY_ values. */
  datatype Key = User(key: int) | Arg | Args | NoArgs | Init | End | Success | Error | Fini

  datatype Call = Call(group: nat, key: Key)

  /** An error code, with the next argument before and after the call. */
  datatype Answer = Answer(start: int, err: int, end: int)

  /** A parsing function may depend on every call so far, the present one included, and may move
      the next argument: it gives the error code and the next argument afterwards. */
  type Callback = (seq<Call>, int) -> (int, int)

  ghost predicate LoggedAt(callback: Callback, trace: seq<Call>, log: seq<Answer>, i: nat)
    requires i < |trace| == |log|
  {
    callback(trace[..i + 1], log[i].start) == (log[i].err, log[i].end)
  }

  /** LOG holds the answers of the parsing functions to the calls of TRACE. */
  ghost predicate Logged(callback: Callback, trace: seq<Call>, log: seq<Answer>) {
    |trace| == |log| && forall i | 0 <= i < |log| :: LoggedAt(callback, trace, log, i)
  }

  lemma LoggedNext(callback: Callback, trace: seq<Call>, log: seq<Answer>, c: Call, a: Answer)
    requires Logged(callback, trace, log) && callback(trace + [c], a.start) == (a.err, a.end)
    ensures Logged(callback, trace + [c], log + [a])
  {
    var t, l := trace + [c], log + [a];
    forall i | 0 <= i < |l|
      ensures LoggedAt(callback, t, l, i)
    {
      if i < |log| {
        assert LoggedAt(callback, trace, log, i);
        assert t[..i + 1] == trace[..i + 1];
      } else {
        assert t[..i + 1] == t;
      }
    }
  }

  // ----- Passes over the groups -----

  predicate Tolerated(err: int) { err == 0 || err == EBADKEY }

  /** The call to a group, if it has a parsing function. */
  function One(hasParser: seq<bool>, g: nat, key: Key): seq<Call> {
    if g < |hasParser| && hasParser[g] then [Call(g, key)] else []
  }

  /** Calls to the groups below N, the first group first. */
  function Up(hasParser: seq<bool>, key: Key, n: nat): seq<Call> {
    if n == 0 then [] else Up(hasParser, key, n - 1) + One(hasParser, n - 1, key)
  }

  function OneIdle(hasParser: seq<bool>, args: seq<int>, g: nat, key: Key): seq<Call>
    requires g < |args|
  {
    if args[g] == 0 then One(hasParser, g, key) else []
  }

  /** The same, for groups that have processed no argument. */
  function UpIdle(hasParser: seq<bool>, args: seq<int>, key: Key, n: nat): seq<Call>
    requires n <= |args|
  {
    if n == 0 then [] else UpIdle(hasParser, args, key, n - 1) + OneIdle(hasParser, args, n - 1, key)
  }

  /** Calls to the groups from N on, the last group first. */
  function Down(hasParser: seq<bool>, key: Key, n: nat): seq<Call>
    requires n <= |hasParser|
    decreases |hasParser| - n
  {
    if n == |hasParser| then [] else Down(hasParser, key, n + 1) + One(hasParser, n, key)
  }

  /** The next argument after a stretch of calls that starts at P. */
  function EndOf(rs: seq<Answer>, p: int): int { if rs == [] then p else rs[|rs| - 1].end }

  /** Each call starts where the one before left the next argument. */
  ghost predicate Chain(rs: seq<Answer>, p: int) { forall i | 0 <= i < |rs| :: StartsAt(rs, p, i) }

  predicate StartsAt(rs: seq<Answer>, p: int, i: nat)
    requires i < |rs|
  {
    rs[i].start == if i == 0 then p else rs[i - 1].end
  }

  ghost predicate Calm(rs: seq<Answer>) { forall i | 0 <= i < |rs| :: Tolerated(rs[i].err) }

  /** ERR is what becomes of the error codes of a stretch of calls: all are tolerated, or the last
      one is not, ended the stretch and is ERR. */
  ghost predicate Obeyed(rs: seq<Answer>, err: int) {
    if Tolerated(err) then Calm(rs) else rs != [] && rs[|rs| - 1].err == err && Calm(rs[..|rs| - 1])
  }

  /** A stretch of calls that moves the next argument from P to Q. */
  ghost predicate Moves(rs: seq<Answer>, p: int, q: int) { Chain(rs, p) && q == EndOf(rs, p) }

  /** The same, with the error code that results. */
  ghost predicate Passage(rs: seq<Answer>, p: int, q: int, err: int) { Moves(rs, p, q) && Obeyed(rs, err) }

  lemma ObeyedStep(rs: seq<Answer>, ss: seq<Answer>, err: int)
    requires Calm(rs) && Obeyed(ss, err)
    ensures Obeyed(rs + ss, err)
  {
    if ss != [] {
      assert (rs + ss)[..|rs + ss| - 1] == rs + ss[..|ss| - 1];
    }
  }

  lemma MovesStep(rs: seq<Answer>, ss: seq<Answer>, p: int, q: int, r: int)
    requires Moves(rs, p, q) && Moves(ss, q, r)
    ensures Moves(rs + ss, p, r)
  {
    var all := rs + ss;
    forall i | 0 <= i < |all|
      ensures StartsAt(all, p, i)
    {
      if i < |rs| {
        assert StartsAt(rs, p, i);
      } else {
        assert StartsAt(ss, q, i - |rs|);
      }
    }
  }

  lemma PassageStep(rs: seq<Answer>, ss: seq<Answer>, p: int, q: int, r: int, e: int, err: int)
    requires Passage(rs, p, q, e) && Tolerated(e) && Passage(ss, q, r, err)
    ensures Passage(rs + ss, p, r, err)
  {
    ObeyedStep(rs, ss, err);
    MovesStep(rs, ss, p, q, r);
  }

  // ----- Turns of the reading loop -----

  /** What getopt returns on a turn, with its new optind.  The group of an option is the one
      `parser_parse_opt` picks for it. */
  datatype Event =
    | GetoptEnd(next: int, quote: bool)
    | GetoptError(next: int)
    | GetoptArg(next: int)
    | GetoptOption(next: int, group: Option<nat>, key: int)

  /** How a turn begins. */
  datatype Turn = Refused | AllRead | Argument | AnOption(group: Option<nat>, key: int)

  /** The parts of `struct parser` that decide about a turn. */
  datatype Reader = Reader(tryGetopt: bool, quoted: int, next: int)

  /** The groups, the number of arguments and whether ARGP_NO_ARGS is set. */
  datatype Setup = Setup(hasParser: seq<bool>, argc: int, noArgs: bool)

  /** Getopt is asked unless it gave up or the rest is quoted; moving back before the quoted
      part gives it another chance. */
  predicate Asked(r: Reader) { r.tryGetopt && (r.quoted == 0 || r.next < r.quoted) }

  /** The next argument once getopt had its chance. */
  function Taken(r: Reader, e: Event): int { if Asked(r) then e.next else r.next }

  function TurnFor(s: Setup, r: Reader, e: Event): Turn {
    if Asked(r) && e.GetoptError? then Refused
    else if Asked(r) && e.GetoptOption? then AnOption(e.group, e.key)
    else if Asked(r) && e.GetoptArg? then Argument
    else if Taken(r, e) >= s.argc || s.noArgs then AllRead
    else Argument
  }

  /** The place of the argument of a turn. */
  function Place(r: Reader, e: Event): int { if Asked(r) && e.GetoptArg? then e.next - 1 else Taken(r, e) }

  /** The start of the quoted part after a turn. */
  function QuotedAfter(r: Reader, e: Event): int {
    if Asked(r) && e.GetoptEnd? && e.next > 1 && e.quote then e.next
    else if r.quoted != 0 && r.next < r.quoted then 0
    else r.quoted
  }

  /** A group is offered an argument, and the whole rest when WHOLE. */
  function Offer(hasParser: seq<bool>, g: nat, whole: bool): seq<Call> {
    One(hasParser, g, Arg) + if whole then One(hasParser, g, Args) else []
  }

  /** The offers to the groups below N, all of them rejected. */
  function Offers(hasParser: seq<bool>, n: nat): seq<Call> {
    if n == 0 then [] else Offers(hasParser, n - 1) + Offer(hasParser, n - 1, true)
  }

  /** The calls for one argument: rejected by all groups, or settled by one. */
  function ArgCalls(hasParser: seq<bool>, taker: Option<nat>, whole: bool): seq<Call> {
    if taker.None? then Offers(hasParser, |hasParser|)
    else Offers(hasParser, taker.value) + Offer(hasParser, taker.value, whole)
  }

  function OptionCalls(hasParser: seq<bool>, g: Option<nat>, key: int): seq<Call> {
    if g.Some? then One(hasParser, g.value, User(key)) else []
  }

  /** A turn: where it began, the argument it is about, the group that settled it, the answers of
      the parsing functions, its error code and where it ended. */
  datatype Step = Step(
    before: Reader,
    turn: Turn,
    index: int,
    taker: Option<nat>,
    whole: bool,
    answers: seq<Answer>,
    err: int,
    after: Reader)

  function StepCalls(hasParser: seq<bool>, s: Step): seq<Call> {
    match s.turn
    case Refused => []
    case AllRead => []
    case Argument => ArgCalls(hasParser, s.taker, s.whole)
    case AnOption(g, key) => OptionCalls(hasParser, g, key)
  }

  /** All answers but the last are rejections, and the last one is ERR. */
  ghost predicate Answered(rs: seq<Answer>, err: int) {
    if rs == [] then err == EBADKEY
    else rs[|rs| - 1].err == err && forall i | 0 <= i < |rs| - 1 :: rs[i].err == EBADKEY
  }

  /** A call with ARG starts behind the argument, one with ARGS before it; rejected calls leave the
      next argument to the following one. */
  ghost predicate Flow(rs: seq<Answer>, index: int) { forall i | 0 <= i < |rs| :: FlowsAt(rs, index, i) }

  predicate FlowsAt(rs: seq<Answer>, index: int, i: nat)
    requires i < |rs|
  {
    rs[i].start == (if i == 0 then index else rs[i - 1].end) + (if i % 2 == 0 then 1 else -1)
  }

  /** Offers of the argument at P that leave the next argument at Q and result in ERR. */
  ghost predicate Offered(rs: seq<Answer>, p: int, q: int, err: int) {
    Flow(rs, p) && q == EndOf(rs, p) && Answered(rs, err)
  }

  /** Offers that were all rejected, each group twice. */
  ghost predicate Rejected(rs: seq<Answer>, p: int, q: int) { Offered(rs, p, q, EBADKEY) && |rs| % 2 == 0 }

  lemma OfferStep(rs: seq<Answer>, ss: seq<Answer>, p: int, q: int, r: int, err: int)
    requires Rejected(rs, p, q) && Offered(ss, q, r, err)
    ensures Offered(rs + ss, p, r, err)
  {
    var all := rs + ss;
    forall i | 0 <= i < |all|
      ensures FlowsAt(all, p, i)
    {
      if i < |rs| {
        assert FlowsAt(rs, p, i);
      } else {
        assert FlowsAt(ss, q, i - |rs|);
        assert i % 2 == (i - |rs|) % 2;
      }
    }
  }

  /** What the code makes of a turn. */
  ghost predicate StepOk(s: Setup, e: Event, t: Step) {
    && t.turn == TurnFor(s, t.before, e) && t.index == Place(t.before, e)
    && |t.answers| == |StepCalls(s.hasParser, t)| && Answered(t.answers, t.err)
    && t.after.quoted == QuotedAfter(t.before, e)
    && t.after.tryGetopt == ((t.before.tryGetopt && !(Asked(t.before) && e.GetoptEnd?))
                             || (t.turn.Argument? && t.err == 0 && t.after.next <= t.index))
    && (t.turn.Argument? ==>
          && Flow(t.answers, t.index) && (t.taker.None? <==> t.err == EBADKEY)
          && (t.taker.Some? ==> t.taker.value < |s.hasParser| && s.hasParser[t.taker.value])
          && t.after.next == if t.err == 0 && t.whole then s.argc else EndOf(t.answers, t.index))
    && (!t.turn.Argument? ==>
          t.taker.None? && Chain(t.answers, Taken(t.before, e)) && t.after.next == EndOf(t.answers, Taken(t.before, e)))
  }

  /** The steps of the loop over EVENTS, from START to END: every one but the last succeeded. */
  ghost predicate Turns(s: Setup, events: seq<Event>, steps: seq<Step>, start: Reader, end: Reader) {
    if steps == [] then start == end
    else
      var m := |steps| - 1;
      && m < |events| && StepOk(s, events[m], steps[m]) && steps[m].after == end
      && (m > 0 ==> steps[m - 1].err == 0) && Turns(s, events, steps[..m], start, steps[m].before)
  }

  lemma TurnsNext(s: Setup, events: seq<Event>, steps: seq<Step>, start: Reader, end: Reader, t: Step)
    requires Turns(s, events, steps, start, end) && |steps| < |events| && StepOk(s, events[|steps|], t) && t.before == end
    requires LastError(steps) == 0
    ensures Turns(s, events, steps + [t], start, t.after)
  {
    assert (steps + [t])[..|steps|] == steps;
  }

  /** A turn about an argument. */
  lemma ArgumentStep(s: Setup, e: Event, t: Step)
    requires t.turn == TurnFor(s, t.before, e) == Argument && t.index == Place(t.before, e)
    requires t.after.quoted == QuotedAfter(t.before, e)
    requires t.after.tryGetopt == ((t.before.tryGetopt && !(Asked(t.before) && e.GetoptEnd?)) || (t.err == 0 && t.after.next <= t.index))
    requires |t.answers| == |ArgCalls(s.hasParser, t.taker, t.whole)| && (t.taker.None? <==> t.err == EBADKEY)
    requires t.taker.Some? ==> t.taker.value < |s.hasParser| && s.hasParser[t.taker.value]
    requires Offered(t.answers, t.index, EndOf(t.answers, t.index), t.err)
    requires t.after.next == if t.err == 0 && t.whole then s.argc else EndOf(t.answers, t.index)
    ensures StepOk(s, e, t)
  {}

  /** A turn without an argument. */
  lemma OtherStep(s: Setup, e: Event, t: Step)
    requires t.turn == TurnFor(s, t.before, e) && !t.turn.Argument? && t.index == Place(t.before, e) && t.taker.None?
    requires t.after.quoted == QuotedAfter(t.before, e)
    requires t.after.tryGetopt == (t.before.tryGetopt && !(Asked(t.before) && e.GetoptEnd?))
    requires |t.answers| == |StepCalls(s.hasParser, t)| && Answered(t.answers, t.err)
    requires Moves(t.answers, Taken(t.before, e), t.after.next)
    ensures StepOk(s, e, t)
  {}

  function LastError(steps: seq<Step>): int { if steps == [] then 0 else steps[|steps| - 1].err }

  function MiddleCalls(hasParser: seq<bool>, steps: seq<Step>): seq<Call> {
    if steps == [] then [] else MiddleCalls(hasParser, steps[..|steps| - 1]) + StepCalls(hasParser, steps[|steps| - 1])
  }

  function MiddleAnswers(steps: seq<Step>): seq<Answer> {
    if steps == [] then [] else MiddleAnswers(steps[..|steps| - 1]) + steps[|steps| - 1].answers
  }

  lemma MiddleNext(hasParser: seq<bool>, steps: seq<Step>, t: Step)
    ensures MiddleCalls(hasParser, steps + [t]) == MiddleCalls(hasParser, steps) + StepCalls(hasParser, t)
    ensures MiddleAnswers(steps + [t]) == MiddleAnswers(steps) + t.answers
  {
    assert (steps + [t])[..|steps|] == steps;
  }

  // ----- Processed arguments -----

  /** How many arguments a turn processed: none when it failed or the parser went back. */
  function Amount(t: Step): int {
    if t.turn.Argument? && t.err == 0 && t.after.next > t.index then t.after.next - t.index else 0
  }

  /** Group G processed arguments in a turn. */
  predicate Credits(t: Step, g: nat) { Amount(t) > 0 && t.taker == Some(g) }

  /** Group G processed an argument in some turn. */
  ghost predicate Processed(steps: seq<Step>, g: nat) { exists i | 0 <= i < |steps| :: Credits(steps[i], g) }

  function Credited(args: seq<int>, t: Step): (r: seq<int>)
    ensures |r| == |args|
  {
    if Amount(t) > 0 && t.taker.Some? && t.taker.value < |args|
    then args[t.taker.value := args[t.taker.value] + Amount(t)] else args
  }

  /** The `args_processed` of N groups after the turns. */
  function Counts(n: nat, steps: seq<Step>): (r: seq<int>)
    ensures |r| == n
  {
    if steps == [] then seq(n, i => 0) else Credited(Counts(n, steps[..|steps| - 1]), steps[|steps| - 1])
  }

  lemma CountsNext(n: nat, steps: seq<Step>, t: Step)
    ensures Counts(n, steps + [t]) == Credited(Counts(n, steps), t)
  {
    assert (steps + [t])[..|steps|] == steps;
  }

  /** A count is zero exactly for groups that processed no argument. */
  lemma {:induction false} CountsTell(n: nat, steps: seq<Step>, g: nat)
    requires g < n
    ensures Counts(n, steps)[g] >= 0 && (Counts(n, steps)[g] == 0 <==> !Processed(steps, g))
  {
    if steps != [] {
      var m := |steps| - 1;
      CountsTell(n, steps[..m], g);
      if Processed(steps[..m], g) {
        var i :| 0 <= i < m && Credits(steps[..m][i], g);
        assert Credits(steps[i], g);
      }
      if Processed(steps, g) && !Credits(steps[m], g) {
        var i :| 0 <= i < |steps| && Credits(steps[i], g);
        assert Credits(steps[..m][i], g);
      }
    }
  }

  // ----- The end of a run -----

  /** How far each closing pass gets: the groups before IDLE are told that they had no
      arguments, those from ENDED on that all is read; then all are told of an error, or those
      from SUCCEEDED on of the success. */
  datatype Closing = Closing(idle: nat, ended: nat, failed: bool, succeeded: nat)

  predicate Bounded(hasParser: seq<bool>, c: Closing) {
    c.idle <= |hasParser| && c.ended <= |hasParser| && c.succeeded <= |hasParser|
  }

  function ReadCalls(hasParser: seq<bool>, args: seq<int>, idle: nat, ended: nat): seq<Call>
    requires |args| == |hasParser| && idle <= |hasParser| && ended <= |hasParser|
  {
    UpIdle(hasParser, args, NoArgs, idle) + Down(hasParser, End, ended)
  }

  function Verdict(hasParser: seq<bool>, c: Closing): seq<Call>
    requires Bounded(hasParser, c)
  {
    if c.failed then Up(hasParser, Error, |hasParser|) else Down(hasParser, Success, c.succeeded)
  }

  function ClosingCalls(hasParser: seq<bool>, args: seq<int>, c: Closing): seq<Call>
    requires Bounded(hasParser, c) && |args| == |hasParser|
  {
    ReadCalls(hasParser, args, c.idle, c.ended) + Verdict(hasParser, c) + Down(hasParser, Fini, 0)
  }

  /** The passes that go with a way of ending: FINE when no error came up while reading, ALL when
      every argument was read. */
  predicate Outcome(hasParser: seq<bool>, c: Closing, fine: bool, all: bool, wantsEnd: bool) {
    && (!(fine && all) ==> c.idle == 0 && c.ended == |hasParser|)
    && (fine && all ==> if c.failed then c.idle == |hasParser| || c.ended == |hasParser| else c.idle == |hasParser| && c.ended == 0)
    && (!fine || (!all && !wantsEnd) ==> c.failed)
    && (fine && !all && wantsEnd ==> !c.failed)
  }

  /** The value returned for the answers of the closing passes: ERR0 if reading failed. */
  ghost predicate Returned(c: Closing, fine: bool, err0: int, closed: seq<Answer>, verdict: seq<Answer>, err: int) {
    && err != EBADKEY
    && (!fine ==> c.failed && err == if err0 == EBADKEY then EINVAL else err0)
    && (fine && c.failed ==> if Calm(closed) then err == EINVAL else Obeyed(closed, err))
    && (!c.failed ==> fine && Calm(closed) && Obeyed(verdict, err) && (err == 0 ==> c.succeeded == 0))
  }

  /** Reading ended without an error: all is read, or no parser takes an argument. */
  predicate Fine(t: Step) { t.err == EBADKEY && (t.turn.AllRead? || t.turn.Argument?) }

  // ----- Whole runs -----

  /** A run of `argp_parse`: aborted while the parsers are initialized, still reading, or
      complete.  INIT, CLOSED, VERDICT and FINI are the answers of the passes. */
  datatype Run =
    | Aborted(groups: nat, init: seq<Answer>)
    | Unfinished(init: seq<Answer>, steps: seq<Step>, end: Reader)
    | Complete(init: seq<Answer>, steps: seq<Step>, closing: Closing, closed: seq<Answer>, verdict: seq<Answer>, fini: seq<Answer>)

  ghost predicate WellFormed(hasParser: seq<bool>, run: Run) {
    match run
    case Aborted(k, _) => k <= |hasParser|
    case Unfinished(_, _, _) => true
    case Complete(_, _, c, _, _, _) => Bounded(hasParser, c)
  }

  ghost function RunCalls(hasParser: seq<bool>, run: Run): seq<Call>
    requires WellFormed(hasParser, run)
  {
    match run
    case Aborted(k, _) => Up(hasParser, Init, k)
    case Unfinished(_, steps, _) => Up(hasParser, Init, |hasParser|) + MiddleCalls(hasParser, steps)
    case Complete(_, steps, c, _, _, _) =>
      Up(hasParser, Init, |hasParser|) + MiddleCalls(hasParser, steps) + ClosingCalls(hasParser, Counts(|hasParser|, steps), c)
  }

  ghost function RunLog(run: Run): seq<Answer> {
    match run
    case Aborted(_, init) => init
    case Unfinished(init, steps, _) => init + MiddleAnswers(steps)
    case Complete(init, steps, _, closed, verdict, fini) => init + MiddleAnswers(steps) + (closed + verdict + fini)
  }

  /** The reader once the parsers are initialized. */
  function Started(first: Reader, init: seq<Answer>): Reader { first.(next := EndOf(init, first.next)) }

  ghost predicate Began(s: Setup, first: Reader, init: seq<Answer>) {
    |init| == |Up(s.hasParser, Init, |s.hasParser|)| && Chain(init, first.next) && Calm(init)
  }

  /** The end of a complete run after its last turn T. */
  ghost predicate Ended(s: Setup, wantsEnd: bool, args: seq<int>, t: Step, c: Closing,
                        closed: seq<Answer>, verdict: seq<Answer>, fini: seq<Answer>, err: int)
    requires Bounded(s.hasParser, c) && |args| == |s.hasParser|
  {
    && Outcome(s.hasParser, c, Fine(t), t.after.next == s.argc, wantsEnd)
    && |closed| == |ReadCalls(s.hasParser, args, c.idle, c.ended)| && |verdict| == |Verdict(s.hasParser, c)|
    && |fini| == |Down(s.hasParser, Fini, 0)| && (Fine(t) && t.after.next == s.argc ==> (c.failed <==> !Calm(closed)))
    && Chain(closed + verdict + fini, t.after.next) && Returned(c, Fine(t), t.err, closed, verdict, err)
  }

  /** What the code makes of EVENTS from the reader FIRST on: an error code that is not tolerated
      aborts the initialization; a run is unfinished only when every event was used and every turn
      succeeded; otherwise its last turn failed and the closing passes were made. */
  ghost predicate RunOk(s: Setup, events: seq<Event>, wantsEnd: bool, first: Reader, run: Run, err: int)
    requires WellFormed(s.hasParser, run)
  {
    match run
    case Aborted(k, init) =>
      |init| == |Up(s.hasParser, Init, k)| && Chain(init, first.next) && Obeyed(init, err) && !Tolerated(err)
    case Unfinished(init, steps, end) =>
      && Began(s, first, init) && Turns(s, events, steps, Started(first, init), end)
      && |steps| == |events| && LastError(steps) == 0 && err == 0
    case Complete(init, steps, c, closed, verdict, fini) =>
      && Began(s, first, init) && steps != [] && LastError(steps) != 0
      && Turns(s, events, steps, Started(first, init), steps[|steps| - 1].after)
      && Ended(s, wantsEnd, Counts(|s.hasParser|, steps), steps[|steps| - 1], c, closed, verdict, fini, err)
  }

  lemma UnfinishedRun(s: Setup, events: seq<Event>, wantsEnd: bool, first: Reader, init: seq<Answer>, steps: seq<Step>, end: Reader,
                      trace: seq<Call>, log: seq<Answer>)
    requires Began(s, first, init) && Turns(s, events, steps, Started(first, init), end) && |steps| == |events| && LastError(steps) == 0
    requires trace == Up(s.hasParser, Init, |s.hasParser|) + MiddleCalls(s.hasParser, steps) && log == init + MiddleAnswers(steps)
    ensures var run := Unfinished(init, steps, end);
            && WellFormed(s.hasParser, run) && trace == RunCalls(s.hasParser, run) && log == RunLog(run)
            && RunOk(s, events, wantsEnd, first, run, 0)
  {}

  lemma CompleteRun(s: Setup, events: seq<Event>, wantsEnd: bool, first: Reader, init: seq<Answer>, steps: seq<Step>, c: Closing,
                    closed: seq<Answer>, verdict: seq<Answer>, fini: seq<Answer>, err: int, trace: seq<Call>, log: seq<Answer>)
    requires Began(s, first, init) && steps != [] && LastError(steps) != 0 && Bounded(s.hasParser, c)
    requires Turns(s, events, steps, Started(first, init), steps[|steps| - 1].after)
    requires Ended(s, wantsEnd, Counts(|s.hasParser|, steps), steps[|steps| - 1], c, closed, verdict, fini, err)
    requires trace == Up(s.hasParser, Init, |s.hasParser|) + MiddleCalls(s.hasParser, steps)
                      + ClosingCalls(s.hasParser, Counts(|s.hasParser|, steps), c)
    requires log == init + MiddleAnswers(steps) + (closed + verdict + fini)
    ensures var run := Complete(init, steps, c, closed, verdict, fini);
            && WellFormed(s.hasParser, run) && trace == RunCalls(s.hasParser, run) && log == RunLog(run)
            && RunOk(s, events, wantsEnd, first, run, err)
  {}
}
