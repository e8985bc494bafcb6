/** `argp_parse` after its tables are built: the passes of `parser_init` and `parser_finalize` and
    the reading loop between them. */
module ParserLifecycle {
  import opened Wrappers
  import opened Sequences
  import opened ParserRuns

  /** `struct parser`; LOG holds the answer to every call in TRACE. */
  class Parser {
    const setup: Setup
    const callback: Callback
    var trace: seq<Call>
    var args: seq<int>
    var next: int
    var quoted: int
    var tryGetopt: bool
    ghost var log: seq<Answer>

    constructor (setup: Setup, callback: Callback)
      ensures this.setup == setup && this.callback == callback && Valid() && Fresh()
    {
      this.setup, this.callback := setup, callback;
      trace, next, quoted, tryGetopt, log := [], 0, 0, true, [];
      args := seq(|setup.hasParser|, i => 0);
    }

    ghost predicate Valid()
      reads this
    {
      |args| == |setup.hasParser| && Logged(callback, trace, log)
    }

    /** As `parser_init` leaves it before the first call. */
    ghost predicate Fresh()
      reads this
    {
      trace == [] && args == Counts(|setup.hasParser|, []) && State() == Reader(true, 0, 0)
    }

    function State(): Reader
      reads this
    {
      Reader(tryGetopt, quoted, next)
    }

    /** `group_parse`. */
    method GroupParse(g: nat, key: Key) returns (err: int, ghost rs: seq<Answer>)
      requires Valid() && g < |setup.hasParser|
      modifies `trace, `next, `log
      ensures Valid() && trace == old(trace) + One(setup.hasParser, g, key) && log == old(log) + rs
      ensures rs == if setup.hasParser[g] then [Answer(old(next), err, next)] else []
      ensures !setup.hasParser[g] ==> err == EBADKEY && next == old(next)
      ensures Moves(rs, old(next), next)
    {
      rs := [];
      if setup.hasParser[g] {
        var c := Call(g, key);
        var r := callback(trace + [c], next);
        rs := [Answer(next, r.0, r.1)];
        LoggedNext(callback, trace, log, c, rs[0]);
        trace, log := trace + [c], log + rs;
        err, next := r.0, r.1;
      } else {
        err := EBADKEY;
      }
    }

    /** The ARGP_KEY_INIT loop of `parser_init`; K is the number of groups it got to. */
    method InitAll() returns (err: int, ghost k: nat, ghost rs: seq<Answer>)
      requires Valid()
      modifies `trace, `next, `log
      ensures Valid() && k <= |setup.hasParser| && trace == old(trace) + Up(setup.hasParser, Init, k)
      ensures log == old(log) + rs && Passage(rs, old(next), next, err)
      ensures err != EBADKEY && (err == 0 ==> k == |setup.hasParser|)
    {
      err, rs := 0, [];
      var g := 0;
      while g < |setup.hasParser| && Tolerated(err)
        invariant Valid() && g <= |setup.hasParser| && trace == old(trace) + Up(setup.hasParser, Init, g)
        invariant log == old(log) + rs && Passage(rs, old(next), next, err)
      {
        ghost var ss, e, p := [], err, next;
        err, ss := GroupParse(g, Init);
        PassageStep(rs, ss, old(next), p, next, e, err);
        Associate(old(log), rs, ss);
        Associate(old(trace), Up(setup.hasParser, Init, g), One(setup.hasParser, g, Init));
        rs, g := rs + ss, g + 1;
      }
      k := g;
      if err == EBADKEY {
        err := 0;
      }
    }

    /** The ARGP_KEY_NO_ARGS loop. */
    method NoArgsAll() returns (err: int, ghost k: nat, ghost rs: seq<Answer>)
      requires Valid()
      modifies `trace, `next, `log
      ensures Valid() && k <= |args| && trace == old(trace) + UpIdle(setup.hasParser, args, NoArgs, k)
      ensures log == old(log) + rs && Passage(rs, old(next), next, err)
      ensures Tolerated(err) ==> k == |setup.hasParser|
    {
      err, rs := 0, [];
      var g := 0;
      while g < |setup.hasParser| && Tolerated(err)
        invariant Valid() && g <= |args| && trace == old(trace) + UpIdle(setup.hasParser, args, NoArgs, g)
        invariant log == old(log) + rs && Passage(rs, old(next), next, err)
      {
        Associate(old(trace), UpIdle(setup.hasParser, args, NoArgs, g), OneIdle(setup.hasParser, args, g, NoArgs));
        if args[g] == 0 {
          ghost var ss, e, p := [], err, next;
          err, ss := GroupParse(g, NoArgs);
          PassageStep(rs, ss, old(next), p, next, e, err);
          Associate(old(log), rs, ss);
          rs := rs + ss;
        }
        g := g + 1;
      }
      k := g;
    }

    /** The loops of ARGP_KEY_END and ARGP_KEY_SUCCESS, from the last group to the first. */
    method CallDown(key: Key, err0: int) returns (err: int, ghost k: nat, ghost rs: seq<Answer>)
      requires Valid()
      modifies `trace, `next, `log
      ensures Valid() && k <= |setup.hasParser| && trace == old(trace) + Down(setup.hasParser, key, k) && log == old(log) + rs
      ensures Tolerated(err) ==> k == 0
      ensures Tolerated(err0) ==> Passage(rs, old(next), next, err)
      ensures !Tolerated(err0) ==> k == |setup.hasParser| && err == err0 && rs == [] && next == old(next)
    {
      err, rs := err0, [];
      k := |setup.hasParser|;
      if Tolerated(err0) {
        var g := |setup.hasParser|;
        while g > 0 && Tolerated(err)
          invariant Valid() && 0 <= g <= |setup.hasParser| && trace == old(trace) + Down(setup.hasParser, key, g)
          invariant log == old(log) + rs && Passage(rs, old(next), next, err)
        {
          g := g - 1;
          ghost var ss, e, p := [], err, next;
          err, ss := GroupParse(g, key);
          PassageStep(rs, ss, old(next), p, next, e, err);
          Associate(old(log), rs, ss);
          Associate(old(trace), Down(setup.hasParser, key, g + 1), One(setup.hasParser, g, key));
          rs := rs + ss;
        }
        k := g;
      }
    }

    /** The ARGP_KEY_ERROR loop. */
    method ErrorAll() returns (ghost rs: seq<Answer>)
      requires Valid()
      modifies `trace, `next, `log
      ensures Valid() && trace == old(trace) + Up(setup.hasParser, Error, |setup.hasParser|)
      ensures log == old(log) + rs && Moves(rs, old(next), next)
    {
      rs := [];
      var g := 0;
      while g < |setup.hasParser|
        invariant Valid() && g <= |setup.hasParser| && trace == old(trace) + Up(setup.hasParser, Error, g)
        invariant log == old(log) + rs && Moves(rs, old(next), next)
      {
        ghost var ss, p := [], next;
        var err;
        err, ss := GroupParse(g, Error);
        MovesStep(rs, ss, old(next), p, next);
        Associate(old(log), rs, ss);
        Associate(old(trace), Up(setup.hasParser, Error, g), One(setup.hasParser, g, Error));
        assert trace == old(trace) + Up(setup.hasParser, Error, g + 1);
        rs, g := rs + ss, g + 1;
      }
    }

    /** The ARGP_KEY_FINI loop. */
    method FiniAll() returns (ghost rs: seq<Answer>)
      requires Valid()
      modifies `trace, `next, `log
      ensures Valid() && trace == old(trace) + Down(setup.hasParser, Fini, 0)
      ensures log == old(log) + rs && Moves(rs, old(next), next)
    {
      rs := [];
      var g := |setup.hasParser|;
      while g > 0
        invariant Valid() && 0 <= g <= |setup.hasParser| && trace == old(trace) + Down(setup.hasParser, Fini, g)
        invariant log == old(log) + rs && Moves(rs, old(next), next)
      {
        g := g - 1;
        ghost var ss, p := [], next;
        var err;
        err, ss := GroupParse(g, Fini);
        MovesStep(rs, ss, old(next), p, next);
        Associate(old(log), rs, ss);
        Associate(old(trace), Down(setup.hasParser, Fini, g + 1), One(setup.hasParser, g, Fini));
        rs := rs + ss;
      }
    }

    /** One turn of the loop of `parser_parse_arg`: a group is offered the argument and, when it
        does not like it, all that are left. */
    method OfferTo(g: nat) returns (err: int, whole: bool, ghost rs: seq<Answer>)
      requires Valid() && g < |setup.hasParser|
      modifies `trace, `next, `log
      ensures Valid() && trace == old(trace) + Offer(setup.hasParser, g, whole) && log == old(log) + rs
      ensures Offered(rs, old(next), next, err) && (err == EBADKEY ==> whole && |rs| % 2 == 0)
      ensures !setup.hasParser[g] ==> err == EBADKEY
    {
      next := next + 1;
      err, rs := GroupParse(g, Arg);
      whole := err == EBADKEY;
      if err == EBADKEY {
        next := next - 1;
        ghost var ss;
        err, ss := GroupParse(g, Args);
        Associate(old(trace), One(setup.hasParser, g, Arg), One(setup.hasParser, g, Args));
        Associate(old(log), rs, ss);
        rs := rs + ss;
      }
    }

    /** The first G groups have rejected the argument at P. */
    ghost predicate Offering(trace0: seq<Call>, log0: seq<Answer>, p: int, g: nat, rs: seq<Answer>)
      reads this
    {
      Valid() && trace == trace0 + Offers(setup.hasParser, g) && log == log0 + rs && Rejected(rs, p, next)
    }

    /** The argument at P has been offered: TAKER settled it, or all rejected it. */
    ghost predicate WasOffered(trace0: seq<Call>, log0: seq<Answer>, p: int, taker: Option<nat>, whole: bool, err: int, rs: seq<Answer>)
      reads this
    {
      && Valid() && trace == trace0 + ArgCalls(setup.hasParser, taker, whole) && log == log0 + rs && Offered(rs, p, next, err)
      && (taker.None? <==> err == EBADKEY) && (taker.Some? ==> taker.value < |setup.hasParser| && setup.hasParser[taker.value])
    }

    /** One more group after offers RS that were all rejected. */
    method OfferNext(g: nat, ghost trace0: seq<Call>, ghost log0: seq<Answer>, ghost p: int, ghost rs: seq<Answer>)
      returns (err: int, whole: bool, ghost rs': seq<Answer>)
      requires g < |setup.hasParser| && Offering(trace0, log0, p, g, rs)
      modifies `trace, `next, `log
      ensures err == EBADKEY ==> Offering(trace0, log0, p, g + 1, rs')
      ensures err != EBADKEY ==> WasOffered(trace0, log0, p, Some(g), whole, err, rs')
    {
      ghost var ss, q := [], next;
      err, whole, ss := OfferTo(g);
      Associate(trace0, Offers(setup.hasParser, g), Offer(setup.hasParser, g, whole));
      Associate(log0, rs, ss);
      OfferStep(rs, ss, p, q, next, err);
      rs' := rs + ss;
    }

    /** The loop of `parser_parse_arg`: groups are offered the argument in turn until one does not
        reject it; TAKER is that group. */
    method OfferAll() returns (err: int, taker: Option<nat>, whole: bool, ghost rs: seq<Answer>)
      requires Valid()
      modifies `trace, `next, `log
      ensures WasOffered(old(trace), old(log), old(next), taker, whole, err, rs)
    {
      whole, rs := true, [];
      var g: nat := 0;
      while g < |setup.hasParser|
        invariant g <= |setup.hasParser| && Offering(old(trace), old(log), old(next), g, rs)
      {
        err, whole, rs := OfferNext(g, old(trace), old(log), old(next), rs);
        if err != EBADKEY {
          return err, Some(g), whole, rs;
        }
        g := g + 1;
      }
      err, taker := EBADKEY, None;
    }

    /** `parser_parse_arg`. */
    method ParseArg() returns (err: int, ghost taker: Option<nat>, whole: bool, ghost rs: seq<Answer>)
      requires Valid()
      modifies this
      ensures Valid() && trace == old(trace) + ArgCalls(setup.hasParser, taker, whole) && log == old(log) + rs
      ensures (taker.None? <==> err == EBADKEY) && (taker.Some? ==> taker.value < |setup.hasParser| && setup.hasParser[taker.value])
      ensures var index := old(next) - 1;
              && Offered(rs, index, EndOf(rs, index), err)
              && next == (if err == 0 && whole then setup.argc else EndOf(rs, index))
              && tryGetopt == (old(tryGetopt) || (err == 0 && next <= index))
              && args == (if err == 0 && next > index then old(args)[taker.value := old(args)[taker.value] + (next - index)] else old(args))
      ensures quoted == old(quoted)
    {
      next := next - 1;
      var index := next;
      var last;
      err, last, whole, rs := OfferAll();
      taker := last;
      if err == 0 {
        if whole {
          next := setup.argc;
        }
        if next > index {
          args := args[last.value := args[last.value] + (next - index)];
        } else {
          tryGetopt := true;
        }
      }
    }

    /** `parser_parse_opt`, for the group it picks. */
    method ParseOption(g: Option<nat>, key: int) returns (err: int, ghost rs: seq<Answer>)
      requires Valid() && (g.Some? ==> g.value < |setup.hasParser|)
      modifies `trace, `next, `log
      ensures Valid() && trace == old(trace) + OptionCalls(setup.hasParser, g, key) && log == old(log) + rs
      ensures Moves(rs, old(next), next) && Answered(rs, err)
    {
      if g.Some? {
        err, rs := GroupParse(g.value, User(key));
      } else {
        err, rs := EBADKEY, [];
      }
    }

    /** The choice of a turn in `parser_parse_next`: getopt's answer is taken when it is asked,
        and what it leaves is taken as arguments. */
    method BeginTurn(e: Event) returns (turn: Turn)
      modifies `next, `quoted, `tryGetopt
      ensures turn == TurnFor(setup, old(State()), e) && quoted == QuotedAfter(old(State()), e)
      ensures tryGetopt == (old(tryGetopt) && !(Asked(old(State())) && e.GetoptEnd?))
      ensures next == if turn.Argument? then Place(old(State()), e) + 1 else Taken(old(State()), e)
    {
      if quoted != 0 && next < quoted {
        quoted := 0;
      }
      var ask := tryGetopt && quoted == 0;
      if ask {
        next := e.next;
        match e
        case GetoptError(_) =>
          return Refused;
        case GetoptArg(_) =>
          return Argument;
        case GetoptOption(_, g, key) =>
          return AnOption(g, key);
        case GetoptEnd(_, quote) =>
          tryGetopt := false;
          if next > 1 && quote {
            quoted := next;
          }
      }
      if next >= setup.argc || setup.noArgs {
        turn := AllRead;
      } else {
        turn := Argument;
        next := next + 1;
      }
    }

    /** `parser_parse_next`, with getopt's answer should it be asked: the turn T. */
    method ParseNext(e: Event) returns (err: int, argEbadkey: bool, ghost t: Step)
      requires Valid() && (e.GetoptOption? && e.group.Some? ==> e.group.value < |setup.hasParser|)
      modifies this
      ensures Valid() && trace == old(trace) + StepCalls(setup.hasParser, t) && log == old(log) + t.answers
      ensures StepOk(setup, e, t) && t.before == old(State()) && t.after == State() && t.err == err
      ensures args == Credited(old(args), t) && (err == EBADKEY ==> argEbadkey == Fine(t))
    {
      argEbadkey := false;
      ghost var before := State();
      var turn := BeginTurn(e);
      ghost var rs, taker, whole := [], None, false;
      if turn.Argument? {
        var w;
        err, taker, w, rs := ParseArg();
        whole := w;
        argEbadkey := err == EBADKEY;
      } else if turn.AnOption? {
        err, rs := ParseOption(turn.group, turn.key);
      } else {
        err, argEbadkey := EBADKEY, turn.AllRead?;
      }
      t := Step(before, turn, Place(before, e), taker, whole, rs, err, State());
      if turn.Argument? {
        ArgumentStep(setup, e, t);
      } else {
        OtherStep(setup, e, t);
      }
    }

    /** What the loop knows after the turns STEPS, when it began with CALLS, ANSWERS and START. */
    ghost predicate Read(events: seq<Event>, steps: seq<Step>, calls: seq<Call>, answers: seq<Answer>, start: Reader)
      reads this
    {
      && Valid() && |steps| <= |events| && Turns(setup, events, steps, start, State()) && args == Counts(|setup.hasParser|, steps)
      && trace == calls + MiddleCalls(setup.hasParser, steps) && log == answers + MiddleAnswers(steps)
    }

    /** One turn of the loop. */
    method ReadOne(events: seq<Event>, i: nat, ghost steps: seq<Step>, ghost calls: seq<Call>, ghost answers: seq<Answer>, ghost start: Reader)
      returns (err: int, argEbadkey: bool, ghost t: Step)
      requires GroupsExist(events, |setup.hasParser|) && i == |steps| < |events|
      requires Read(events, steps, calls, answers, start) && LastError(steps) == 0
      modifies this
      ensures Read(events, steps + [t], calls, answers, start) && t.err == err
      ensures err == EBADKEY ==> argEbadkey == Fine(t)
    {
      ghost var end := State();
      err, argEbadkey, t := ParseNext(events[i]);
      TurnsNext(setup, events, steps, start, end, t);
      MiddleNext(setup.hasParser, steps, t);
      CountsNext(|setup.hasParser|, steps, t);
      Associate(calls, MiddleCalls(setup.hasParser, steps), StepCalls(setup.hasParser, t));
      Associate(answers, MiddleAnswers(steps), t.answers);
    }

    /** The loop of `argp_parse`: EVENTS are getopt's answers, one for each turn. */
    method ReadAll(events: seq<Event>) returns (err: int, argEbadkey: bool, ghost steps: seq<Step>)
      requires Valid() && GroupsExist(events, |setup.hasParser|) && args == Counts(|setup.hasParser|, [])
      modifies this
      ensures Valid() && trace == old(trace) + MiddleCalls(setup.hasParser, steps) && log == old(log) + MiddleAnswers(steps)
      ensures Turns(setup, events, steps, old(State()), State()) && err == LastError(steps) && args == Counts(|setup.hasParser|, steps)
      ensures err == 0 ==> |steps| == |events|
      ensures err == EBADKEY ==> argEbadkey == Fine(steps[|steps| - 1])
    {
      err, argEbadkey, steps := 0, false, [];
      var i := 0;
      while i < |events| && err == 0
        invariant i == |steps| && err == LastError(steps) && Read(events, steps, old(trace), old(log), old(State()))
        invariant err == EBADKEY ==> argEbadkey == Fine(steps[|steps| - 1])
      {
        ghost var t;
        err, argEbadkey, t := ReadOne(events, i, steps, old(trace), old(log), old(State()));
        steps, i := steps + [t], i + 1;
      }
    }

    /** The NO_ARGS and END passes of `parser_finalize`. */
    method CloseAll() returns (err: int, ghost idle: nat, ghost ended: nat, ghost rs: seq<Answer>)
      requires Valid()
      modifies `trace, `next, `log
      ensures Valid() && idle <= |setup.hasParser| && ended <= |setup.hasParser|
      ensures trace == old(trace) + ReadCalls(setup.hasParser, args, idle, ended) && log == old(log) + rs
      ensures Passage(rs, old(next), next, err) && err != EBADKEY && (err == 0 ==> idle == |setup.hasParser| && ended == 0)
      ensures idle == |setup.hasParser| || ended == |setup.hasParser|
    {
      err, idle, rs := NoArgsAll();
      ghost var first, p, ss := err, next, [];
      err, ended, ss := CallDown(End, err);
      Associate(old(trace), UpIdle(setup.hasParser, args, NoArgs, idle), Down(setup.hasParser, End, ended));
      Associate(old(log), rs, ss);
      if Tolerated(first) {
        PassageStep(rs, ss, old(next), p, next, first, err);
      } else {
        assert rs + ss == rs;
      }
      rs := rs + ss;
      if err == EBADKEY {
        err := 0;
      }
    }

    /** The part of `parser_finalize` that closes the reading of arguments. */
    method CloseReading(err0: int, wantsEnd: bool) returns (err: int, ghost idle: nat, ghost ended: nat, ghost rs: seq<Answer>)
      requires Valid()
      modifies `trace, `next, `log
      ensures Valid() && idle <= |setup.hasParser| && ended <= |setup.hasParser|
      ensures trace == old(trace) + ReadCalls(setup.hasParser, args, idle, ended) && log == old(log) + rs
      ensures err0 == 0 && old(next) == setup.argc ==>
                && Passage(rs, old(next), next, err) && err != EBADKEY && (err == 0 ==> idle == |setup.hasParser| && ended == 0)
                && (idle == |setup.hasParser| || ended == |setup.hasParser|)
      ensures !(err0 == 0 && old(next) == setup.argc) ==>
                && idle == 0 && ended == |setup.hasParser| && rs == [] && next == old(next)
                && err == if err0 != 0 then err0 else if wantsEnd then 0 else EBADKEY
    {
      err, idle, ended, rs := err0, 0, |setup.hasParser|, [];
      if err == 0 {
        if next == setup.argc {
          err, idle, ended, rs := CloseAll();
        } else if !wantsEnd {
          err := EBADKEY;
        }
      }
    }

    /** The part of `parser_finalize` that tells the parsers how it went. */
    method Announce(err0: int) returns (err: int, ghost c: Closing, ghost verdict: seq<Answer>, ghost fini: seq<Answer>)
      requires Valid()
      modifies `trace, `next, `log
      ensures Valid() && c.idle == c.ended == 0 && Bounded(setup.hasParser, c)
      ensures trace == old(trace) + (Verdict(setup.hasParser, c) + Down(setup.hasParser, Fini, 0)) && log == old(log) + (verdict + fini)
      ensures |verdict| == |Verdict(setup.hasParser, c)| && Chain(verdict + fini, old(next)) && (c.failed <==> err0 != 0)
      ensures c.failed ==> err == if err0 == EBADKEY then EINVAL else err0
      ensures !c.failed ==> Obeyed(verdict, err) && err != EBADKEY && (err == 0 ==> c.succeeded == 0)
    {
      err, c := err0, Closing(0, 0, err0 != 0, 0);
      if err != 0 {
        verdict := ErrorAll();
      } else {
        ghost var k;
        err, k, verdict := CallDown(Success, 0);
        c := c.(succeeded := k);
        if err == EBADKEY {
          err := 0;
        }
      }
      ghost var p := next;
      fini := FiniAll();
      MovesStep(verdict, fini, old(next), p, next);
      Associate(old(trace), Verdict(setup.hasParser, c), Down(setup.hasParser, Fini, 0));
      Associate(old(log), verdict, fini);
      if err == EBADKEY {
        err := EINVAL;
      }
    }

    /** `parser_finalize`, after the turn T; WANTSEND says that the caller takes the index of the
        first argument left over. */
    method Finalize(err0: int, argEbadkey: bool, wantsEnd: bool, ghost t: Step)
      returns (err: int, ghost c: Closing, ghost closed: seq<Answer>, ghost verdict: seq<Answer>, ghost fini: seq<Answer>)
      requires Valid() && t.err == err0 != 0 && t.after == State() && (err0 == EBADKEY ==> argEbadkey == Fine(t))
      modifies `trace, `next, `log
      ensures Valid() && Bounded(setup.hasParser, c) && trace == old(trace) + ClosingCalls(setup.hasParser, args, c)
      ensures log == old(log) + (closed + verdict + fini)
      ensures Ended(setup, wantsEnd, args, t, c, closed, verdict, fini, err)
    {
      err := if err0 == EBADKEY && argEbadkey then 0 else err0;
      ghost var idle, ended;
      err, idle, ended, closed := CloseReading(err, wantsEnd);
      ghost var mid, p := err, next;
      err, c, verdict, fini := Announce(err);
      c := c.(idle := idle, ended := ended);
      Associate(old(trace), ReadCalls(setup.hasParser, args, idle, ended), Verdict(setup.hasParser, c) + Down(setup.hasParser, Fini, 0));
      Associate(ReadCalls(setup.hasParser, args, idle, ended), Verdict(setup.hasParser, c), Down(setup.hasParser, Fini, 0));
      Associate(old(log), closed, verdict + fini);
      Associate(closed, verdict, fini);
      MovesStep(closed, verdict + fini, old(next), p, EndOf(verdict + fini, p));
    }

    /** `argp_parse` after its tables are built: the calls, the answers and the value returned are
        those of a run over EVENTS. */
    method Parse(events: seq<Event>, wantsEnd: bool) returns (err: int, finished: bool, ghost run: Run)
      requires Valid() && Fresh() && GroupsExist(events, |setup.hasParser|)
      modifies this
      ensures WellFormed(setup.hasParser, run) && trace == RunCalls(setup.hasParser, run) && log == RunLog(run)
      ensures Logged(callback, trace, log) && RunOk(setup, events, wantsEnd, old(State()), run, err)
      ensures finished <==> !run.Unfinished?
    {
      ghost var k, init;
      err, k, init := InitAll();
      assert trace == Up(setup.hasParser, Init, k) && log == init;
      if err != 0 {
        return err, true, Aborted(k, init);
      }
      var argEbadkey;
      ghost var steps;
      err, argEbadkey, steps := ReadAll(events);
      if err == 0 {
        UnfinishedRun(setup, events, wantsEnd, old(State()), init, steps, State(), trace, log);
        return 0, false, Unfinished(init, steps, State());
      }
      ghost var c, closed, verdict, fini;
      err, c, closed, verdict, fini := Finalize(err, argEbadkey, wantsEnd, steps[|steps| - 1]);
      CompleteRun(setup, events, wantsEnd, old(State()), init, steps, c, closed, verdict, fini, err, trace, log);
      finished, run := true, Complete(init, steps, c, closed, verdict, fini);
    }
  }

  /** The groups of getopt's options exist. */
  ghost predicate GroupsExist(events: seq<Event>, n: nat) {
    forall i | 0 <= i < |events| :: events[i].GetoptOption? && events[i].group.Some? ==> events[i].group.value < n
  }
}
