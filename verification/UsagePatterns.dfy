/** Alternative usage patterns: `argp_args_levels`, `argp_args_usage` and the loop of `_help`
    that prints one usage line per combination of alternative argument lines. */
module UsagePatterns {
  import opened ArgpTypes

  // ----- The tree as a mixed-radix number -----

  /** Several alternative lines. */
  predicate Multiple(a: Argp) { a.argsDoc.Some? && |a.argsDoc.value| > 1 }

  /** Own alternatives. */
  function Radix(a: Argp): nat { if Multiple(a) then |a.argsDoc.value| else 1 }

  function Own(a: Argp): nat { if Multiple(a) then 1 else 0 }

  /** `argp_args_levels`: one level per argp with alternative lines. */
  function Levels(a: Argp): nat
    decreases a, 1
  {
    Own(a) + LevelsAll(a.children)
  }

  function LevelsAll(cs: seq<Child>): nat
    decreases cs, 0
  {
    if cs == [] then 0
    else
      assert cs decreases to cs[0];
      Levels(cs[0].argp) + LevelsAll(cs[1..])
  }

  /** The number of combinations. */
  function Count(a: Argp): nat
    decreases a, 1
  {
    CountAll(a.children) * Radix(a)
  }

  function CountAll(cs: seq<Child>): nat
    decreases cs, 0
  {
    if cs == [] then 1
    else
      assert cs decreases to cs[0];
      Count(cs[0].argp) * CountAll(cs[1..])
  }

  /** Every level selects an existing line. */
  predicate InRange(a: Argp, lv: seq<nat>)
    decreases a, 1
  {
    |lv| == Levels(a) && (Multiple(a) ==> lv[0] < Radix(a)) && InRangeAll(a.children, lv[Own(a)..])
  }

  predicate InRangeAll(cs: seq<Child>, lv: seq<nat>)
    decreases cs, 0
  {
    |lv| == LevelsAll(cs) &&
    (cs != [] ==>
       assert cs decreases to cs[0];
       var n := Levels(cs[0].argp);
       InRange(cs[0].argp, lv[..n]) && InRangeAll(cs[1..], lv[n..]))
  }

  /** The position of a combination in the enumeration: the first child counts fastest, an argp
      counts after all its children. */
  function Value(a: Argp, lv: seq<nat>): nat
    requires |lv| == Levels(a)
    decreases a, 1
  {
    ValueAll(a.children, lv[Own(a)..]) + CountAll(a.children) * Digit(a, lv)
  }

  function Digit(a: Argp, lv: seq<nat>): nat
    requires |lv| == Levels(a)
  {
    if Multiple(a) then lv[0] else 0
  }

  function ValueAll(cs: seq<Child>, lv: seq<nat>): nat
    requires |lv| == LevelsAll(cs)
    decreases cs, 0
  {
    if cs == [] then 0
    else
      assert cs decreases to cs[0];
      var n := Levels(cs[0].argp);
      Value(cs[0].argp, lv[..n]) + Count(cs[0].argp) * ValueAll(cs[1..], lv[n..])
  }

  /** What one call prints: the selected line of every argp that documents arguments. */
  function Pattern(a: Argp, lv: seq<nat>): seq<CStr>
    requires InRange(a, lv) && WellDeclared(a)
    decreases a, 1
  {
    (if a.argsDoc.None? then [] else [a.argsDoc.value[Digit(a, lv)]]) + PatternAll(a.children, lv[Own(a)..])
  }

  function PatternAll(cs: seq<Child>, lv: seq<nat>): seq<CStr>
    requires InRangeAll(cs, lv) && forall c | c in cs :: WellDeclared(c.argp)
    decreases cs, 0
  {
    if cs == [] then []
    else
      assert cs decreases to cs[0];
      var n := Levels(cs[0].argp);
      Pattern(cs[0].argp, lv[..n]) + PatternAll(cs[1..], lv[n..])
  }

  // ----- Arithmetic of a digit and a rest -----

  /** A greater digit weighs at least C more. */
  lemma Weight(c: nat, d: nat, e: nat)
    requires d < e
    ensures c * d + c <= c * e
  {
    var k := e - d - 1;
    assert e == d + 1 + k;
    assert c * e == c * d + c + c * k;
    assert c * k >= 0;
  }

  lemma Compose(r: nat, c: nat, d: nat, n: nat)
    requires r < c && d < n
    ensures r + c * d < c * n
  {
    Weight(c, d, n);
  }

  lemma Decompose(r: nat, c: nat, d: nat, r': nat, d': nat)
    requires r < c && r' < c && r + c * d == r' + c * d'
    ensures r == r' && d == d'
  {
    if d < d' {
      Weight(c, d, d');
    } else if d' < d {
      Weight(c, d', d);
    }
  }

  // ----- The numbering is a bijection -----

  lemma {:induction false} ValueBelowCount(a: Argp, lv: seq<nat>)
    requires InRange(a, lv)
    ensures Value(a, lv) < Count(a)
    decreases a, 1
  {
    ValueBelowCountAll(a.children, lv[Own(a)..]);
    Compose(ValueAll(a.children, lv[Own(a)..]), CountAll(a.children), Digit(a, lv), Radix(a));
  }

  lemma {:induction false} ValueBelowCountAll(cs: seq<Child>, lv: seq<nat>)
    requires InRangeAll(cs, lv)
    ensures ValueAll(cs, lv) < CountAll(cs)
    decreases cs, 0
  {
    if cs != [] {
      assert cs decreases to cs[0];
      var n := Levels(cs[0].argp);
      ValueBelowCount(cs[0].argp, lv[..n]);
      ValueBelowCountAll(cs[1..], lv[n..]);
      Compose(Value(cs[0].argp, lv[..n]), Count(cs[0].argp), ValueAll(cs[1..], lv[n..]), CountAll(cs[1..]));
    }
  }

  lemma {:induction false} ValueInjective(a: Argp, lv: seq<nat>, mv: seq<nat>)
    requires InRange(a, lv) && InRange(a, mv) && Value(a, lv) == Value(a, mv)
    ensures lv == mv
    decreases a, 1
  {
    var l, m := lv[Own(a)..], mv[Own(a)..];
    ValueBelowCountAll(a.children, l);
    ValueBelowCountAll(a.children, m);
    Decompose(ValueAll(a.children, l), CountAll(a.children), Digit(a, lv), ValueAll(a.children, m), Digit(a, mv));
    ValueInjectiveAll(a.children, l, m);
    assert lv == lv[..Own(a)] + l && mv == mv[..Own(a)] + m;
  }

  lemma {:induction false} ValueInjectiveAll(cs: seq<Child>, lv: seq<nat>, mv: seq<nat>)
    requires InRangeAll(cs, lv) && InRangeAll(cs, mv) && ValueAll(cs, lv) == ValueAll(cs, mv)
    ensures lv == mv
    decreases cs, 0
  {
    if cs != [] {
      assert cs decreases to cs[0];
      var n := Levels(cs[0].argp);
      ValueBelowCount(cs[0].argp, lv[..n]);
      ValueBelowCount(cs[0].argp, mv[..n]);
      Decompose(Value(cs[0].argp, lv[..n]), Count(cs[0].argp), ValueAll(cs[1..], lv[n..]),
                Value(cs[0].argp, mv[..n]), ValueAll(cs[1..], mv[n..]));
      ValueInjective(cs[0].argp, lv[..n], mv[..n]);
      ValueInjectiveAll(cs[1..], lv[n..], mv[n..]);
      assert lv == lv[..n] + lv[n..] && mv == mv[..n] + mv[n..];
    }
  }

  // ----- One call as an increment with carry -----

  /** The levels and the carry after one call. */
  function Advance(a: Argp, lv: seq<nat>, carry: bool): (r: (seq<nat>, bool))
    requires |lv| == Levels(a)
    ensures |r.0| == |lv|
    decreases a, 1
  {
    var (rest, c) := AdvanceAll(a.children, lv[Own(a)..], carry);
    if !Multiple(a) then (rest, c)
    else if !c then ([lv[0]] + rest, false)
    else if lv[0] + 1 < Radix(a) then ([lv[0] + 1] + rest, false)
    else ([0] + rest, true)
  }

  function AdvanceAll(cs: seq<Child>, lv: seq<nat>, carry: bool): (r: (seq<nat>, bool))
    requires |lv| == LevelsAll(cs)
    ensures |r.0| == |lv|
    decreases cs, 0
  {
    if cs == [] then ([], carry)
    else
      assert cs decreases to cs[0];
      var n := Levels(cs[0].argp);
      var (first, c) := Advance(cs[0].argp, lv[..n], carry);
      var (rest, d) := AdvanceAll(cs[1..], lv[n..], c);
      (first + rest, d)
  }

  function Bit(b: bool): nat { if b then 1 else 0 }

  lemma Carry(v: nat, w: nat, c: nat, n: nat, carry: bool, out: bool)
    requires w + (if out then n else 0) == v + Bit(carry)
    ensures c * w + (if out then c * n else 0) == c * v + c * Bit(carry)
  {
    if out {
      assert c * (w + n) == c * w + c * n;
    }
    assert c * (v + Bit(carry)) == c * v + c * Bit(carry);
  }

  /** A call adds the carry to the number: it overflows exactly when it carries out. */
  lemma {:induction false} AdvanceAdds(a: Argp, lv: seq<nat>, carry: bool)
    requires InRange(a, lv)
    ensures var (mv, out) := Advance(a, lv, carry);
            InRange(a, mv) && Value(a, mv) + (if out then Count(a) else 0) == Value(a, lv) + Bit(carry)
    decreases a, 1
  {
    var l := lv[Own(a)..];
    AdvanceAllAdds(a.children, l, carry);
    var (rest, c) := AdvanceAll(a.children, l, carry);
    var (mv, out) := Advance(a, lv, carry);
    assert mv[Own(a)..] == rest;
    var weight := CountAll(a.children);
    if Multiple(a) && c {
      if lv[0] + 1 < Radix(a) {
        assert weight * (lv[0] + 1) == weight * lv[0] + weight;
      } else {
        assert weight * Radix(a) == weight * lv[0] + weight;
      }
    }
  }

  lemma {:induction false} AdvanceAllAdds(cs: seq<Child>, lv: seq<nat>, carry: bool)
    requires InRangeAll(cs, lv)
    ensures var (mv, out) := AdvanceAll(cs, lv, carry);
            InRangeAll(cs, mv) && ValueAll(cs, mv) + (if out then CountAll(cs) else 0) == ValueAll(cs, lv) + Bit(carry)
    decreases cs, 0
  {
    if cs != [] {
      assert cs decreases to cs[0];
      var n := Levels(cs[0].argp);
      AdvanceAdds(cs[0].argp, lv[..n], carry);
      var (first, c) := Advance(cs[0].argp, lv[..n], carry);
      AdvanceAllAdds(cs[1..], lv[n..], c);
      var (rest, out) := AdvanceAll(cs[1..], lv[n..], c);
      assert (first + rest)[..n] == first && (first + rest)[n..] == rest;
      Carry(ValueAll(cs[1..], lv[n..]), ValueAll(cs[1..], rest), Count(cs[0].argp), CountAll(cs[1..]), c, out);
    }
  }

  // ----- The code -----

  /** Levels are stored in `char`s: no argp has more than 128 alternative lines. */
  ghost predicate FitsChar(a: Argp) {
    Radix(a) <= 128 && forall c | c in a.children :: FitsChar(c.argp)
  }

  lemma {:induction false} LevelsFit(a: Argp, lv: seq<nat>)
    requires FitsChar(a) && InRange(a, lv)
    ensures forall i | 0 <= i < |lv| :: lv[i] <= 127
    decreases a, 1
  {
    LevelsFitAll(a.children, lv[Own(a)..]);
    assert forall i | Own(a) <= i < |lv| :: lv[i] == lv[Own(a)..][i - Own(a)];
  }

  lemma {:induction false} LevelsFitAll(cs: seq<Child>, lv: seq<nat>)
    requires (forall c | c in cs :: FitsChar(c.argp)) && InRangeAll(cs, lv)
    ensures forall i | 0 <= i < |lv| :: lv[i] <= 127
    decreases cs, 0
  {
    if cs != [] {
      assert cs decreases to cs[0];
      var n := Levels(cs[0].argp);
      LevelsFit(cs[0].argp, lv[..n]);
      LevelsFitAll(cs[1..], lv[n..]);
      assert lv == lv[..n] + lv[n..];
    }
  }

  /** What the children still have to do: LV are the levels from the cursor on. */
  ghost predicate Ahead(cs: seq<Child>, lv: seq<nat>) {
    InRangeAll(cs, lv) && forall c | c in cs :: WellDeclared(c.argp)
  }

  /** State of the loop over the children: DONE are the new levels of the children passed, AHEAD
      the old levels of those to come. */
  ghost predicate Passed(cs: seq<Child>, lv: seq<nat>, advance: bool, i: nat, done: seq<nat>, ahead: seq<nat>, carry: bool, out: seq<CStr>) {
    && i <= |cs| && Ahead(cs, lv) && Ahead(cs[i..], ahead)
    && PatternAll(cs, lv) == out + PatternAll(cs[i..], ahead)
    && AdvanceAll(cs, lv, advance) == (done + AdvanceAll(cs[i..], ahead, carry).0, AdvanceAll(cs[i..], ahead, carry).1)
  }

  lemma PassedStarts(cs: seq<Child>, lv: seq<nat>, advance: bool)
    requires Ahead(cs, lv)
    ensures Passed(cs, lv, advance, 0, [], lv, advance, [])
  {
    assert cs[0..] == cs;
    assert [] + PatternAll(cs, lv) == PatternAll(cs, lv);
    assert [] + AdvanceAll(cs, lv, advance).0 == AdvanceAll(cs, lv, advance).0;
  }

  lemma PassedReady(cs: seq<Child>, lv: seq<nat>, advance: bool, i: nat, done: seq<nat>, ahead: seq<nat>, carry: bool, out: seq<CStr>)
    requires Passed(cs, lv, advance, i, done, ahead, carry, out) && i < |cs|
    ensures Levels(cs[i].argp) <= |ahead| && InRange(cs[i].argp, ahead[..Levels(cs[i].argp)]) && WellDeclared(cs[i].argp)
  {
    assert cs[i] in cs[i..] && cs[i..][0] == cs[i];
  }

  lemma PassedNext(cs: seq<Child>, lv: seq<nat>, advance: bool, i: nat, done: seq<nat>, ahead: seq<nat>, carry: bool, out: seq<CStr>)
    requires Passed(cs, lv, advance, i, done, ahead, carry, out) && i < |cs|
    ensures var n := Levels(cs[i].argp);
            && n <= |ahead| && InRange(cs[i].argp, ahead[..n]) && WellDeclared(cs[i].argp)
            && var r := Advance(cs[i].argp, ahead[..n], carry);
               Passed(cs, lv, advance, i + 1, done + r.0, ahead[n..], r.1, out + Pattern(cs[i].argp, ahead[..n]))
  {
    PassedReady(cs, lv, advance, i, done, ahead, carry, out);
    var n, rest := Levels(cs[i].argp), cs[i..];
    var r := Advance(cs[i].argp, ahead[..n], carry);
    assert rest[1..] == cs[i + 1..];
    var s := AdvanceAll(rest[1..], ahead[n..], r.1);
    assert AdvanceAll(rest, ahead, carry) == (r.0 + s.0, s.1);
    assert done + (r.0 + s.0) == (done + r.0) + s.0;
    var p, q := Pattern(cs[i].argp, ahead[..n]), PatternAll(rest[1..], ahead[n..]);
    assert PatternAll(rest, ahead) == p + q;
    assert out + (p + q) == (out + p) + q;
  }

  lemma PassedAll(cs: seq<Child>, lv: seq<nat>, advance: bool, done: seq<nat>, ahead: seq<nat>, carry: bool, out: seq<CStr>)
    requires Passed(cs, lv, advance, |cs|, done, ahead, carry, out)
    ensures ahead == [] && PatternAll(cs, lv) == out && AdvanceAll(cs, lv, advance) == (done, carry)
  {
    assert cs[|cs|..] == [];
    assert done + [] == done && out + [] == out;
  }

  /** The array holds PRE, the levels already advanced, those still ahead, and POST. */
  ghost predicate Layout(levels: seq<nat>, pre: seq<nat>, done: seq<nat>, ahead: seq<nat>, post: seq<nat>) {
    levels == pre + done + ahead + post
  }

  /** S with the part from position C on replaced by NEW. */
  function Splice(s: seq<nat>, c: nat, new_: seq<nat>): seq<nat>
    requires c + |new_| <= |s|
  {
    s[..c] + new_ + s[c + |new_|..]
  }

  lemma LayoutNext(levels: seq<nat>, pre: seq<nat>, done: seq<nat>, ahead: seq<nat>, post: seq<nat>, new_: seq<nat>)
    requires Layout(levels, pre, done, ahead, post) && |new_| <= |ahead|
    ensures Layout(Splice(levels, |pre| + |done|, new_), pre, done + new_, ahead[|new_|..], post)
  {
    var c, n := |pre| + |done|, |new_|;
    assert levels[..c] == pre + done && levels[c + n..] == ahead[n..] + post;
  }

  lemma LayoutSlice(levels: seq<nat>, pre: seq<nat>, done: seq<nat>, ahead: seq<nat>, post: seq<nat>, n: nat)
    requires Layout(levels, pre, done, ahead, post) && n <= |ahead|
    ensures var c := |pre| + |done|; c + n <= |levels| && levels[c..c + n] == ahead[..n]
  {}

  lemma LayoutEnds(levels: seq<nat>, pre: seq<nat>, done: seq<nat>, post: seq<nat>)
    requires Layout(levels, pre, done, [], post)
    ensures levels == pre + done + post
  {}

  /** One child of the loop over the children: its levels move from AHEAD to DONE. */
  method ArgsUsageChild(a: Argp, i: nat, levels: array<nat>, cursor: nat, carry: bool, ghost lv: seq<nat>,
                        ghost new_: seq<nat>, ghost pre: seq<nat>, ghost done: seq<nat>, ghost ahead: seq<nat>, ghost post: seq<nat>)
    returns (cursor': nat, carry': bool, printed: seq<CStr>)
    requires i < |a.children| && cursor == |pre| + |done| && Layout(levels[..], pre, done, ahead, post)
    requires WellDeclared(a.children[i].argp) && InRange(a.children[i].argp, lv) && lv <= ahead
    requires new_ == Advance(a.children[i].argp, lv, carry).0
    modifies levels
    ensures cursor' == |pre| + |done + new_| && Layout(levels[..], pre, done + new_, ahead[|lv|..], post)
    ensures carry' == Advance(a.children[i].argp, lv, carry).1 && printed == Pattern(a.children[i].argp, lv)
    decreases a, 0
  {
    ghost var before := levels[..];
    var child := a.children[i].argp;
    assert |lv| == |new_| == Levels(child);
    LayoutSlice(before, pre, done, ahead, post, |lv|);
    LayoutNext(before, pre, done, ahead, post, new_);
    var more;
    cursor', more, printed := ArgsUsage(child, levels, cursor, carry, lv);
    carry' := !more;
  }

  /** The loop over the children. */
  method ArgsUsageAll(a: Argp, levels: array<nat>, cursor: nat, advance: bool, ghost lv: seq<nat>)
    returns (cursor': nat, carry: bool, out: seq<CStr>)
    requires cursor + LevelsAll(a.children) <= levels.Length && lv == levels[cursor..cursor + LevelsAll(a.children)]
    requires Ahead(a.children, lv)
    modifies levels
    ensures cursor' == cursor + LevelsAll(a.children) && out == PatternAll(a.children, lv)
    ensures carry == AdvanceAll(a.children, lv, advance).1
    ensures levels[..] == Splice(old(levels[..]), cursor, AdvanceAll(a.children, lv, advance).0)
    decreases a, 1
  {
    ghost var cs := a.children;
    ghost var pre, post, done, ahead := levels[..cursor], levels[cursor + LevelsAll(cs)..], [], lv;
    cursor', carry, out := cursor, advance, [];
    var i := 0;
    PassedStarts(cs, lv, advance);
    assert Layout(levels[..], pre, done, ahead, post);
    while i < |a.children|
      invariant 0 <= i <= |cs| && cursor' == |pre| + |done|
      invariant Layout(levels[..], pre, done, ahead, post)
      invariant Passed(cs, lv, advance, i, done, ahead, carry, out)
    {
      PassedNext(cs, lv, advance, i, done, ahead, carry, out);
      ghost var n := Levels(cs[i].argp);
      ghost var r := Advance(cs[i].argp, ahead[..n], carry);
      var printed;
      cursor', carry, printed := ArgsUsageChild(a, i, levels, cursor', carry, ahead[..n], r.0, pre, done, ahead, post);
      done, ahead, out := done + r.0, ahead[n..], out + printed;
      i := i + 1;
    }
    PassedAll(cs, lv, advance, done, ahead, carry, out);
    LayoutEnds(levels[..], pre, done, post);
  }

  /** `argp_args_usage`: prints the selected lines and, when asked to advance, moves on to the
      next combination; MORE is false once the combinations are used up. */
  method ArgsUsage(a: Argp, levels: array<nat>, cursor: nat, advance: bool, ghost lv: seq<nat>)
    returns (cursor': nat, more: bool, out: seq<CStr>)
    requires WellDeclared(a) && cursor + Levels(a) <= levels.Length
    requires lv == levels[cursor..cursor + Levels(a)] && InRange(a, lv)
    modifies levels
    ensures cursor' == cursor + Levels(a) && out == Pattern(a, lv)
    ensures more == !Advance(a, lv, advance).1
    ensures levels[..] == Splice(old(levels[..]), cursor, Advance(a, lv, advance).0)
    decreases a, 3
  {
    var printed;
    if !Multiple(a) {
      assert lv[0..] == lv;
      var carry;
      cursor', carry, printed := ArgsUsageAll(a, levels, cursor, advance, lv);
      more := !carry;
      out := (if a.argsDoc.None? then [] else [a.argsDoc.value[0]]) + printed;
    } else {
      cursor', more, out := ArgsUsageMultiple(a, levels, cursor, advance, lv);
    }
  }

  /** The case of several alternative lines, selected by the level at the cursor. */
  method ArgsUsageMultiple(a: Argp, levels: array<nat>, cursor: nat, advance: bool, ghost lv: seq<nat>)
    returns (cursor': nat, more: bool, out: seq<CStr>)
    requires Multiple(a) && WellDeclared(a) && cursor + Levels(a) <= levels.Length
    requires lv == levels[cursor..cursor + Levels(a)] && InRange(a, lv)
    modifies levels
    ensures cursor' == cursor + Levels(a) && out == Pattern(a, lv)
    ensures more == !Advance(a, lv, advance).1
    ensures levels[..] == Splice(old(levels[..]), cursor, Advance(a, lv, advance).0)
    decreases a, 2
  {
    var line := levels[cursor];
    assert line == lv[0] && levels[cursor + 1..cursor + 1 + LevelsAll(a.children)] == lv[1..];
    var carry, printed;
    cursor', carry, printed := ArgsUsageAll(a, levels, cursor + 1, advance, lv[1..]);
    ghost var before, rest := old(levels[..]), AdvanceAll(a.children, lv[1..], advance).0;
    assert levels[..][cursor] == line;
    out := [a.argsDoc.value[line]] + printed;
    if carry {
      if line + 1 < |a.argsDoc.value| {
        levels[cursor] := line + 1;
        carry := false;
      } else if line > 0 {
        levels[cursor] := 0;
      }
    }
    more := !carry;
    SpliceOne(before, cursor, levels[cursor], rest);
  }

  lemma SpliceOne(s: seq<nat>, c: nat, x: nat, rest: seq<nat>)
    requires c + 1 + |rest| <= |s|
    ensures Splice(s, c + 1, rest)[c := x] == Splice(s, c, [x] + rest)
  {}

  // ----- The loop of _help -----

  ghost predicate Zero(lv: seq<nat>) { forall i | 0 <= i < |lv| :: lv[i] == 0 }

  lemma {:induction false} ZeroIsFirst(a: Argp, lv: seq<nat>)
    requires |lv| == Levels(a) && Zero(lv)
    ensures InRange(a, lv) && Value(a, lv) == 0
    decreases a, 1
  {
    ZeroIsFirstAll(a.children, lv[Own(a)..]);
  }

  lemma {:induction false} ZeroIsFirstAll(cs: seq<Child>, lv: seq<nat>)
    requires |lv| == LevelsAll(cs) && Zero(lv)
    ensures InRangeAll(cs, lv) && ValueAll(cs, lv) == 0
    decreases cs, 0
  {
    if cs != [] {
      assert cs decreases to cs[0];
      var n := Levels(cs[0].argp);
      ZeroIsFirst(cs[0].argp, lv[..n]);
      ZeroIsFirstAll(cs[1..], lv[n..]);
    }
  }

  lemma OnlyZeroIsFirst(a: Argp, lv: seq<nat>)
    requires InRange(a, lv) && Value(a, lv) == 0
    ensures Zero(lv)
  {
    var zero := seq(|lv|, _ => 0);
    ZeroIsFirst(a, zero);
    ValueInjective(a, lv, zero);
  }

  /** LINES[v] was printed for the combination VECTORS[v], which has number v. */
  ghost predicate Printed(a: Argp, lines: seq<seq<CStr>>, vectors: seq<seq<nat>>)
    requires WellDeclared(a)
  {
    |vectors| == |lines| && forall v | 0 <= v < |lines| :: PrintedAt(a, lines[v], vectors[v], v)
  }

  ghost predicate PrintedAt(a: Argp, line: seq<CStr>, lv: seq<nat>, v: nat)
    requires WellDeclared(a)
  {
    InRange(a, lv) && Value(a, lv) == v && line == Pattern(a, lv)
  }

  /** Every combination is printed, exactly once, at its own place. */
  lemma EachCombinationOnce(a: Argp, lines: seq<seq<CStr>>, vectors: seq<seq<nat>>, lv: seq<nat>)
    requires WellDeclared(a) && Printed(a, lines, vectors) && |lines| == Count(a) && InRange(a, lv)
    ensures Value(a, lv) < |lines| && lines[Value(a, lv)] == Pattern(a, lv)
    ensures forall v | 0 <= v < |vectors| :: vectors[v] == lv <==> v == Value(a, lv)
  {
    ValueBelowCount(a, lv);
    forall v | 0 <= v < |vectors|
      ensures vectors[v] == lv <==> v == Value(a, lv)
    {
      assert PrintedAt(a, lines[v], vectors[v], v);
      if v == Value(a, lv) {
        ValueInjective(a, vectors[v], lv);
      }
    }
  }

  /** The do-while loop: it starts and ends with all levels zero and prints as many lines as
      there are combinations. */
  method PrintUsage(a: Argp, levels: array<nat>) returns (lines: seq<seq<CStr>>, ghost vectors: seq<seq<nat>>)
    requires WellDeclared(a) && levels.Length == Levels(a) && Zero(levels[..])
    modifies levels
    ensures |lines| == Count(a) && Printed(a, lines, vectors)
    ensures Zero(levels[..])
  {
    lines, vectors := [], [];
    ZeroIsFirst(a, levels[..]);
    ValueBelowCount(a, levels[..]);
    var more := true;
    while more
      invariant InRange(a, levels[..]) && Printed(a, lines, vectors)
      invariant if more then Value(a, levels[..]) == |lines| < Count(a) else |lines| == Count(a) && Value(a, levels[..]) == 0
      decreases Count(a) - |lines|, more
    {
      var out;
      out, more, vectors := PrintOne(a, levels, lines, vectors);
      lines := lines + [out];
    }
    OnlyZeroIsFirst(a, levels[..]);
  }

  method PrintOne(a: Argp, levels: array<nat>, ghost lines: seq<seq<CStr>>, ghost vectors: seq<seq<nat>>)
    returns (out: seq<CStr>, more: bool, ghost vectors': seq<seq<nat>>)
    requires WellDeclared(a) && levels.Length == Levels(a) && InRange(a, levels[..])
    requires Printed(a, lines, vectors) && Value(a, levels[..]) == |lines| < Count(a)
    modifies levels
    ensures InRange(a, levels[..]) && Printed(a, lines + [out], vectors')
    ensures if more then Value(a, levels[..]) == |lines| + 1 < Count(a) else |lines| + 1 == Count(a) && Value(a, levels[..]) == 0
  {
    ghost var lv := levels[..];
    assert levels[0..0 + Levels(a)] == lv;
    AdvanceAdds(a, lv, true);
    var cursor;
    cursor, more, out := ArgsUsage(a, levels, 0, true, lv);
    assert levels[..] == Advance(a, lv, true).0;
    vectors' := vectors + [lv];
    ValueBelowCount(a, levels[..]);
    PrintedNext(a, lines, vectors, out, lv);
  }

  lemma PrintedNext(a: Argp, lines: seq<seq<CStr>>, vectors: seq<seq<nat>>, out: seq<CStr>, lv: seq<nat>)
    requires WellDeclared(a) && Printed(a, lines, vectors) && PrintedAt(a, out, lv, |lines|)
    ensures Printed(a, lines + [out], vectors + [lv])
  {
    forall v | 0 <= v < |lines + [out]|
      ensures PrintedAt(a, (lines + [out])[v], (vectors + [lv])[v], v)
    {
      if v < |lines| {
        assert PrintedAt(a, lines[v], vectors[v], v);
      }
    }
  }
}
