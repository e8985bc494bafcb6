/** What the alternative usage lines contain, read off the argument documentation of the tree: one
    line of every documented argp, in preorder, in every possible combination. */
module UsageLaws {
  import opened ArgpTypes
  import opened UsagePatterns

  // ----- The documented argps of a tree -----

  /** The argument lines of every argp that has some, in preorder. */
  function Docs(a: Argp): seq<seq<CStr>>
    decreases a, 1
  {
    OwnDoc(a) + DocsAll(a.children)
  }

  function OwnDoc(a: Argp): seq<seq<CStr>> { if a.argsDoc.Some? then [a.argsDoc.value] else [] }

  function DocsAll(cs: seq<Child>): seq<seq<CStr>>
    decreases cs, 0
  {
    if cs == [] then []
    else
      assert cs decreases to cs[0];
      Docs(cs[0].argp) + DocsAll(cs[1..])
  }

  /** How many of the first I have alternatives. */
  function Before(ds: seq<seq<CStr>>, i: nat): nat
    requires i <= |ds|
  {
    if i == 0 then 0 else Before(ds, i - 1) + if |ds[i - 1]| > 1 then 1 else 0
  }

  function At(lv: seq<nat>, k: nat): nat { if k < |lv| then lv[k] else 0 }

  /** The line of the I-th documented argp that the levels select: its own level counts if it has
      alternatives, else it has but one line. */
  function LineOf(ds: seq<seq<CStr>>, lv: seq<nat>, i: nat): nat
    requires i < |ds|
  {
    if |ds[i]| > 1 then At(lv, Before(ds, i)) else 0
  }

  predicate Exists(ds: seq<seq<CStr>>, lv: seq<nat>, i: nat)
    requires i < |ds|
  {
    LineOf(ds, lv, i) < |ds[i]|
  }

  /** One level for each argp with alternatives, and every level selects an existing line. */
  ghost predicate Fit(ds: seq<seq<CStr>>, lv: seq<nat>) {
    |lv| == Before(ds, |ds|) && forall i: nat | i < |ds| :: Exists(ds, lv, i)
  }

  /** The number of ways to choose a line of each. */
  function Ways(ds: seq<seq<CStr>>): nat {
    if ds == [] then 1 else Ways(ds[..|ds| - 1]) * |ds[|ds| - 1]|
  }

  // ----- Concatenation -----

  lemma {:induction false} BeforeFirst(ds: seq<seq<CStr>>, es: seq<seq<CStr>>, i: nat)
    requires i <= |ds|
    ensures Before(ds + es, i) == Before(ds, i)
  {
    if i > 0 {
      BeforeFirst(ds, es, i - 1);
      assert (ds + es)[i - 1] == ds[i - 1];
    }
  }

  lemma {:induction false} BeforeRest(ds: seq<seq<CStr>>, es: seq<seq<CStr>>, k: nat)
    requires k <= |es|
    ensures Before(ds + es, |ds| + k) == Before(ds, |ds|) + Before(es, k)
  {
    if k == 0 {
      BeforeFirst(ds, es, |ds|);
    } else {
      BeforeRest(ds, es, k - 1);
      assert (ds + es)[|ds| + k - 1] == es[k - 1];
    }
  }

  lemma {:induction false} BeforeGrows(ds: seq<seq<CStr>>, i: nat, j: nat)
    requires i <= j <= |ds|
    ensures Before(ds, i) <= Before(ds, j)
  {
    if i < j {
      BeforeGrows(ds, i, j - 1);
    }
  }

  lemma {:induction false} LineAppend(ds: seq<seq<CStr>>, es: seq<seq<CStr>>, lv: seq<nat>, mv: seq<nat>, i: nat)
    requires i < |ds + es| && |lv| == Before(ds, |ds|)
    ensures LineOf(ds + es, lv + mv, i) == if i < |ds| then LineOf(ds, lv, i) else LineOf(es, mv, i - |ds|)
  {
    if i < |ds| {
      BeforeFirst(ds, es, i);
      if |ds[i]| > 1 {
        BeforeGrows(ds, i + 1, |ds|);
      }
    } else {
      BeforeRest(ds, es, i - |ds|);
    }
  }

  lemma {:induction false} ExistsAppend(ds: seq<seq<CStr>>, es: seq<seq<CStr>>, lv: seq<nat>, mv: seq<nat>, i: nat, all: seq<seq<CStr>>, both: seq<nat>)
    requires all == ds + es && both == lv + mv && i < |all| && |lv| == Before(ds, |ds|)
    ensures Exists(all, both, i) <==> if i < |ds| then Exists(ds, lv, i) else Exists(es, mv, i - |ds|)
  {
    LineAppend(ds, es, lv, mv, i);
  }

  /** Levels fit a concatenation when its parts fit. */
  lemma {:induction false} FitAppend(ds: seq<seq<CStr>>, es: seq<seq<CStr>>, lv: seq<nat>, mv: seq<nat>, all: seq<seq<CStr>>, both: seq<nat>)
    requires all == ds + es && both == lv + mv && |lv| == Before(ds, |ds|)
    ensures Fit(all, both) <==> Fit(ds, lv) && Fit(es, mv)
  {
    BeforeAll(ds, es, all, |all|);
    assert |both| == |lv| + |mv|;
    if Fit(all, both) {
      FitParts(ds, es, lv, mv, all, both);
    } else if Fit(ds, lv) && Fit(es, mv) {
      FitTogether(ds, es, lv, mv, all, both);
    }
  }

  lemma {:induction false} BeforeAll(ds: seq<seq<CStr>>, es: seq<seq<CStr>>, all: seq<seq<CStr>>, n: nat)
    requires all == ds + es && n == |all|
    ensures Before(all, n) == Before(ds, |ds|) + Before(es, |es|)
  {
    var k := |es|;
    assert n == |ds| + k;
    BeforeRest(ds, es, k);
  }

  lemma {:induction false} FitTogether(ds: seq<seq<CStr>>, es: seq<seq<CStr>>, lv: seq<nat>, mv: seq<nat>, all: seq<seq<CStr>>, both: seq<nat>)
    requires all == ds + es && both == lv + mv && |both| == Before(all, |all|) && Fit(ds, lv) && Fit(es, mv)
    ensures Fit(all, both)
  {
    forall i: nat | i < |all|
      ensures Exists(all, both, i)
    {
      ExistsAppend(ds, es, lv, mv, i, all, both);
    }
  }

  lemma {:induction false} FitParts(ds: seq<seq<CStr>>, es: seq<seq<CStr>>, lv: seq<nat>, mv: seq<nat>, all: seq<seq<CStr>>, both: seq<nat>)
    requires all == ds + es && both == lv + mv && |lv| == Before(ds, |ds|) && |mv| == Before(es, |es|) && Fit(all, both)
    ensures Fit(ds, lv) && Fit(es, mv)
  {
    forall i: nat | i < |ds|
      ensures Exists(ds, lv, i)
    {
      FirstExists(ds, es, lv, mv, i, all, both);
    }
    forall i: nat | i < |es|
      ensures Exists(es, mv, i)
    {
      RestExists(ds, es, lv, mv, i, all, both);
    }
  }

  lemma {:induction false} FirstExists(ds: seq<seq<CStr>>, es: seq<seq<CStr>>, lv: seq<nat>, mv: seq<nat>, i: nat, all: seq<seq<CStr>>, both: seq<nat>)
    requires all == ds + es && both == lv + mv && |lv| == Before(ds, |ds|) && Fit(all, both) && i < |ds|
    ensures Exists(ds, lv, i)
  {
    assert Exists(all, both, i);
    ExistsAppend(ds, es, lv, mv, i, all, both);
  }

  lemma {:induction false} RestExists(ds: seq<seq<CStr>>, es: seq<seq<CStr>>, lv: seq<nat>, mv: seq<nat>, i: nat, all: seq<seq<CStr>>, both: seq<nat>)
    requires all == ds + es && both == lv + mv && |lv| == Before(ds, |ds|) && Fit(all, both) && i < |es|
    ensures Exists(es, mv, i)
  {
    var k := |ds| + i;
    assert Exists(all, both, k);
    ExistsAppend(ds, es, lv, mv, k, all, both);
  }

  lemma {:induction false} WaysAppend(ds: seq<seq<CStr>>, es: seq<seq<CStr>>)
    ensures Ways(ds + es) == Ways(ds) * Ways(es)
  {
    if es == [] {
      assert ds + es == ds;
    } else {
      var n := |es| - 1;
      WaysAppend(ds, es[..n]);
      assert (ds + es)[..|ds + es| - 1] == ds + es[..n];
      assert Ways(ds) * Ways(es[..n]) * |es[n]| == Ways(ds) * (Ways(es[..n]) * |es[n]|);
    }
  }

  // ----- Levels, combinations and lines of a tree -----

  lemma {:induction false} LevelsAreAlternatives(a: Argp)
    ensures Levels(a) == Before(Docs(a), |Docs(a)|)
    decreases a, 1
  {
    var own := OwnDoc(a);
    LevelsAreAlternativesAll(a.children);
    BeforeRest(own, DocsAll(a.children), |DocsAll(a.children)|);
    assert Before(own, |own|) == Own(a);
  }

  lemma {:induction false} LevelsAreAlternativesAll(cs: seq<Child>)
    ensures LevelsAll(cs) == Before(DocsAll(cs), |DocsAll(cs)|)
    decreases cs, 0
  {
    if cs != [] {
      assert cs decreases to cs[0];
      LevelsAreAlternatives(cs[0].argp);
      LevelsAreAlternativesAll(cs[1..]);
      BeforeRest(Docs(cs[0].argp), DocsAll(cs[1..]), |DocsAll(cs[1..])|);
    }
  }

  /** The vectors that the code enumerates are those that select an existing line of every
      documented argp. */
  lemma {:induction false} InRangeIsFit(a: Argp, lv: seq<nat>)
    requires WellDeclared(a)
    ensures InRange(a, lv) <==> Fit(Docs(a), lv)
    decreases a, 1
  {
    LevelsAreAlternatives(a);
    if |lv| == Levels(a) {
      var own, l, m := OwnDoc(a), lv[..Own(a)], lv[Own(a)..];
      InRangeIsFitAll(a.children, m);
      OwnFits(a, l);
      FitAppend(own, DocsAll(a.children), l, m, Docs(a), lv);
    }
  }

  lemma OwnFits(a: Argp, l: seq<nat>)
    requires WellDeclared(a) && |l| == Own(a)
    ensures |l| == Before(OwnDoc(a), |OwnDoc(a)|) && (Fit(OwnDoc(a), l) <==> (Multiple(a) ==> l[0] < Radix(a)))
  {
    var own := OwnDoc(a);
    assert own != [] ==> Before(own, 1) == Before(own, 0) + Own(a);
    if own != [] {
      assert Fit(own, l) <==> Exists(own, l, 0);
    }
  }

  lemma {:induction false} InRangeIsFitAll(cs: seq<Child>, lv: seq<nat>)
    requires forall c | c in cs :: WellDeclared(c.argp)
    ensures InRangeAll(cs, lv) <==> Fit(DocsAll(cs), lv)
    decreases cs, 0
  {
    LevelsAreAlternativesAll(cs);
    if cs != [] && |lv| == LevelsAll(cs) {
      assert cs decreases to cs[0];
      var n := Levels(cs[0].argp);
      LevelsAreAlternatives(cs[0].argp);
      InRangeIsFit(cs[0].argp, lv[..n]);
      InRangeIsFitAll(cs[1..], lv[n..]);
      FitAppend(Docs(cs[0].argp), DocsAll(cs[1..]), lv[..n], lv[n..], DocsAll(cs), lv);
    }
  }

  /** There are as many combinations as ways to choose a line of every documented argp. */
  lemma {:induction false} CountIsWays(a: Argp)
    requires WellDeclared(a)
    ensures Count(a) == Ways(Docs(a))
    decreases a, 1
  {
    CountIsWaysAll(a.children);
    WaysAppend(OwnDoc(a), DocsAll(a.children));
    OwnWays(a);
    Commute(Radix(a), CountAll(a.children));
  }

  lemma OwnWays(a: Argp)
    requires a.argsDoc.Some? ==> a.argsDoc.value != []
    ensures Ways(OwnDoc(a)) == Radix(a)
  {
    if a.argsDoc.Some? {
      assert OwnDoc(a)[..0] == [];
      assert Ways(OwnDoc(a)) == Ways([]) * |a.argsDoc.value|;
    }
  }

  lemma Commute(x: nat, y: nat)
    ensures x * y == y * x
  {}

  lemma {:induction false} CountIsWaysAll(cs: seq<Child>)
    requires forall c | c in cs :: WellDeclared(c.argp)
    ensures CountAll(cs) == Ways(DocsAll(cs))
    decreases cs, 0
  {
    if cs != [] {
      assert cs decreases to cs[0];
      CountIsWays(cs[0].argp);
      CountIsWaysAll(cs[1..]);
      WaysAppend(Docs(cs[0].argp), DocsAll(cs[1..]));
    }
  }

  /** OUT has one line for each documented argp, the one that the levels select. */
  ghost predicate Selected(ds: seq<seq<CStr>>, lv: seq<nat>, out: seq<CStr>) {
    |out| == |ds| && forall i: nat | i < |ds| :: SelectedAt(ds, lv, out[i], i)
  }

  predicate SelectedAt(ds: seq<seq<CStr>>, lv: seq<nat>, line: CStr, i: nat)
    requires i < |ds|
  {
    Exists(ds, lv, i) && line == ds[i][LineOf(ds, lv, i)]
  }

  lemma {:induction false} SelectedAppend(ds: seq<seq<CStr>>, es: seq<seq<CStr>>, lv: seq<nat>, mv: seq<nat>, out: seq<CStr>, more: seq<CStr>,
                       all: seq<seq<CStr>>, both: seq<nat>)
    requires all == ds + es && both == lv + mv && |lv| == Before(ds, |ds|) && Selected(ds, lv, out) && Selected(es, mv, more)
    ensures Selected(all, both, out + more)
  {
    forall i: nat | i < |all|
      ensures SelectedAt(all, both, (out + more)[i], i)
    {
      LineAppend(ds, es, lv, mv, i);
      if i < |ds| {
        assert SelectedAt(ds, lv, out[i], i);
      } else {
        assert SelectedAt(es, mv, more[i - |ds|], i - |ds|);
      }
    }
  }

  /** A usage line has as many parts as there are documented argps; the I-th part is the line that
      its own level selects. */
  lemma {:induction false} PatternSelects(a: Argp, lv: seq<nat>)
    requires WellDeclared(a) && InRange(a, lv)
    ensures Selected(Docs(a), lv, Pattern(a, lv))
    decreases a, 1
  {
    var own, l, m := OwnDoc(a), lv[..Own(a)], lv[Own(a)..];
    var line := if a.argsDoc.None? then [] else [a.argsDoc.value[Digit(a, lv)]];
    PatternSelectsAll(a.children, m);
    OwnFits(a, l);
    assert Selected(own, l, line) by {
      if own != [] {
        assert LineOf(own, l, 0) == Digit(a, lv);
      }
    }
    SelectedAppend(own, DocsAll(a.children), l, m, line, PatternAll(a.children, m), Docs(a), lv);
  }

  lemma {:induction false} PatternSelectsAll(cs: seq<Child>, lv: seq<nat>)
    requires InRangeAll(cs, lv) && forall c | c in cs :: WellDeclared(c.argp)
    ensures Selected(DocsAll(cs), lv, PatternAll(cs, lv))
    decreases cs, 0
  {
    if cs != [] {
      assert cs decreases to cs[0];
      var n := Levels(cs[0].argp);
      LevelsAreAlternatives(cs[0].argp);
      PatternSelects(cs[0].argp, lv[..n]);
      PatternSelectsAll(cs[1..], lv[n..]);
      SelectedAppend(Docs(cs[0].argp), DocsAll(cs[1..]), lv[..n], lv[n..], Pattern(cs[0].argp, lv[..n]), PatternAll(cs[1..], lv[n..]),
                     DocsAll(cs), lv);
    }
  }

  // ----- Every choice -----

  /** A choice of one line of every documented argp. */
  ghost predicate Choice(ds: seq<seq<CStr>>, f: seq<nat>) { |f| == |ds| && forall i: nat | i < |ds| :: f[i] < |ds[i]| }

  /** The levels of a choice. */
  function LevelsOf(ds: seq<seq<CStr>>, f: seq<nat>, n: nat): (lv: seq<nat>)
    requires n <= |ds| == |f|
    ensures |lv| == Before(ds, n)
  {
    if n == 0 then [] else LevelsOf(ds, f, n - 1) + if |ds[n - 1]| > 1 then [f[n - 1]] else []
  }

  lemma {:induction false} LevelsOfAt(ds: seq<seq<CStr>>, f: seq<nat>, n: nat, i: nat)
    requires Choice(ds, f) && i < n <= |ds|
    ensures LineOf(ds, LevelsOf(ds, f, n), i) == f[i]
  {
    if i < n - 1 {
      LevelsOfAt(ds, f, n - 1, i);
      if |ds[i]| > 1 {
        BeforeGrows(ds, i + 1, n - 1);
      }
    }
  }

  /** Whatever lines one chooses, one of every documented argp: that usage line is printed. */
  lemma EveryChoicePrinted(a: Argp, lines: seq<seq<CStr>>, vectors: seq<seq<nat>>, f: seq<nat>) returns (v: nat)
    requires WellDeclared(a) && Printed(a, lines, vectors) && |lines| == Count(a) && Choice(Docs(a), f)
    ensures v < |lines| && |lines[v]| == |f| && forall i: nat | i < |f| :: lines[v][i] == Docs(a)[i][f[i]]
  {
    var ds := Docs(a);
    var lv := LevelsOf(ds, f, |ds|);
    forall i: nat | i < |ds|
      ensures LineOf(ds, lv, i) == f[i] && Exists(ds, lv, i)
    {
      LevelsOfAt(ds, f, |ds|, i);
    }
    InRangeIsFit(a, lv);
    EachCombinationOnce(a, lines, vectors, lv);
    PatternSelects(a, lv);
    v := Value(a, lv);
    forall i: nat | i < |f|
      ensures lines[v][i] == ds[i][f[i]]
    {
      assert SelectedAt(ds, lv, lines[v][i], i);
    }
  }

  // ----- The order of the lines -----

  /** Combination LV is printed before MV: the argp's own line changes last of all, and of the
      children the first one's fastest. */
  predicate Sooner(a: Argp, lv: seq<nat>, mv: seq<nat>)
    requires |lv| == |mv| == Levels(a)
    decreases a, 1
  {
    if Multiple(a) && lv[0] != mv[0] then lv[0] < mv[0] else SoonerAll(a.children, lv[Own(a)..], mv[Own(a)..])
  }

  predicate SoonerAll(cs: seq<Child>, lv: seq<nat>, mv: seq<nat>)
    requires |lv| == |mv| == LevelsAll(cs)
    decreases cs, 0
  {
    cs != [] &&
    (assert cs decreases to cs[0];
     var n := Levels(cs[0].argp);
     SoonerAll(cs[1..], lv[n..], mv[n..]) || (lv[n..] == mv[n..] && Sooner(cs[0].argp, lv[..n], mv[..n])))
  }

  lemma DigitDecides(r: nat, c: nat, d: nat, r': nat, d': nat)
    requires r < c && r' < c
    ensures r + c * d < r' + c * d' <==> d < d' || (d == d' && r < r')
  {
    if d < d' {
      Weight(c, d, d');
    } else if d' < d {
      Weight(c, d', d);
    }
  }

  /** The numbering of the lines follows that order. */
  lemma {:induction false} LinesInOrder(a: Argp, lv: seq<nat>, mv: seq<nat>)
    requires InRange(a, lv) && InRange(a, mv)
    ensures Value(a, lv) < Value(a, mv) <==> Sooner(a, lv, mv)
    decreases a, 1
  {
    var l, m := lv[Own(a)..], mv[Own(a)..];
    LinesInOrderAll(a.children, l, m);
    ValueBelowCountAll(a.children, l);
    ValueBelowCountAll(a.children, m);
    DigitDecides(ValueAll(a.children, l), CountAll(a.children), Digit(a, lv), ValueAll(a.children, m), Digit(a, mv));
  }

  lemma {:induction false} LinesInOrderAll(cs: seq<Child>, lv: seq<nat>, mv: seq<nat>)
    requires InRangeAll(cs, lv) && InRangeAll(cs, mv)
    ensures ValueAll(cs, lv) < ValueAll(cs, mv) <==> SoonerAll(cs, lv, mv)
    decreases cs, 0
  {
    if cs != [] {
      assert cs decreases to cs[0];
      var c, n := cs[0].argp, Levels(cs[0].argp);
      LinesInOrder(c, lv[..n], mv[..n]);
      LinesInOrderAll(cs[1..], lv[n..], mv[n..]);
      ValueBelowCount(c, lv[..n]);
      ValueBelowCount(c, mv[..n]);
      DigitDecides(Value(c, lv[..n]), Count(c), ValueAll(cs[1..], lv[n..]), Value(c, mv[..n]), ValueAll(cs[1..], mv[n..]));
      if ValueAll(cs[1..], lv[n..]) == ValueAll(cs[1..], mv[n..]) {
        ValueInjectiveAll(cs[1..], lv[n..], mv[n..]);
      }
    }
  }
}
