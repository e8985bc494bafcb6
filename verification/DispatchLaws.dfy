/** Where options lead, read off the declarations alone: the first argp of the tree to declare a
    name or a short key gets it, with the key and the argument kind declared there. */
module DispatchLaws {
  import opened Wrappers
  import opened ArgpTypes
  import opened PackedKeys
  import opened OptionTables
  import opened HelpLists
  import opened HelpTree
  import opened ParserTables
  import opened OptionDispatch
  import opened TreePlaces
  import opened GroupLaws

  // ----- Aliases -----

  /** Option K is the one that option I takes its values from: the nearest option up to I that is
      no alias, or the first of the list. */
  ghost predicate SourceOf(opts: seq<Opt>, i: nat, k: nat) {
    k <= i < |opts| && (k == 0 || !opts[k].alias) && forall j: nat | k < j <= i :: opts[j].alias
  }

  lemma {:induction false} RealIsSource(opts: seq<Opt>, i: nat) returns (k: nat)
    requires i < |opts|
    ensures SourceOf(opts, i, k) && RealAt(opts, i) == opts[k]
  {
    if i == 0 || !opts[i].alias {
      k := i;
    } else {
      k := RealIsSource(opts, i - 1);
    }
  }

  lemma OneSource(opts: seq<Opt>, i: nat, k: nat, k': nat)
    requires SourceOf(opts, i, k) && SourceOf(opts, i, k')
    ensures k == k'
  {}

  // ----- The first declaration of a tree -----

  /** Option I of a list, with the values of option K, is an option for getopt that is wanted. */
  ghost predicate Wanted(opts: seq<Opt>, i: nat, k: nat, w: Opt -> bool) { SourceOf(opts, i, k) && !opts[k].doc && w(opts[i]) }

  /** The same in the list of the argp at place P. */
  ghost predicate Declares(a: Argp, p: seq<nat>, i: nat, k: nat, w: Opt -> bool) {
    IsPlace(a, p) && Wanted(OptionsOrNone(ArgpAt(a, p)), i, k, w)
  }

  /** Option I at place P is met before option J at place Q. */
  predicate Earlier(p: seq<nat>, i: nat, q: seq<nat>, j: nat) { Before(p, q) || (p == q && i < j) }

  function First(ps: seq<Parsed>, w: Opt -> bool): Option<Parsed> {
    if ps == [] then None else if w(ps[0].opt) then Some(ps[0]) else First(ps[1..], w)
  }

  lemma {:induction false} FirstAppend(ps: seq<Parsed>, qs: seq<Parsed>, w: Opt -> bool)
    ensures First(ps + qs, w) == if First(ps, w).Some? then First(ps, w) else First(qs, w)
  {
    if ps == [] {
      assert ps + qs == qs;
    } else {
      assert (ps + qs)[1..] == ps[1..] + qs;
      FirstAppend(ps[1..], qs, w);
    }
  }

  lemma {:induction false} FirstOwn(opts: seq<Opt>, n: nat, owner: seq<nat>, w: Opt -> bool) returns (i: nat, k: nat)
    requires n <= |opts|
    ensures First(ParsedOwn(opts, n, owner), w).None? ==> forall j: nat, m: nat | j < n :: !Wanted(opts, j, m, w)
    ensures First(ParsedOwn(opts, n, owner), w).Some? ==>
              && i < n && Wanted(opts, i, k, w) && First(ParsedOwn(opts, n, owner), w) == Some(Parsed(opts[i], opts[k], owner))
              && forall j: nat, m: nat | Wanted(opts, j, m, w) :: j >= i
  {
    if n > 0 {
      i, k := FirstOwn(opts, n - 1, owner, w);
      var last := n - 1;
      var m := RealIsSource(opts, last);
      FirstAppend(ParsedOwn(opts, last, owner), ParsedOne(opts[last], opts[m], owner), w);
      forall m': nat | SourceOf(opts, last, m')
        ensures m' == m
      {
        OneSource(opts, last, m, m');
      }
      if First(ParsedOwn(opts, last, owner), w).None? {
        i, k := last, m;
      }
    } else {
      i, k := 0, 0;
    }
  }

  /** U is the first declaration that is wanted in the tree at AT: option I, with the values of
      option K, of the argp at place P. */
  ghost predicate FirstAt(a: Argp, at: seq<nat>, w: Opt -> bool, u: Parsed, p: seq<nat>, i: nat, k: nat) {
    && Declares(a, p, i, k, w)
    && u == Parsed(OptionsOrNone(ArgpAt(a, p))[i], OptionsOrNone(ArgpAt(a, p))[k], at + p)
    && forall q: seq<nat>, j: nat, m: nat | Declares(a, q, j, m, w) :: !Earlier(q, j, p, i)
  }

  ghost predicate NoneAt(a: Argp, w: Opt -> bool) { forall q: seq<nat>, j: nat, m: nat :: !Declares(a, q, j, m, w) }

  /** The same for the trees of a list of children, the first of which has number BASE. */
  ghost predicate FirstAmong(cs: seq<Child>, at: seq<nat>, base: nat, w: Opt -> bool, u: Parsed, c: nat, p: seq<nat>, i: nat, k: nat) {
    && c < |cs| && FirstAt(cs[c].argp, at + [base + c], w, u, p, i, k)
    && forall d: nat | d < c :: NoneAt(cs[d].argp, w)
  }

  ghost predicate NoneAmong(cs: seq<Child>, w: Opt -> bool) { forall d: nat | d < |cs| :: NoneAt(cs[d].argp, w) }

  lemma {:induction false} FirstOfTree(a: Argp, at: seq<nat>, w: Opt -> bool) returns (p: seq<nat>, i: nat, k: nat)
    ensures First(ParsedTree(a, at), w).None? ==> NoneAt(a, w)
    ensures First(ParsedTree(a, at), w).Some? ==> FirstAt(a, at, w, First(ParsedTree(a, at), w).value, p, i, k)
    decreases a, 1
  {
    FirstAppend(ParsedFrom(a, at), ParsedAll(a.children, at, 0), w);
    i, k := FirstOwn(OptionsOrNone(a), |OptionsOrNone(a)|, at, w);
    p := [];
    if First(ParsedFrom(a, at), w).Some? {
      OwnIsFirst(a, at, w, i, k);
    } else {
      var c, q, j, m := FirstOfTrees(a.children, at, 0, w);
      if First(ParsedAll(a.children, at, 0), w).Some? {
        BelowIsFirst(a, at, w, First(ParsedAll(a.children, at, 0), w).value, c, q, j, m);
        p, i, k := [c] + q, j, m;
      } else {
        NoneBelow(a, w);
      }
    }
  }

  lemma OwnIsFirst(a: Argp, at: seq<nat>, w: Opt -> bool, i: nat, k: nat)
    requires Wanted(OptionsOrNone(a), i, k, w) && forall j: nat, m: nat | Wanted(OptionsOrNone(a), j, m, w) :: j >= i
    ensures FirstAt(a, at, w, Parsed(OptionsOrNone(a)[i], OptionsOrNone(a)[k], at), [], i, k)
  {
    assert at + [] == at;
    assert Declares(a, [], i, k, w);
  }

  lemma NoneBelow(a: Argp, w: Opt -> bool)
    requires NoneAmong(a.children, w) && forall j: nat, m: nat :: !Wanted(OptionsOrNone(a), j, m, w)
    ensures NoneAt(a, w)
  {
    forall q: seq<nat>, j: nat, m: nat
      ensures !Declares(a, q, j, m, w)
    {
      if Declares(a, q, j, m, w) && q != [] {
        assert Declares(a.children[q[0]].argp, q[1..], j, m, w);
        assert false;
      }
    }
  }

  lemma BelowIsFirst(a: Argp, at: seq<nat>, w: Opt -> bool, u: Parsed, c: nat, p: seq<nat>, i: nat, k: nat)
    requires FirstAmong(a.children, at, 0, w, u, c, p, i, k) && forall j: nat, m: nat :: !Wanted(OptionsOrNone(a), j, m, w)
    ensures FirstAt(a, at, w, u, [c] + p, i, k)
  {
    var q := [c] + p;
    assert q[1..] == p && at + [0 + c] + p == at + q;
    assert Declares(a, q, i, k, w);
    forall r: seq<nat>, j: nat, m: nat | Declares(a, r, j, m, w)
      ensures !Earlier(r, j, q, i)
    {
      assert r != [];
      var d := r[0];
      assert Declares(a.children[d].argp, r[1..], j, m, w);
      if d < c {
        assert false;
      } else if d == c {
        assert !Earlier(r[1..], j, p, i);
        assert r == [c] + r[1..];
      }
    }
  }

  lemma {:induction false} FirstOfTrees(cs: seq<Child>, at: seq<nat>, base: nat, w: Opt -> bool) returns (c: nat, p: seq<nat>, i: nat, k: nat)
    ensures First(ParsedAll(cs, at, base), w).None? ==> NoneAmong(cs, w)
    ensures First(ParsedAll(cs, at, base), w).Some? ==>
              FirstAmong(cs, at, base, w, First(ParsedAll(cs, at, base), w).value, c, p, i, k)
    decreases cs, 0
  {
    c, p, i, k := 0, [], 0, 0;
    if cs != [] {
      assert cs decreases to cs[0];
      FirstAppend(ParsedTree(cs[0].argp, at + [base]), ParsedAll(cs[1..], at, base + 1), w);
      p, i, k := FirstOfTree(cs[0].argp, at + [base], w);
      if First(ParsedTree(cs[0].argp, at + [base]), w).None? {
        c, p, i, k := FirstOfTrees(cs[1..], at, base + 1, w);
        if First(ParsedAll(cs[1..], at, base + 1), w).Some? {
          AmongRest(cs, at, base, w, First(ParsedAll(cs, at, base), w).value, c, p, i, k);
          c := c + 1;
        } else {
          assert forall d: nat | 0 < d < |cs| :: cs[d] == cs[1..][d - 1];
        }
      }
    }
  }

  lemma AmongRest(cs: seq<Child>, at: seq<nat>, base: nat, w: Opt -> bool, u: Parsed, c: nat, p: seq<nat>, i: nat, k: nat)
    requires cs != [] && NoneAt(cs[0].argp, w) && FirstAmong(cs[1..], at, base + 1, w, u, c, p, i, k)
    ensures FirstAmong(cs, at, base, w, u, c + 1, p, i, k)
  {
    assert base + 1 + c == base + (c + 1);
    forall d: nat | d < c + 1
      ensures NoneAt(cs[d].argp, w)
    {
      if d > 0 {
        assert NoneAt(cs[1..][d - 1].argp, w);
      }
    }
  }

  // ----- Long and short options -----

  function ByName(name: CStr): Opt -> bool { (o: Opt) => o.name == Some(name) }

  function ByKey(key: int): Opt -> bool { (o: Opt) => o.IsShort() && o.key == key }

  /** No declaration that is wanted is met before option I at place P. */
  ghost predicate DeclaredFirst(a: Argp, p: seq<nat>, i: nat, k: nat, w: Opt -> bool) {
    Declares(a, p, i, k, w) && forall q: seq<nat>, j: nat, m: nat | Declares(a, q, j, m, w) :: !Earlier(q, j, p, i)
  }

  lemma OneFirst(a: Argp, w: Opt -> bool, p: seq<nat>, i: nat, k: nat, q: seq<nat>, j: nat, m: nat)
    requires DeclaredFirst(a, p, i, k, w) && DeclaredFirst(a, q, j, m, w)
    ensures p == q && i == j && k == m
  {
    OneBefore(p, q);
    OneSource(OptionsOrNone(ArgpAt(a, p)), i, k, m);
  }

  /** The first declaration of a tree is the one found by going through its options in order. */
  lemma FirstIsDeclared(a: Argp, w: Opt -> bool, p: seq<nat>, i: nat, k: nat)
    requires DeclaredFirst(a, p, i, k, w)
    ensures First(ParsedTree(a, []), w) == Some(Parsed(OptionsOrNone(ArgpAt(a, p))[i], OptionsOrNone(ArgpAt(a, p))[k], p))
  {
    var q, j, m := FirstOfTree(a, [], w);
    if First(ParsedTree(a, []), w).None? {
      assert false;
    } else {
      OneFirst(a, w, p, i, k, q, j, m);
      assert [] + p == p;
    }
  }

  lemma {:induction false} FirstByName(ps: seq<Parsed>, name: CStr)
    ensures FirstNamed(ps, name) == First(ps, ByName(name))
  {
    if ps != [] {
      FirstByName(ps[1..], name);
    }
  }

  lemma {:induction false} FirstByKey(ps: seq<Parsed>, key: int)
    requires key != 0
    ensures ShortOwner(ps, key) == var u := First(ps, ByKey(key)); if u.Some? then Some(u.value.owner) else None
  {
    if ps != [] {
      FirstByKey(ps[1..], key);
    }
  }

  /** The value VAL stands for a group of the argp at place P and for KEY. */
  predicate Delivers(val: int, gs: seq<Group>, p: seq<nat>, key: int) {
    1 <= GroupKey(val) <= |gs| && gs[GroupKey(val) - 1].argp == p && UserKey(val) == key
  }

  lemma DeliversWhenPacked(a: Argp, shorts: nat, l: LongOpt, p: seq<nat>)
    requires l.group < |RootGroups(a, shorts)| && RootGroups(a, shorts)[l.group].argp == p
    ensures Delivers(l.Val(), RootGroups(a, shorts), p, l.key) <==> l.group < 127 && UserRange(l.key)
  {
    UnpackPack(l.key, l.group);
    if Delivers(l.Val(), RootGroups(a, shorts), p, l.key) {
      GroupsDistinct(a, shorts, GroupKey(l.Val()) - 1, l.group);
    }
  }

  /** The key a declaration is delivered with: its own, or that of the option it takes its values
      from. */
  predicate KeyFor(opts: seq<Opt>, i: nat, k: nat, key: int)
    requires i < |opts| && k < |opts|
  {
    if opts[i].key != 0 then key == opts[i].key else key == opts[k].key
  }

  /** A long option for getopt with the name, the argument kind and the group of a declaration. */
  predicate Entered(l: LongOpt, opts: seq<Opt>, i: nat, k: nat, gs: seq<Group>, p: seq<nat>)
    requires i < |opts| && k < |opts|
  {
    && (l.hasArg == NoArgument <==> !opts[k].hasArg)
    && (l.hasArg == OptionalArgument <==> opts[k].hasArg && opts[k].argOptional)
    && KeyFor(opts, i, k, l.key) && l.group < |gs| && gs[l.group].argp == p
  }

  lemma LongNameEntered(a: Argp, shorts: nat, longs: seq<LongOpt>, name: CStr, p: seq<nat>, i: nat, k: nat)
    requires Table(longs, LongsOf(a, 0)) && DeclaredFirst(a, p, i, k, ByName(name))
    ensures Lookup(longs, name).Some?
    ensures Entered(Lookup(longs, name).value, OptionsOrNone(ArgpAt(a, p)), i, k, RootGroups(a, shorts), p)
  {
    FirstIsDeclared(a, ByName(name), p, i, k);
    FirstByName(ParsedTree(a, []), name);
    TreeNamed(a, [], None, 0, Fill(0, shorts, 0), name);
  }

  /** A long name that is declared: getopt learns the argument kind from the option that the first
      declaration takes its values from, and dispatch arrives at the argp of that declaration with
      its own key, or with that option's key if it has none, exactly when the group number and the
      key survive packing. */
  lemma LongNameReaches(a: Argp, shorts: nat, longs: seq<LongOpt>, name: CStr, p: seq<nat>, i: nat, k: nat)
    requires Table(longs, LongsOf(a, 0)) && DeclaredFirst(a, p, i, k, ByName(name))
    ensures Lookup(longs, name).Some?
    ensures var l, opts, gs := Lookup(longs, name).value, OptionsOrNone(ArgpAt(a, p)), RootGroups(a, shorts);
            && Entered(l, opts, i, k, gs, p)
            && (Delivers(l.Val(), gs, p, l.key) <==> l.group < 127 && UserRange(l.key))
  {
    LongNameEntered(a, shorts, longs, name, p, i, k);
    DeliversWhenPacked(a, shorts, Lookup(longs, name).value, p);
  }

  /** A name that no option declares is not in the table. */
  lemma UndeclaredName(a: Argp, longs: seq<LongOpt>, name: CStr)
    requires Table(longs, LongsOf(a, 0)) && NoneAt(a, ByName(name))
    ensures Lookup(longs, name).None?
  {
    var p, i, k := FirstOfTree(a, [], ByName(name));
    FirstByName(ParsedTree(a, []), name);
    LongDispatch(a, 0, longs, name);
  }

  /** A short key belongs to the argp that declares it first, and to none if none does. */
  lemma ShortKeyBelongs(a: Argp, key: int, p: seq<nat>, i: nat, k: nat)
    requires key != 0
    ensures DeclaredFirst(a, p, i, k, ByKey(key)) ==> ShortOwner(ParsedTree(a, []), key) == Some(p)
    ensures NoneAt(a, ByKey(key)) ==> ShortOwner(ParsedTree(a, []), key) == None
  {
    FirstByKey(ParsedTree(a, []), key);
    if DeclaredFirst(a, p, i, k, ByKey(key)) {
      FirstIsDeclared(a, ByKey(key), p, i, k);
    } else if NoneAt(a, ByKey(key)) {
      var q, j, m := FirstOfTree(a, [], ByKey(key));
    }
  }

  /** What getopt's short string gets for option I with the values of option K: its key, and one
      colon for an argument, two for an optional one. */
  lemma ShortOptionText(opts: seq<Opt>, i: nat, k: nat)
    requires SourceOf(opts, i, k) && opts[i].IsShort() && !opts[k].doc
    ensures var s := ShortText(opts[i], RealAt(opts, i));
            && |s| == (if !opts[k].hasArg then 1 else if opts[k].argOptional then 3 else 2)
            && s[0] == opts[i].key && forall j | 0 < j < |s| :: s[j] == ':' as int
  {
    var m := RealIsSource(opts, i);
    OneSource(opts, i, k, m);
  }
}
