/** Which group gets an option: `parser_parse_opt`, and how that agrees with the help list. */
module OptionDispatch {
  import opened Wrappers
  import opened ArgpTypes
  import opened PackedKeys
  import opened OptionTables
  import opened HelpLists
  import opened HelpTree
  import opened ParserTables

  /** An option getopt is told about, with its real option and the place of its argp. */
  datatype Parsed = Parsed(opt: Opt, source: Opt, owner: seq<nat>)

  /** The options of a list that are more than documentation. */
  function ParsedOwn(opts: seq<Opt>, n: nat, owner: seq<nat>): seq<Parsed>
    requires n <= |opts|
  {
    if n == 0 then []
    else ParsedOwn(opts, n - 1, owner) + ParsedOne(opts[n - 1], RealAt(opts, n - 1), owner)
  }

  function ParsedOne(opt: Opt, source: Opt, owner: seq<nat>): seq<Parsed> {
    if source.doc then [] else [Parsed(opt, source, owner)]
  }

  function ParsedFrom(a: Argp, at: seq<nat>): seq<Parsed> { ParsedOwn(OptionsOrNone(a), |OptionsOrNone(a)|, at) }

  /** The same for a whole tree, in preorder. */
  function ParsedTree(a: Argp, at: seq<nat>): seq<Parsed>
    decreases a, 1
  {
    ParsedFrom(a, at) + ParsedAll(a.children, at, 0)
  }

  function ParsedAll(cs: seq<Child>, at: seq<nat>, i: nat): seq<Parsed>
    decreases cs, 0
  {
    if cs == [] then []
    else
      assert cs decreases to cs[0];
      ParsedTree(cs[0].argp, at + [i]) + ParsedAll(cs[1..], at, i + 1)
  }

  // ----- Short options -----

  /** The argp whose option is the first to use a short key. */
  function ShortOwner(ps: seq<Parsed>, key: int): Option<seq<nat>> {
    if ps == [] then None else if KeyOf(ps[0].opt) == key then Some(ps[0].owner) else ShortOwner(ps[1..], key)
  }

  /** What `strchr` finds: the first place of a character. */
  predicate FirstAt(s: seq<int>, c: int, i: nat) { i < |s| && s[i] == c && c !in s[..i] }

  /** The first group whose short options end after a position. */
  function GroupAt(gs: seq<Group>, pos: nat): Option<Group> {
    if gs == [] then None else if gs[0].shortEnd > pos then Some(gs[0]) else GroupAt(gs[1..], pos)
  }

  lemma {:induction false} OwnerAppend(ps: seq<Parsed>, qs: seq<Parsed>, key: int)
    ensures ShortOwner(ps + qs, key) == if ShortOwner(ps, key).Some? then ShortOwner(ps, key) else ShortOwner(qs, key)
  {
    if ps == [] {
      assert ps + qs == qs;
    } else {
      assert (ps + qs)[1..] == ps[1..] + qs;
      OwnerAppend(ps[1..], qs, key);
    }
  }

  lemma FirstAtSplit(s: seq<int>, t: seq<int>, c: int, i: nat)
    requires FirstAt(s + t, c, i)
    ensures i < |s| ==> c in s && FirstAt(s, c, i)
    ensures i >= |s| ==> c !in s && FirstAt(t, c, i - |s|)
  {
    if i < |s| {
      assert (s + t)[..i] == s[..i];
    } else {
      assert (s + t)[..i] == s + t[..i - |s|];
    }
  }

  lemma {:induction false} GroupAtAppend(gs: seq<Group>, hs: seq<Group>, pos: nat)
    ensures GroupAt(gs + hs, pos) == if GroupAt(gs, pos).Some? then GroupAt(gs, pos) else GroupAt(hs, pos)
  {
    if gs == [] {
      assert gs + hs == hs;
    } else {
      assert (gs + hs)[1..] == gs[1..] + hs;
      GroupAtAppend(gs[1..], hs, pos);
    }
  }

  /** A printable key that getopt takes for an option of its own string. */
  predicate Plain(key: int) { key != COLON && key != 0 }

  /** OWNER is the owner of a key in PS exactly when the text S has it. */
  predicate Owns(ps: seq<Parsed>, s: seq<int>, owner: seq<nat>, key: int) {
    ShortOwner(ps, key) == if key in s then Some(owner) else None
  }

  lemma OwnerJoin(ps: seq<Parsed>, s: seq<int>, qs: seq<Parsed>, t: seq<int>, owner: seq<nat>, key: int)
    requires Owns(ps, s, owner, key) && Owns(qs, t, owner, key)
    ensures Owns(ps + qs, s + t, owner, key)
  {
    OwnerAppend(ps, qs, key);
  }

  lemma {:induction false} OwnShort(opts: seq<Opt>, n: nat, owner: seq<nat>, key: int)
    requires n <= |opts| && Plain(key)
    ensures Owns(ParsedOwn(opts, n, owner), ShortTexts(opts, n), owner, key)
  {
    if n > 0 {
      OwnShort(opts, n - 1, owner, key);
      OneShort(opts[n - 1], RealAt(opts, n - 1), owner, key);
      OwnerJoin(ParsedOwn(opts, n - 1, owner), ShortTexts(opts, n - 1), ParsedOne(opts[n - 1], RealAt(opts, n - 1), owner),
                ShortText(opts[n - 1], RealAt(opts, n - 1)), owner, key);
    }
  }

  lemma OneShort(opt: Opt, source: Opt, owner: seq<nat>, key: int)
    requires Plain(key)
    ensures Owns(ParsedOne(opt, source, owner), ShortText(opt, source), owner, key)
  {}

  /** No group of GS reaches past LIMIT. */
  ghost predicate Within(gs: seq<Group>, limit: nat) {
    forall k | 0 <= k < |gs| :: gs[k].shortEnd <= limit
  }

  lemma {:induction false} WithinNone(gs: seq<Group>, limit: nat, pos: nat)
    requires Within(gs, limit) && limit <= pos
    ensures GroupAt(gs, pos).None?
  {
    if gs != [] {
      WithinNone(gs[1..], limit, pos);
    }
  }

  lemma {:induction false} TreeWithin(a: Argp, at: seq<nat>, parent: Option<nat>, index: nat, f: Fill)
    ensures Within(GroupsOf(a, at, parent, index, f), f.shorts + |ShortsOf(a)|)
    decreases a, 1
  {
    TreesWithin(a.children, at, 0, ParentFor(a, f), AfterOwn(a, f));
  }

  lemma {:induction false} TreesWithin(cs: seq<Child>, at: seq<nat>, i: nat, parent: Option<nat>, f: Fill)
    ensures Within(GroupsOfAll(cs, at, i, parent, f), f.shorts + |ShortsOfAll(cs)|)
    decreases cs, 0
  {
    if cs != [] {
      assert cs decreases to cs[0];
      TreeWithin(cs[0].argp, at + [i], parent, i, f);
      TreesWithin(cs[1..], at, i + 1, parent, After(cs[0].argp, f));
    }
  }

  /** The groups GS give the argp OWNER at a position. */
  predicate Gives(gs: seq<Group>, pos: nat, owner: Option<seq<nat>>) {
    GroupAt(gs, pos).Some? && owner == Some(GroupAt(gs, pos).value.argp)
  }

  /** Through the first place of KEY in the short string S the groups GS give the argp of the
      first of PS to use it; BASE is where S starts. */
  ghost predicate Found(ps: seq<Parsed>, s: seq<int>, gs: seq<Group>, base: nat, key: int) {
    && (key in s <==> ShortOwner(ps, key).Some?)
    && forall i: nat | FirstAt(s, key, i) :: Gives(gs, base + i, ShortOwner(ps, key))
  }

  lemma FoundJoin(ps: seq<Parsed>, s: seq<int>, gs: seq<Group>, qs: seq<Parsed>, t: seq<int>, hs: seq<Group>, base: nat, key: int)
    requires Found(ps, s, gs, base, key) && Found(qs, t, hs, base + |s|, key) && Within(gs, base + |s|)
    ensures Found(ps + qs, s + t, gs + hs, base, key)
  {
    OwnerAppend(ps, qs, key);
    forall i: nat | FirstAt(s + t, key, i)
      ensures Gives(gs + hs, base + i, ShortOwner(ps + qs, key))
    {
      FirstAtSplit(s, t, key, i);
      GroupAtAppend(gs, hs, base + i);
      if i >= |s| {
        assert Gives(hs, base + |s| + (i - |s|), ShortOwner(qs, key));
        WithinNone(gs, base + |s|, base + i);
      }
    }
  }

  lemma OwnFound(a: Argp, at: seq<nat>, parent: Option<nat>, index: nat, f: Fill, key: int)
    requires Plain(key)
    ensures Found(ParsedFrom(a, at), OwnShorts(a), OwnGroup(a, at, parent, index, f), f.shorts, key)
  {
    OwnShort(OptionsOrNone(a), |OptionsOrNone(a)|, at, key);
    var s, gs, owner := OwnShorts(a), OwnGroup(a, at, parent, index, f), ShortOwner(ParsedFrom(a, at), key);
    forall i: nat | FirstAt(s, key, i)
      ensures Gives(gs, f.shorts + i, owner)
    {
      assert s[i] in s;
    }
  }

  /** In a tree, the group found through the place of a key is the first that uses it. */
  lemma {:induction false} TreeFound(a: Argp, at: seq<nat>, parent: Option<nat>, index: nat, f: Fill, key: int)
    requires Plain(key)
    ensures Found(ParsedTree(a, at), ShortsOf(a), GroupsOf(a, at, parent, index, f), f.shorts, key)
    decreases a, 1
  {
    var above, next, cs := ParentFor(a, f), AfterOwn(a, f), a.children;
    OwnFound(a, at, parent, index, f, key);
    TreesFound(cs, at, 0, above, next, key);
    FoundJoin(ParsedFrom(a, at), OwnShorts(a), OwnGroup(a, at, parent, index, f),
              ParsedAll(cs, at, 0), ShortsOfAll(cs), GroupsOfAll(cs, at, 0, above, next), f.shorts, key);
  }

  lemma {:induction false} TreesFound(cs: seq<Child>, at: seq<nat>, i: nat, parent: Option<nat>, f: Fill, key: int)
    requires Plain(key)
    ensures Found(ParsedAll(cs, at, i), ShortsOfAll(cs), GroupsOfAll(cs, at, i, parent, f), f.shorts, key)
    decreases cs, 0
  {
    if cs != [] {
      assert cs decreases to cs[0];
      var c, rest, next := cs[0].argp, cs[1..], After(cs[0].argp, f);
      TreeFound(c, at + [i], parent, i, f, key);
      TreesFound(rest, at, i + 1, parent, next, key);
      TreeWithin(c, at + [i], parent, i, f);
      FoundJoin(ParsedTree(c, at + [i]), ShortsOf(c), GroupsOf(c, at + [i], parent, i, f),
                ParsedAll(rest, at, i + 1), ShortsOfAll(rest), GroupsOfAll(rest, at, i + 1, parent, next), f.shorts, key);
    }
  }

  // ----- Long options -----

  /** The first option of a given name. */
  function FirstNamed(ps: seq<Parsed>, name: CStr): Option<Parsed> {
    if ps == [] then None else if ps[0].opt.name == Some(name) then Some(ps[0]) else FirstNamed(ps[1..], name)
  }

  lemma {:induction false} NamedAppend(ps: seq<Parsed>, qs: seq<Parsed>, name: CStr)
    ensures FirstNamed(ps + qs, name) == if FirstNamed(ps, name).Some? then FirstNamed(ps, name) else FirstNamed(qs, name)
  {
    if ps == [] {
      assert ps + qs == qs;
    } else {
      assert (ps + qs)[1..] == ps[1..] + qs;
      NamedAppend(ps[1..], qs, name);
    }
  }

  /** Long option L carries the argument kind and key of U and leads to its argp's group. */
  predicate LeadsTo(u: Parsed, l: LongOpt, gs: seq<Group>, base: nat) {
    && l.hasArg == KindOf(u.source) && l.key == LongKey(u.opt, u.source)
    && base <= l.group < base + |gs| && gs[l.group - base].argp == u.owner
  }

  predicate Named(ps: seq<Parsed>, ls: seq<LongOpt>, gs: seq<Group>, base: nat, name: CStr) {
    && (FirstNamed(ps, name).Some? <==> Lookup(ls, name).Some?)
    && (Lookup(ls, name).Some? ==> LeadsTo(FirstNamed(ps, name).value, Lookup(ls, name).value, gs, base))
  }

  lemma NamedJoin(all: seq<Group>, ps: seq<Parsed>, ls: seq<LongOpt>, gs: seq<Group>, qs: seq<Parsed>, ms: seq<LongOpt>, hs: seq<Group>, base: nat, name: CStr)
    requires Named(ps, ls, gs, base, name) && Named(qs, ms, hs, base + |gs|, name) && all == gs + hs
    ensures Named(ps + qs, ls + ms, all, base, name)
  {
    NamedAppend(ps, qs, name);
    LookupAppend(ls, ms, name);
  }

  lemma NamedTogether(ps: seq<Parsed>, ls: seq<LongOpt>, qs: seq<Parsed>, ms: seq<LongOpt>, gs: seq<Group>, base: nat, name: CStr)
    requires Named(ps, ls, gs, base, name) && Named(qs, ms, gs, base, name)
    ensures Named(ps + qs, ls + ms, gs, base, name)
  {
    NamedAppend(ps, qs, name);
    LookupAppend(ls, ms, name);
  }

  lemma {:induction false} OwnNamed(opts: seq<Opt>, n: nat, owner: seq<nat>, g: Group, base: nat, name: CStr)
    requires n <= |opts| && g.argp == owner
    ensures Named(ParsedOwn(opts, n, owner), LongTexts(opts, n, base), [g], base, name)
  {
    if n > 0 {
      OwnNamed(opts, n - 1, owner, g, base, name);
      OneNamed(opts[n - 1], RealAt(opts, n - 1), owner, g, base, name);
      NamedTogether(ParsedOwn(opts, n - 1, owner), LongTexts(opts, n - 1, base), ParsedOne(opts[n - 1], RealAt(opts, n - 1), owner),
                    LongText(opts[n - 1], RealAt(opts, n - 1), base), [g], base, name);
    }
  }

  lemma OneNamed(opt: Opt, source: Opt, owner: seq<nat>, g: Group, base: nat, name: CStr)
    requires g.argp == owner
    ensures Named(ParsedOne(opt, source, owner), LongText(opt, source, base), [g], base, name)
  {}

  lemma {:induction false} TreeNamed(a: Argp, at: seq<nat>, parent: Option<nat>, index: nat, f: Fill, name: CStr)
    requires parent.Some? ==> parent.value < f.groups
    ensures Named(ParsedTree(a, at), LongsOf(a, f.groups), GroupsOf(a, at, parent, index, f), f.groups, name)
    decreases a, 1
  {
    var own, above, next, cs := OwnGroup(a, at, parent, index, f), ParentFor(a, f), AfterOwn(a, f), a.children;
    if HasGroup(a) {
      OwnNamed(OptionsOrNone(a), |OptionsOrNone(a)|, at, own[0], f.groups, name);
    }
    TreesNamed(cs, at, 0, above, next, name);
    NamedJoin(GroupsOf(a, at, parent, index, f), ParsedFrom(a, at), OwnLongs(a, f.groups), own,
              ParsedAll(cs, at, 0), LongsOfAll(cs, next.groups), GroupsOfAll(cs, at, 0, above, next), f.groups, name);
  }

  lemma {:induction false} TreesNamed(cs: seq<Child>, at: seq<nat>, i: nat, parent: Option<nat>, f: Fill, name: CStr)
    requires parent.Some? ==> parent.value < f.groups
    ensures Named(ParsedAll(cs, at, i), LongsOfAll(cs, f.groups), GroupsOfAll(cs, at, i, parent, f), f.groups, name)
    decreases cs, 0
  {
    if cs != [] {
      assert cs decreases to cs[0];
      var c, rest, next := cs[0].argp, cs[1..], After(cs[0].argp, f);
      TreeNamed(c, at + [i], parent, i, f, name);
      TreesNamed(rest, at, i + 1, parent, next, name);
      TreeLinked(c, at + [i], parent, i, f);
      NamedJoin(GroupsOfAll(cs, at, i, parent, f), ParsedTree(c, at + [i]), LongsOf(c, f.groups), GroupsOf(c, at + [i], parent, i, f),
                ParsedAll(rest, at, i + 1), LongsOfAll(rest, next.groups), GroupsOfAll(rest, at, i + 1, parent, next), f.groups, name);
    }
  }

  // ----- parser_parse_opt -----

  /** The groups of a whole tree behind a prefix of the given length. */
  function RootGroups(a: Argp, shorts: nat): seq<Group> { GroupsOf(a, [], None, 0, Fill(0, shorts, 0)) }

  method FindGroup(gs: seq<Group>, pos: nat) returns (g: Option<Group>)
    ensures g == GroupAt(gs, pos)
  {
    var i := 0;
    while i < |gs|
      invariant 0 <= i <= |gs| && GroupAt(gs, pos) == GroupAt(gs[i..], pos)
    {
      if gs[i].shortEnd > pos {
        return Some(gs[i]);
      }
      assert gs[i..][1..] == gs[i + 1..];
      i := i + 1;
    }
    g := None;
  }

  method FindChar(s: seq<int>, c: int) returns (i: nat)
    ensures if c in s then FirstAt(s, c, i) else i == |s|
  {
    i := 0;
    while i < |s|
      invariant i <= |s| && c !in s[..i]
    {
      if s[i] == c {
        return;
      }
      i := i + 1;
    }
  }

  /** The choice of group in `parser_parse_opt`: which group is called for OPT and with what key. */
  method ParseOpt(a: Argp, prefix: seq<int>, shorts: seq<int>, groups: seq<Group>, opt: int) returns (g: Option<Group>, key: int)
    requires shorts == prefix + ShortsOf(a) && groups == RootGroups(a, |prefix|)
    requires 0 <= GroupKey(opt) <= |groups|
    ensures GroupKey(opt) == 0 && Plain(opt) && opt !in prefix ==>
              key == opt && (if g.Some? then Some(g.value.argp) else None) == ShortOwner(ParsedTree(a, []), opt)
    ensures GroupKey(opt) != 0 ==> g == Some(groups[GroupKey(opt) - 1]) && key == UserKey(opt)
  {
    var groupKey := GroupKey(opt);
    if groupKey == 0 {
      key := opt;
      var i := FindChar(shorts, opt);
      if i < |shorts| {
        g := FindGroup(groups, i);
      } else {
        g := None;
      }
      if Plain(opt) && opt !in prefix {
        TreeFound(a, [], None, 0, Fill(0, |prefix|, 0), opt);
        if opt in shorts {
          FirstAtSplit(prefix, ShortsOf(a), opt, i);
          assert Gives(groups, |prefix| + (i - |prefix|), ShortOwner(ParsedTree(a, []), opt));
        }
      }
    } else {
      g, key := Some(groups[groupKey - 1]), UserKey(opt);
    }
  }

  /** A long option goes to the first argp in preorder that declares its name, with the key and
      argument kind declared there; undeclared names are not in the table. */
  lemma LongDispatch(a: Argp, shorts: nat, longs: seq<LongOpt>, name: CStr)
    requires Table(longs, LongsOf(a, 0))
    ensures FirstNamed(ParsedTree(a, []), name).Some? <==> Lookup(longs, name).Some?
    ensures Lookup(longs, name).Some? ==>
              var u, l := FirstNamed(ParsedTree(a, []), name).value, Lookup(longs, name).value;
              l.hasArg == KindOf(u.source) && (ReachesOwner(l, RootGroups(a, shorts), u) <==> l.group < 127 && UserRange(LongKey(u.opt, u.source)))
  {
    TreeNamed(a, [], None, 0, Fill(0, shorts, 0), name);
    if Lookup(longs, name).Some? {
      var l := Lookup(longs, name).value;
      UnpackPack(l.key, l.group);
    }
  }

  /** Dispatch by the packed value arrives at the group of U's argp with U's key. */
  predicate ReachesOwner(l: LongOpt, gs: seq<Group>, u: Parsed) {
    && GroupKey(l.Val()) == l.group + 1 && l.group < |gs| && gs[l.group].argp == u.owner
    && UserKey(l.Val()) == LongKey(u.opt, u.source)
  }
}
