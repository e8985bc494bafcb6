/** The parser of an argp tree: `calc_sizes` sets room aside for its tables, `convert_options`
    fills them in. */
module ParserTables {
  import opened Wrappers
  import opened ArgpTypes
  import opened OptionTables
  import opened HelpTree
  import opened Sequences

  /** `struct group`: ARGP is the place of its argp in the tree, SLOTS and SLOTCOUNT its
      stretch of the child inputs. */
  datatype Group = Group(
    argp: seq<nat>,
    hasParser: bool,
    shortEnd: nat,
    parent: Option<nat>,
    parentIndex: nat,
    slots: nat,
    slotCount: nat)

  /** How far the tables are filled. */
  datatype Fill = Fill(groups: nat, shorts: nat, slots: nat)

  predicate HasGroup(a: Argp) { a.options.Some? || a.hasParser }

  // ----- What a tree contributes to each table, in preorder -----

  function OwnShorts(a: Argp): seq<int> { ShortTexts(OptionsOrNone(a), |OptionsOrNone(a)|) }

  function OwnLongs(a: Argp, g: nat): seq<LongOpt> { LongTexts(OptionsOrNone(a), |OptionsOrNone(a)|, g) }

  function ShortsOf(a: Argp): seq<int>
    decreases a, 1
  {
    OwnShorts(a) + ShortsOfAll(a.children)
  }

  function ShortsOfAll(cs: seq<Child>): seq<int>
    decreases cs, 0
  {
    if cs == [] then []
    else
      assert cs decreases to cs[0];
      ShortsOf(cs[0].argp) + ShortsOfAll(cs[1..])
  }

  function OwnCount(a: Argp): nat { if HasGroup(a) then 1 else 0 }

  function GroupCount(a: Argp): nat
    decreases a, 1
  {
    OwnCount(a) + GroupCountAll(a.children)
  }

  function GroupCountAll(cs: seq<Child>): nat
    decreases cs, 0
  {
    if cs == [] then 0
    else
      assert cs decreases to cs[0];
      GroupCount(cs[0].argp) + GroupCountAll(cs[1..])
  }

  function OwnSlots(a: Argp): nat { if HasGroup(a) then |a.children| else 0 }

  function SlotCount(a: Argp): nat
    decreases a, 1
  {
    OwnSlots(a) + SlotCountAll(a.children)
  }

  function SlotCountAll(cs: seq<Child>): nat
    decreases cs, 0
  {
    if cs == [] then 0
    else
      assert cs decreases to cs[0];
      SlotCount(cs[0].argp) + SlotCountAll(cs[1..])
  }

  function LongsOf(a: Argp, g: nat): seq<LongOpt>
    decreases a, 1
  {
    OwnLongs(a, g) + LongsOfAll(a.children, g + OwnCount(a))
  }

  function LongsOfAll(cs: seq<Child>, g: nat): seq<LongOpt>
    decreases cs, 0
  {
    if cs == [] then []
    else
      assert cs decreases to cs[0];
      LongsOf(cs[0].argp, g) + LongsOfAll(cs[1..], g + GroupCount(cs[0].argp))
  }

  /** The tables after an argp's own options, and after its whole tree. */
  function AfterOwn(a: Argp, f: Fill): Fill {
    Fill(f.groups + OwnCount(a), f.shorts + |OwnShorts(a)|, f.slots + OwnSlots(a))
  }

  function After(a: Argp, f: Fill): Fill {
    Fill(f.groups + GroupCount(a), f.shorts + |ShortsOf(a)|, f.slots + SlotCount(a))
  }

  function OwnGroup(a: Argp, at: seq<nat>, parent: Option<nat>, index: nat, f: Fill): seq<Group> {
    if HasGroup(a) then [Group(at, a.hasParser, f.shorts + |OwnShorts(a)|, parent, index, f.slots, |a.children|)] else []
  }

  /** The parent of the children's groups. */
  function ParentFor(a: Argp, f: Fill): Option<nat> { if HasGroup(a) then Some(f.groups) else None }

  function GroupsOf(a: Argp, at: seq<nat>, parent: Option<nat>, index: nat, f: Fill): seq<Group>
    decreases a, 1
  {
    OwnGroup(a, at, parent, index, f) + GroupsOfAll(a.children, at, 0, ParentFor(a, f), AfterOwn(a, f))
  }

  function GroupsOfAll(cs: seq<Child>, at: seq<nat>, i: nat, parent: Option<nat>, f: Fill): seq<Group>
    decreases cs, 0
  {
    if cs == [] then []
    else
      assert cs decreases to cs[0];
      GroupsOf(cs[0].argp, at + [i], parent, i, f) + GroupsOfAll(cs[1..], at, i + 1, parent, After(cs[0].argp, f))
  }

  // ----- Conversion -----

  /** The tables of a parser while `convert_options` fills them.  ASKED is every long option
      asked for so far. */
  class Converter {
    var shorts: seq<int>
    var longs: seq<LongOpt>
    var groups: seq<Group>
    var slotsEnd: nat
    ghost var asked: seq<LongOpt>

    constructor (prefix: seq<int>)
      ensures shorts == prefix && asked == [] && groups == [] && slotsEnd == 0 && Valid()
    {
      shorts, longs, groups, slotsEnd, asked := prefix, [], [], 0, [];
    }

    ghost predicate Valid()
      reads this
    {
      Table(longs, asked)
    }

    function Filled(): Fill
      reads this
    {
      Fill(|groups|, |shorts|, slotsEnd)
    }

    /** Writes one option; SOURCE is the real option behind OPT. */
    method ConvertOption(opt: Opt, source: Opt)
      requires Valid()
      modifies `shorts, `longs, `asked
      ensures Valid()
      ensures shorts == old(shorts) + ShortText(opt, source)
      ensures asked == old(asked) + LongText(opt, source, |groups|)
    {
      if !source.doc {
        if opt.IsShort() {
          shorts := shorts + [opt.key];
          if source.hasArg {
            shorts := shorts + [COLON];
            if source.argOptional {
              shorts := shorts + [COLON];
            }
          }
        }
        if opt.name.Some? {
          var l := LongOpt(opt.name.value, KindOf(source), LongKey(opt, source), |groups|);
          TableGrows(longs, asked, l);
          var i := FindLongOption(longs, opt.name.value);
          if i < 0 {
            longs := longs + [l];
          }
          asked := asked + [l];
        }
      }
    }

    /** Writes a list of options, following aliases back to their real option. */
    method ConvertOwn(opts: seq<Opt>)
      requires Valid()
      modifies `shorts, `longs, `asked
      ensures Valid()
      ensures shorts == old(shorts) + ShortTexts(opts, |opts|)
      ensures asked == old(asked) + LongTexts(opts, |opts|, |groups|)
    {
      if opts == [] {
        return;
      }
      var source := opts[0];
      var i := 0;
      while i < |opts|
        invariant 0 <= i <= |opts| && Valid()
        invariant source == RealAt(opts, if i == 0 then 0 else i - 1)
        invariant shorts == old(shorts) + ShortTexts(opts, i)
        invariant asked == old(asked) + LongTexts(opts, i, |groups|)
      {
        if !opts[i].alias {
          source := opts[i];
        }
        ConvertOption(opts[i], source);
        Associate(old(shorts), ShortTexts(opts, i), ShortText(opts[i], source));
        Associate(old(asked), LongTexts(opts, i, |groups|), LongText(opts[i], source, |groups|));
        i := i + 1;
      }
    }

    /** `convert_options` up to its loop over the children. */
    method AddGroup(a: Argp, at: seq<nat>, parent: Option<nat>, index: nat)
      requires Valid()
      modifies this
      ensures Valid()
      ensures shorts == old(shorts) + OwnShorts(a)
      ensures asked == old(asked) + OwnLongs(a, old(|groups|))
      ensures groups == old(groups) + OwnGroup(a, at, parent, index, old(Filled()))
      ensures Filled() == AfterOwn(a, old(Filled()))
    {
      if a.options.Some? || a.hasParser {
        if a.options.Some? {
          ConvertOwn(a.options.value);
        }
        groups := groups + [Group(at, a.hasParser, |shorts|, parent, index, slotsEnd, |a.children|)];
        slotsEnd := slotsEnd + |a.children|;
      }
    }

    /** `convert_options`: appends the options and groups of a whole tree. */
    method ConvertOptions(a: Argp, at: seq<nat>, parent: Option<nat>, index: nat)
      requires Valid()
      modifies this
      ensures Valid()
      ensures shorts == old(shorts) + ShortsOf(a)
      ensures asked == old(asked) + LongsOf(a, old(|groups|))
      ensures groups == old(groups) + GroupsOf(a, at, parent, index, old(Filled()))
      ensures Filled() == After(a, old(Filled()))
      decreases a, 1
    {
      ghost var f := Filled();
      var above := if HasGroup(a) then Some(|groups|) else None;
      AddGroup(a, at, parent, index);
      ConvertChildren(a, at, above);
      Associate(old(shorts), OwnShorts(a), ShortsOfAll(a.children));
      Associate(old(asked), OwnLongs(a, f.groups), LongsOfAll(a.children, f.groups + OwnCount(a)));
      Associate(old(groups), OwnGroup(a, at, parent, index, f), GroupsOfAll(a.children, at, 0, above, AfterOwn(a, f)));
    }

    /** The loop of `convert_options` over the children. */
    method ConvertChildren(a: Argp, at: seq<nat>, parent: Option<nat>)
      requires Valid()
      modifies this
      ensures Valid()
      ensures shorts == old(shorts) + ShortsOfAll(a.children)
      ensures asked == old(asked) + LongsOfAll(a.children, old(|groups|))
      ensures groups == old(groups) + GroupsOfAll(a.children, at, 0, parent, old(Filled()))
      ensures Filled() == AfterAll(a.children, old(Filled()))
      decreases a, 0
    {
      var cs := a.children;
      ghost var all := shorts + ShortsOfAll(cs);
      ghost var wanted := asked + LongsOfAll(cs, |groups|);
      ghost var made := groups + GroupsOfAll(cs, at, 0, parent, Filled());
      ghost var end := AfterAll(cs, Filled());
      var i := 0;
      while i < |cs|
        invariant 0 <= i <= |cs| && Valid()
        invariant shorts + ShortsOfAll(cs[i..]) == all
        invariant asked + LongsOfAll(cs[i..], |groups|) == wanted
        invariant groups + GroupsOfAll(cs[i..], at, i, parent, Filled()) == made
        invariant AfterAll(cs[i..], Filled()) == end
      {
        ChildConverted(cs, i, at, parent, shorts, asked, groups, Filled());
        ConvertOptions(cs[i].argp, at + [i], parent, i);
        i := i + 1;
      }
      assert cs[i..] == [];
      NothingLeft(shorts, asked, groups);
    }
  }

  /** One turn of the loop over the children: what is there and what is still to come stay the
      same together. */
  lemma ChildConverted(cs: seq<Child>, i: nat, at: seq<nat>, parent: Option<nat>, s: seq<int>, l: seq<LongOpt>, gs: seq<Group>, f: Fill)
    requires i < |cs|
    ensures s + ShortsOfAll(cs[i..]) == (s + ShortsOf(cs[i].argp)) + ShortsOfAll(cs[i + 1..])
    ensures l + LongsOfAll(cs[i..], f.groups) == (l + LongsOf(cs[i].argp, f.groups)) + LongsOfAll(cs[i + 1..], After(cs[i].argp, f).groups)
    ensures gs + GroupsOfAll(cs[i..], at, i, parent, f)
         == (gs + GroupsOf(cs[i].argp, at + [i], parent, i, f)) + GroupsOfAll(cs[i + 1..], at, i + 1, parent, After(cs[i].argp, f))
    ensures AfterAll(cs[i..], f) == AfterAll(cs[i + 1..], After(cs[i].argp, f))
  {
    var c := cs[i].argp;
    assert cs[i..][1..] == cs[i + 1..];
    Associate(s, ShortsOf(c), ShortsOfAll(cs[i + 1..]));
    Associate(l, LongsOf(c, f.groups), LongsOfAll(cs[i + 1..], f.groups + GroupCount(c)));
    Associate(gs, GroupsOf(c, at + [i], parent, i, f), GroupsOfAll(cs[i + 1..], at, i + 1, parent, After(c, f)));
  }

  lemma NothingLeft(s: seq<int>, l: seq<LongOpt>, gs: seq<Group>)
    ensures s + [] == s && l + [] == l && gs + [] == gs
  {}

  function AfterAll(cs: seq<Child>, f: Fill): Fill {
    Fill(f.groups + GroupCountAll(cs), f.shorts + |ShortsOfAll(cs)|, f.slots + SlotCountAll(cs))
  }

  // ----- Room set aside -----

  function OptionCount(a: Argp): nat
    decreases a, 1
  {
    |OptionsOrNone(a)| + OptionCountAll(a.children)
  }

  function OptionCountAll(cs: seq<Child>): nat
    decreases cs, 0
  {
    if cs == [] then 0
    else
      assert cs decreases to cs[0];
      OptionCount(cs[0].argp) + OptionCountAll(cs[1..])
  }

  function ChildCount(a: Argp): nat
    decreases a, 1
  {
    ChildCountAll(a.children)
  }

  function ChildCountAll(cs: seq<Child>): nat
    decreases cs, 0
  {
    if cs == [] then 0
    else
      assert cs decreases to cs[0];
      1 + ChildCount(cs[0].argp) + ChildCountAll(cs[1..])
  }

  /** `struct parser_sizes`. */
  class ParserSizes {
    var shortLen: nat
    var longLen: nat
    var numGroups: nat
    var numChildInputs: nat

    constructor (shorts: nat)
      ensures shortLen == shorts && longLen == 0 && numGroups == 0 && numChildInputs == 0
    {
      shortLen, longLen, numGroups, numChildInputs := shorts, 0, 0, 0;
    }

    /** `calc_sizes`. */
    method CalcSizes(a: Argp)
      modifies this
      ensures shortLen == old(shortLen) + 3 * OptionCount(a) && longLen == old(longLen) + OptionCount(a)
      ensures numGroups == old(numGroups) + GroupCount(a) && numChildInputs == old(numChildInputs) + ChildCount(a)
      decreases a
    {
      if a.options.Some? || a.hasParser {
        numGroups := numGroups + 1;
        if a.options.Some? {
          shortLen, longLen := shortLen + 3 * |a.options.value|, longLen + |a.options.value|;
        }
      }
      var i := 0;
      var cs := a.children;
      while i < |cs|
        invariant 0 <= i <= |cs|
        invariant shortLen + 3 * OptionCountAll(cs[i..]) == old(shortLen) + 3 * OptionCount(a)
        invariant longLen + OptionCountAll(cs[i..]) == old(longLen) + OptionCount(a)
        invariant numGroups + GroupCountAll(cs[i..]) == old(numGroups) + GroupCount(a)
        invariant numChildInputs + ChildCountAll(cs[i..]) == old(numChildInputs) + ChildCount(a)
      {
        assert cs[i..][1..] == cs[i + 1..];
        CalcSizes(cs[i].argp);
        numChildInputs := numChildInputs + 1;
        i := i + 1;
      }
      assert cs[i..] == [];
    }
  }

  /** Every option of the tree is a short option with an optional argument. */
  predicate AllThree(a: Argp)
    decreases a, 1
  {
    AllTakeThree(OptionsOrNone(a), |OptionsOrNone(a)|) && AllThreeAll(a.children)
  }

  predicate AllThreeAll(cs: seq<Child>)
    decreases cs, 0
  {
    cs == [] ||
    (assert cs decreases to cs[0];
     AllThree(cs[0].argp) && AllThreeAll(cs[1..]))
  }

  /** The tables never outgrow the counts, and the short string reaches its count only when
      every option takes three characters. */
  lemma {:induction false} CountsSuffice(a: Argp, g: nat)
    ensures |ShortsOf(a)| <= 3 * OptionCount(a) && |LongsOf(a, g)| <= OptionCount(a)
    ensures |ShortsOf(a)| == 3 * OptionCount(a) <==> AllThree(a)
    ensures SlotCount(a) <= ChildCount(a)
    decreases a, 1
  {
    TextLengths(OptionsOrNone(a), |OptionsOrNone(a)|, g);
    CountsSufficeAll(a.children, g + OwnCount(a));
  }

  lemma {:induction false} CountsSufficeAll(cs: seq<Child>, g: nat)
    ensures |ShortsOfAll(cs)| <= 3 * OptionCountAll(cs) && |LongsOfAll(cs, g)| <= OptionCountAll(cs)
    ensures |ShortsOfAll(cs)| == 3 * OptionCountAll(cs) <==> AllThreeAll(cs)
    ensures SlotCountAll(cs) + |cs| <= ChildCountAll(cs)
    decreases cs, 0
  {
    if cs != [] {
      assert cs decreases to cs[0];
      CountsSuffice(cs[0].argp, g);
      CountsSufficeAll(cs[1..], g + GroupCount(cs[0].argp));
    }
  }

  // ----- How groups hang together -----

  /** Group K of a stretch that starts at number BASE has no parent, or a parent in the stretch
      before it with a child input slot for it, or is child LO..HI of PARENT. */
  predicate LinkedAt(gs: seq<Group>, base: nat, parent: Option<nat>, lo: nat, hi: nat, k: nat)
    requires k < |gs|
  {
    var g := gs[k];
    || g.parent.None?
    || (g.parent == parent && lo <= g.parentIndex < hi)
    || (base <= g.parent.value < base + k && g.parentIndex < gs[g.parent.value - base].slotCount)
  }

  ghost predicate Linked(gs: seq<Group>, base: nat, parent: Option<nat>, lo: nat, hi: nat) {
    forall k | 0 <= k < |gs| :: LinkedAt(gs, base, parent, lo, hi, k)
  }

  /** No two groups read the same child input of the same parent. */
  ghost predicate Separate(gs: seq<Group>) {
    forall j, k | 0 <= j < k < |gs| && gs[j].parent.Some? && gs[j].parent == gs[k].parent :: gs[j].parentIndex != gs[k].parentIndex
  }

  /** The stretches of child inputs lie one after the other between FROM and TO. */
  ghost predicate Sliced(gs: seq<Group>, from: nat, to: nat) {
    && from <= to
    && (forall k | 0 <= k < |gs| :: from <= gs[k].slots && gs[k].slots + gs[k].slotCount <= to)
    && (forall j, k | 0 <= j < k < |gs| :: gs[j].slots + gs[j].slotCount <= gs[k].slots)
  }

  lemma LinkedConcat(gs: seq<Group>, hs: seq<Group>, base: nat, parent: Option<nat>, lo: nat, mid: nat, hi: nat)
    requires lo <= mid <= hi && (parent.Some? ==> parent.value < base)
    requires Linked(gs, base, parent, lo, mid) && Linked(hs, base + |gs|, parent, mid, hi)
    ensures Linked(gs + hs, base, parent, lo, hi)
  {
    forall k | 0 <= k < |gs + hs|
      ensures LinkedAt(gs + hs, base, parent, lo, hi, k)
    {
      if k < |gs| {
        assert LinkedAt(gs, base, parent, lo, mid, k);
      } else {
        assert LinkedAt(hs, base + |gs|, parent, mid, hi, k - |gs|);
      }
    }
  }

  lemma SeparateConcat(gs: seq<Group>, hs: seq<Group>, base: nat, parent: Option<nat>, lo: nat, mid: nat, hi: nat)
    requires lo <= mid <= hi && (parent.Some? ==> parent.value < base)
    requires Linked(gs, base, parent, lo, mid) && Linked(hs, base + |gs|, parent, mid, hi)
    requires Separate(gs) && Separate(hs)
    ensures Separate(gs + hs)
  {
    forall j, k | 0 <= j < |gs| && 0 <= k < |hs| && gs[j].parent.Some? && gs[j].parent == hs[k].parent
      ensures gs[j].parentIndex != hs[k].parentIndex
    {
      assert LinkedAt(gs, base, parent, lo, mid, j) && LinkedAt(hs, base + |gs|, parent, mid, hi, k);
    }
  }

  lemma LinkedJoin(all: seq<Group>, gs: seq<Group>, hs: seq<Group>, base: nat, parent: Option<nat>, lo: nat, mid: nat, hi: nat)
    requires all == gs + hs && lo <= mid <= hi && (parent.Some? ==> parent.value < base)
    requires Linked(gs, base, parent, lo, mid) && Linked(hs, base + |gs|, parent, mid, hi) && Separate(gs) && Separate(hs)
    ensures Linked(all, base, parent, lo, hi) && Separate(all)
  {
    LinkedConcat(gs, hs, base, parent, lo, mid, hi);
    SeparateConcat(gs, hs, base, parent, lo, mid, hi);
  }

  lemma SlicedConcat(gs: seq<Group>, hs: seq<Group>, from: nat, mid: nat, to: nat)
    requires Sliced(gs, from, mid) && Sliced(hs, mid, to)
    ensures Sliced(gs + hs, from, to)
  {}

  /** A group put before the groups of its children. */
  lemma LinkedOwn(all: seq<Group>, g: Group, hs: seq<Group>, base: nat, parent: Option<nat>, index: nat)
    requires all == [g] + hs && g.parent == parent && g.parentIndex == index && (parent.Some? ==> parent.value < base)
    requires Linked(hs, base + 1, Some(base), 0, g.slotCount) && Separate(hs)
    ensures Linked(all, base, parent, index, index + 1) && Separate(all)
  {
    var hi := index + 1;
    forall k | 0 <= k < |all|
      ensures LinkedAt(all, base, parent, index, hi, k)
    {
      if k > 0 {
        assert LinkedAt(hs, base + 1, Some(base), 0, g.slotCount, k - 1);
      }
    }
    forall k | 0 <= k < |hs| && g.parent.Some?
      ensures hs[k].parent != g.parent
    {
      assert LinkedAt(hs, base + 1, Some(base), 0, g.slotCount, k);
    }
  }

  /** Groups whose parents are all in their own stretch. */
  lemma LinkedNone(hs: seq<Group>, base: nat, n: nat, parent: Option<nat>, lo: nat, hi: nat)
    requires Linked(hs, base, None, 0, n)
    ensures Linked(hs, base, parent, lo, hi)
  {
    forall k | 0 <= k < |hs|
      ensures LinkedAt(hs, base, parent, lo, hi, k)
    {
      assert LinkedAt(hs, base, None, 0, n, k);
    }
  }

  /** The groups of a tree: parents come before their children, and every group has a child
      input of its own. */
  lemma {:induction false} TreeLinked(a: Argp, at: seq<nat>, parent: Option<nat>, index: nat, f: Fill)
    requires parent.Some? ==> parent.value < f.groups
    ensures var gs := GroupsOf(a, at, parent, index, f);
            |gs| == GroupCount(a) && Linked(gs, f.groups, parent, index, index + 1) && Separate(gs)
    decreases a, 1
  {
    var hs := GroupsOfAll(a.children, at, 0, ParentFor(a, f), AfterOwn(a, f));
    TreeLinkedAll(a.children, at, 0, ParentFor(a, f), AfterOwn(a, f));
    if HasGroup(a) {
      LinkedOwn(GroupsOf(a, at, parent, index, f), OwnGroup(a, at, parent, index, f)[0], hs, f.groups, parent, index);
    } else {
      LinkedNone(hs, f.groups, |a.children|, parent, index, index + 1);
      assert [] + hs == hs;
    }
  }

  lemma {:induction false} TreeLinkedAll(cs: seq<Child>, at: seq<nat>, i: nat, parent: Option<nat>, f: Fill)
    requires parent.Some? ==> parent.value < f.groups
    ensures var gs := GroupsOfAll(cs, at, i, parent, f);
            |gs| == GroupCountAll(cs) && Linked(gs, f.groups, parent, i, i + |cs|) && Separate(gs)
    decreases cs, 0
  {
    if cs != [] {
      assert cs decreases to cs[0];
      var next := After(cs[0].argp, f);
      TreeLinked(cs[0].argp, at + [i], parent, i, f);
      TreeLinkedAll(cs[1..], at, i + 1, parent, next);
      var gs, hs := GroupsOf(cs[0].argp, at + [i], parent, i, f), GroupsOfAll(cs[1..], at, i + 1, parent, next);
      LinkedJoin(GroupsOfAll(cs, at, i, parent, f), gs, hs, f.groups, parent, i, i + 1, i + |cs|);
    }
  }

  /** The child inputs of a tree are dealt out without overlap. */
  lemma {:induction false} TreeSliced(a: Argp, at: seq<nat>, parent: Option<nat>, index: nat, f: Fill)
    ensures Sliced(GroupsOf(a, at, parent, index, f), f.slots, f.slots + SlotCount(a))
    decreases a, 1
  {
    var own, next := OwnGroup(a, at, parent, index, f), AfterOwn(a, f);
    TreeSlicedAll(a.children, at, 0, ParentFor(a, f), next);
    assert Sliced(own, f.slots, next.slots);
    SlicedConcat(own, GroupsOfAll(a.children, at, 0, ParentFor(a, f), next), f.slots, next.slots, f.slots + SlotCount(a));
  }

  lemma {:induction false} TreeSlicedAll(cs: seq<Child>, at: seq<nat>, i: nat, parent: Option<nat>, f: Fill)
    ensures Sliced(GroupsOfAll(cs, at, i, parent, f), f.slots, f.slots + SlotCountAll(cs))
    decreases cs, 0
  {
    if cs != [] {
      assert cs decreases to cs[0];
      var c := cs[0].argp;
      var next := After(c, f);
      TreeSliced(c, at + [i], parent, i, f);
      TreeSlicedAll(cs[1..], at, i + 1, parent, next);
      SlicedConcat(GroupsOf(c, at + [i], parent, i, f), GroupsOfAll(cs[1..], at, i + 1, parent, next), f.slots, next.slots, f.slots + SlotCountAll(cs));
    }
  }

  // ----- The whole construction -----

  /** The first character of the short string: '-' returns arguments in order, '+' stops at the
      first one. */
  function Prefix(inOrder: bool, noArgs: bool): seq<int> {
    if inOrder then [45] else if noArgs then [43] else []
  }

  /** The short string fits its room exactly when the prefix was paid for: without ARGP_NO_ARGS
      always, with it as long as some option leaves a character unused. */
  lemma ShortRoom(a: Argp, inOrder: bool, noArgs: bool)
    ensures |Prefix(inOrder, noArgs)| + |ShortsOf(a)| <= (if noArgs then 0 else 1) + 3 * OptionCount(a) <==> !noArgs || !AllThree(a)
  {
    CountsSuffice(a, 0);
  }

  /** An argp without options leaves no character unused: under ARGP_NO_ARGS the prefix and the
      terminator need one character more than is set aside. */
  lemma PrefixUnpaid()
    ensures var leaf := Argp(None, true, None, []);
            WellDeclared(leaf) && |Prefix(false, true)| + |ShortsOf(leaf)| == 0 + 3 * OptionCount(leaf) + 1
  {}

  /** Parents come before children, every group with a parent has a child input of its own, and
      the child inputs of different groups do not overlap. */
  ghost predicate WellLinked(gs: seq<Group>, end: nat) {
    Linked(gs, 0, None, 0, 1) && Separate(gs) && Sliced(gs, 0, end)
  }

  lemma TreeWellLinked(a: Argp, shorts: nat)
    ensures WellLinked(GroupsOf(a, [], None, 0, Fill(0, shorts, 0)), SlotCount(a))
    ensures |GroupsOf(a, [], None, 0, Fill(0, shorts, 0))| == GroupCount(a)
  {
    TreeLinked(a, [], None, 0, Fill(0, shorts, 0));
    TreeSliced(a, [], None, 0, Fill(0, shorts, 0));
  }

  /** `calc_sizes` and `convert_options` of a root argp, on fresh tables. */
  method FillTables(a: Argp, p: Converter, z: ParserSizes)
    requires p.Valid() && p.asked == [] && p.groups == [] && p.slotsEnd == 0
    requires z.longLen == 0 && z.numGroups == 0 && z.numChildInputs == 0
    modifies p, z
    ensures p.Valid() && p.shorts == old(p.shorts) + ShortsOf(a) && p.asked == LongsOf(a, 0) && p.slotsEnd == SlotCount(a)
    ensures p.groups == GroupsOf(a, [], None, 0, Fill(0, old(|p.shorts|), 0))
    ensures z.shortLen == old(z.shortLen) + 3 * OptionCount(a) && z.longLen == OptionCount(a)
    ensures z.numGroups == GroupCount(a) && z.numChildInputs == ChildCount(a)
  {
    ghost var gs := GroupsOf(a, [], None, 0, p.Filled());
    z.CalcSizes(a);
    p.ConvertOptions(a, [], None, 0);
    assert [] + LongsOf(a, 0) == LongsOf(a, 0) && [] + gs == gs;
  }

  /** Everything that is written fits the room set aside, the short string as ShortRoom says. */
  predicate TablesFit(p: Converter, z: ParserSizes, shortsFit: bool)
    reads p, z
  {
    && |p.groups| == z.numGroups && |p.longs| <= z.longLen && p.slotsEnd <= z.numChildInputs
    && (|p.shorts| <= z.shortLen <==> shortsFit)
  }

  /** The tables part of `parser_init`, with `parser_convert`. */
  method BuildTables(root: Option<Argp>, inOrder: bool, noArgs: bool) returns (p: Converter, z: ParserSizes)
    ensures p.Valid() && WellLinked(p.groups, p.slotsEnd)
    ensures TablesFit(p, z, !noArgs || (root.Some? && !AllThree(root.value)))
    ensures root.None? ==> p.shorts == Prefix(inOrder, noArgs) && p.asked == [] && p.groups == []
    ensures root.Some? ==>
              && p.shorts == Prefix(inOrder, noArgs) + ShortsOf(root.value)
              && p.asked == LongsOf(root.value, 0)
              && p.groups == GroupsOf(root.value, [], None, 0, Fill(0, |Prefix(inOrder, noArgs)|, 0))
  {
    z := new ParserSizes(if noArgs then 0 else 1);
    p := new Converter(Prefix(inOrder, noArgs));
    if root.Some? {
      FillTables(root.value, p, z);
      ShortRoom(root.value, inOrder, noArgs);
      CountsSuffice(root.value, 0);
      TreeWellLinked(root.value, |Prefix(inOrder, noArgs)|);
    }
  }
}
