/** The groups of a parser against the tree of argps: one group for every argp with options or a
    parsing function, parents before children, each with the group of its parent argp. */
module GroupLaws {
  import opened Wrappers
  import opened ArgpTypes
  import opened ParserTables
  import opened TreePlaces

  /** The place above. */
  function Up(p: seq<nat>): seq<nat>
    requires p != []
  {
    p[..|p| - 1]
  }

  /** Group G belongs to the argp B at place P below AT. */
  predicate GroupOf(g: Group, b: Argp, at: seq<nat>, p: seq<nat>) {
    HasGroup(b) && g.argp == at + p && g.hasParser == b.hasParser && g.slotCount == |b.children|
  }

  /** The parent of a group at place P, not the root: the group of the argp above, if that has one.
      BASE is the number of the first of the groups GS. */
  predicate HasParent(g: Group, above: Argp, at: seq<nat>, p: seq<nat>, gs: seq<Group>, base: nat)
    requires p != []
  {
    && g.parentIndex == p[|p| - 1]
    && if HasGroup(above) then g.parent.Some? && base <= g.parent.value < base + |gs| && gs[g.parent.value - base].argp == at + Up(p)
       else g.parent.None?
  }

  /** Group K of GS, the groups of the tree at AT, is that of place P and hangs where it should;
      the root hangs at child INDEX of PARENT. */
  predicate PlacedAt(a: Argp, at: seq<nat>, parent: Option<nat>, index: nat, gs: seq<Group>, base: nat, k: nat, p: seq<nat>) {
    && IsPlace(a, p) && k < |gs| && GroupOf(gs[k], ArgpAt(a, p), at, p)
    && (p == [] ==> gs[k].parent == parent && gs[k].parentIndex == index)
    && (p != [] ==> IsPlace(a, Up(p)) && HasParent(gs[k], ArgpAt(a, Up(p)), at, p, gs, base))
  }

  // ----- The trees of a list of children, the first of which has number I -----

  predicate IsPlaceAmong(cs: seq<Child>, i: nat, p: seq<nat>) {
    p != [] && i <= p[0] < i + |cs| && IsPlace(cs[p[0] - i].argp, p[1..])
  }

  function ArgpAmong(cs: seq<Child>, i: nat, p: seq<nat>): Argp
    requires IsPlaceAmong(cs, i, p)
  {
    ArgpAt(cs[p[0] - i].argp, p[1..])
  }

  predicate PlacedAmong(cs: seq<Child>, at: seq<nat>, i: nat, parent: Option<nat>, gs: seq<Group>, base: nat, k: nat, p: seq<nat>) {
    && IsPlaceAmong(cs, i, p) && k < |gs| && GroupOf(gs[k], ArgpAmong(cs, i, p), at, p)
    && (|p| == 1 ==> gs[k].parent == parent && gs[k].parentIndex == p[0])
    && (|p| > 1 ==> IsPlaceAmong(cs, i, Up(p)) && HasParent(gs[k], ArgpAmong(cs, i, Up(p)), at, p, gs, base))
  }

  lemma FirstPlaced(all: seq<Group>, cs: seq<Child>, at: seq<nat>, i: nat, parent: Option<nat>, gs: seq<Group>, hs: seq<Group>, base: nat,
                    k: nat, p: seq<nat>)
    requires all == gs + hs && cs != [] && PlacedAt(cs[0].argp, at + [i], parent, i, gs, base, k, p)
    ensures PlacedAmong(cs, at, i, parent, all, base, k, [i] + p)
  {
    var q := [i] + p;
    assert q[1..] == p && at + [i] + p == at + q;
    if p != [] {
      assert Up(q) == [i] + Up(p) && Up(q)[1..] == Up(p);
      assert at + [i] + Up(p) == at + Up(q);
    }
  }

  lemma RestPlaced(all: seq<Group>, cs: seq<Child>, at: seq<nat>, i: nat, parent: Option<nat>, gs: seq<Group>, hs: seq<Group>, base: nat,
                   next: nat, k: nat, m: nat, p: seq<nat>)
    requires all == gs + hs && cs != [] && next == base + |gs| && k == |gs| + m
    requires PlacedAmong(cs[1..], at, i + 1, parent, hs, next, m, p)
    ensures PlacedAmong(cs, at, i, parent, all, base, k, p)
  {
    assert cs[p[0] - i] == cs[1..][p[0] - (i + 1)];
  }

  lemma BelowPlaced(all: seq<Group>, a: Argp, at: seq<nat>, parent: Option<nat>, index: nat, own: seq<Group>, hs: seq<Group>, base: nat,
                    above: Option<nat>, next: nat, k: nat, m: nat, p: seq<nat>)
    requires all == own + hs && |own| == OwnCount(a) && (HasGroup(a) ==> own[0].argp == at)
    requires above == (if HasGroup(a) then Some(base) else None) && next == base + |own| && k == |own| + m
    requires PlacedAmong(a.children, at, 0, above, hs, next, m, p)
    ensures PlacedAt(a, at, parent, index, all, base, k, p)
  {
    assert at + [] == at;
    if |p| == 1 {
      assert Up(p) == [];
    } else {
      assert ArgpAt(a, Up(p)) == ArgpAmong(a.children, 0, Up(p));
    }
  }

  lemma OwnPlaced(all: seq<Group>, a: Argp, at: seq<nat>, parent: Option<nat>, index: nat, f: Fill)
    requires HasGroup(a) && OwnGroup(a, at, parent, index, f) <= all
    ensures PlacedAt(a, at, parent, index, all, f.groups, 0, [])
  {
    assert all[0] == OwnGroup(a, at, parent, index, f)[0];
    assert at + [] == at;
  }

  /** Every group is that of an argp with options or a parsing function, and its parent is the
      group of the argp above, if that has one. */
  lemma {:induction false} GroupPlaced(a: Argp, at: seq<nat>, parent: Option<nat>, index: nat, f: Fill, k: nat) returns (p: seq<nat>)
    requires k < |GroupsOf(a, at, parent, index, f)|
    ensures PlacedAt(a, at, parent, index, GroupsOf(a, at, parent, index, f), f.groups, k, p)
    decreases a, 1
  {
    var own := OwnGroup(a, at, parent, index, f);
    if k < |own| {
      p := [];
      OwnPlaced(GroupsOf(a, at, parent, index, f), a, at, parent, index, f);
    } else {
      var above, next, m := ParentFor(a, f), AfterOwn(a, f), k - |own|;
      var hs := GroupsOfAll(a.children, at, 0, above, next);
      p := GroupPlacedAmong(a.children, at, 0, above, next, m);
      BelowPlaced(GroupsOf(a, at, parent, index, f), a, at, parent, index, own, hs, f.groups, above, next.groups, k, m, p);
    }
  }

  lemma {:induction false} GroupPlacedAmong(cs: seq<Child>, at: seq<nat>, i: nat, parent: Option<nat>, f: Fill, k: nat) returns (p: seq<nat>)
    requires k < |GroupsOfAll(cs, at, i, parent, f)|
    ensures PlacedAmong(cs, at, i, parent, GroupsOfAll(cs, at, i, parent, f), f.groups, k, p)
    decreases cs, 0
  {
    assert cs decreases to cs[0];
    var gs, next := GroupsOf(cs[0].argp, at + [i], parent, i, f), After(cs[0].argp, f);
    var hs := GroupsOfAll(cs[1..], at, i + 1, parent, next);
    GroupsCounted(cs[0].argp, at + [i], parent, i, f);
    if k < |gs| {
      var q := GroupPlaced(cs[0].argp, at + [i], parent, i, f, k);
      FirstPlaced(GroupsOfAll(cs, at, i, parent, f), cs, at, i, parent, gs, hs, f.groups, k, q);
      p := [i] + q;
    } else {
      var m := k - |gs|;
      p := GroupPlacedAmong(cs[1..], at, i + 1, parent, next, m);
      RestPlaced(GroupsOfAll(cs, at, i, parent, f), cs, at, i, parent, gs, hs, f.groups, next.groups, k, m, p);
    }
  }

  lemma {:induction false} GroupsCounted(a: Argp, at: seq<nat>, parent: Option<nat>, index: nat, f: Fill)
    ensures |GroupsOf(a, at, parent, index, f)| == GroupCount(a)
    decreases a, 1
  {
    GroupsCountedAll(a.children, at, 0, ParentFor(a, f), AfterOwn(a, f));
  }

  lemma {:induction false} GroupsCountedAll(cs: seq<Child>, at: seq<nat>, i: nat, parent: Option<nat>, f: Fill)
    ensures |GroupsOfAll(cs, at, i, parent, f)| == GroupCountAll(cs)
    decreases cs, 0
  {
    if cs != [] {
      assert cs decreases to cs[0];
      GroupsCounted(cs[0].argp, at + [i], parent, i, f);
      GroupsCountedAll(cs[1..], at, i + 1, parent, After(cs[0].argp, f));
    }
  }

  // ----- Every argp, in preorder -----

  /** Every argp with options or a parsing function has a group. */
  lemma {:induction false} GroupFound(a: Argp, at: seq<nat>, parent: Option<nat>, index: nat, f: Fill, p: seq<nat>) returns (k: nat)
    requires IsPlace(a, p) && HasGroup(ArgpAt(a, p))
    ensures k < |GroupsOf(a, at, parent, index, f)| && GroupsOf(a, at, parent, index, f)[k].argp == at + p
    decreases a, 1
  {
    var own, above, next := OwnGroup(a, at, parent, index, f), ParentFor(a, f), AfterOwn(a, f);
    if p == [] {
      k := 0;
      assert at + [] == at;
    } else {
      var m := GroupFoundAmong(a.children, at, 0, above, next, p);
      k := |own| + m;
      InSecond(own, GroupsOfAll(a.children, at, 0, above, next), m, GroupsOf(a, at, parent, index, f));
    }
  }

  lemma {:induction false} GroupFoundAmong(cs: seq<Child>, at: seq<nat>, i: nat, parent: Option<nat>, f: Fill, p: seq<nat>) returns (k: nat)
    requires IsPlaceAmong(cs, i, p) && HasGroup(ArgpAmong(cs, i, p))
    ensures k < |GroupsOfAll(cs, at, i, parent, f)| && GroupsOfAll(cs, at, i, parent, f)[k].argp == at + p
    decreases cs, 0
  {
    assert cs decreases to cs[0];
    var gs, next := GroupsOf(cs[0].argp, at + [i], parent, i, f), After(cs[0].argp, f);
    if p[0] == i {
      k := GroupFound(cs[0].argp, at + [i], parent, i, f, p[1..]);
      assert at + [i] + p[1..] == at + p;
    } else {
      var m := GroupFoundAmong(cs[1..], at, i + 1, parent, next, p);
      k := |gs| + m;
      InSecond(gs, GroupsOfAll(cs[1..], at, i + 1, parent, next), m, GroupsOfAll(cs, at, i, parent, f));
    }
  }

  lemma InSecond(gs: seq<Group>, hs: seq<Group>, m: nat, all: seq<Group>)
    requires all == gs + hs && m < |hs|
    ensures all[|gs| + m] == hs[m]
  {}

  lemma RootBefore(a: Argp, at: seq<nat>, f: Fill, k: nat)
    requires k < |GroupsOfAll(a.children, at, 0, ParentFor(a, f), AfterOwn(a, f))|
    ensures Before(at, GroupsOfAll(a.children, at, 0, ParentFor(a, f), AfterOwn(a, f))[k].argp)
  {
    var p := GroupPlacedAmong(a.children, at, 0, ParentFor(a, f), AfterOwn(a, f), k);
    assert at + [] == at;
    BeforeBelow(at, [], p);
  }

  lemma ChildrenBefore(cs: seq<Child>, at: seq<nat>, i: nat, parent: Option<nat>, f: Fill, next: Fill, j: nat, k: nat)
    requires cs != [] && j < |GroupsOf(cs[0].argp, at + [i], parent, i, f)| && k < |GroupsOfAll(cs[1..], at, i + 1, parent, next)|
    ensures Before(GroupsOf(cs[0].argp, at + [i], parent, i, f)[j].argp, GroupsOfAll(cs[1..], at, i + 1, parent, next)[k].argp)
  {
    var p := GroupPlaced(cs[0].argp, at + [i], parent, i, f, j);
    var q := GroupPlacedAmong(cs[1..], at, i + 1, parent, next, k);
    LowerChildBefore(at, i, p, q);
  }

  /** The groups stand in the order of the places of their argps. */
  lemma {:induction false} GroupsInPreorder(a: Argp, at: seq<nat>, parent: Option<nat>, index: nat, f: Fill, j: nat, k: nat)
    requires j < k < |GroupsOf(a, at, parent, index, f)|
    ensures var gs := GroupsOf(a, at, parent, index, f); Before(gs[j].argp, gs[k].argp)
    decreases a, 1
  {
    var own, above, next := OwnGroup(a, at, parent, index, f), ParentFor(a, f), AfterOwn(a, f);
    var hs := GroupsOfAll(a.children, at, 0, above, next);
    var m := k - |own|;
    assert GroupsOf(a, at, parent, index, f)[k] == hs[m];
    if j < |own| {
      RootBefore(a, at, f, m);
    } else {
      var n := j - |own|;
      assert GroupsOf(a, at, parent, index, f)[j] == hs[n];
      GroupsInPreorderAmong(a.children, at, 0, above, next, n, m);
    }
  }

  lemma {:induction false} GroupsInPreorderAmong(cs: seq<Child>, at: seq<nat>, i: nat, parent: Option<nat>, f: Fill, j: nat, k: nat)
    requires j < k < |GroupsOfAll(cs, at, i, parent, f)|
    ensures var gs := GroupsOfAll(cs, at, i, parent, f); Before(gs[j].argp, gs[k].argp)
    decreases cs, 0
  {
    assert cs decreases to cs[0];
    var c, next := cs[0].argp, After(cs[0].argp, f);
    var n := |GroupsOf(c, at + [i], parent, i, f)|;
    if k < n {
      GroupsInPreorder(c, at + [i], parent, i, f, j, k);
    } else if j < n {
      ChildrenBefore(cs, at, i, parent, f, next, j, k - n);
    } else {
      GroupsInPreorderAmong(cs[1..], at, i + 1, parent, next, j - n, k - n);
    }
  }

  /** No two groups are of the same argp. */
  lemma GroupsDistinct(a: Argp, shorts: nat, j: nat, k: nat)
    requires var gs := GroupsOf(a, [], None, 0, Fill(0, shorts, 0)); j < |gs| && k < |gs| && gs[j].argp == gs[k].argp
    ensures j == k
  {
    var gs := GroupsOf(a, [], None, 0, Fill(0, shorts, 0));
    if j < k {
      GroupsInPreorder(a, [], None, 0, Fill(0, shorts, 0), j, k);
      OneBefore(gs[j].argp, gs[k].argp);
    } else if k < j {
      GroupsInPreorder(a, [], None, 0, Fill(0, shorts, 0), k, j);
      OneBefore(gs[k].argp, gs[j].argp);
    }
  }
}
