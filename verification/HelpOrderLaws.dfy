/** The rules of the help order, one by one, as an author of options would state them: which of two
    entries comes first.  They speak of the comparison and of the entries only, not of the sort
    key that the comparison is shown to follow. */
module HelpOrderLaws {
  import opened Wrappers
  import opened ArgpTypes
  import opened Lexicographic
  import opened HelpOrder

  // ----- Groups and clusters -----

  /** 0, 1, 2, ..., n, -m, ..., -2, -1. */
  predicate GroupBefore(g: int, h: int) { 0 <= g < h || g < h < 0 || h < 0 <= g }

  /** Outside clusters the group number decides before everything else. */
  lemma GroupsInOrder(l: Locale, e1: Entry, e2: Entry)
    requires ValidEntry(e1) && ValidEntry(e2) && e1.cluster.None? && e2.cluster.None? && GroupBefore(e1.group, e2.group)
    ensures EntryCmp(l, e1, e2) < 0 < EntryCmp(l, e2, e1)
  {}

  lemma {:induction false} BaseIsAncestor(c: Cluster)
    requires WellFormed(c)
    ensures Base(c) == Ancestor(c, 0)
  {
    if c.parent.Some? {
      BaseIsAncestor(c.parent.value);
    }
  }

  /** The group that counts for an entry: that of its outermost cluster, if it is in one. */
  function OuterGroup(e: Entry): int
    requires ValidEntry(e)
  {
    if e.cluster.Some? then Ancestor(e.cluster.value, 0).group else e.group
  }

  /** Entries of different outer groups, and entries outside clusters against entries inside. */
  lemma OuterGroupsInOrder(l: Locale, e1: Entry, e2: Entry)
    requires ValidEntry(e1) && ValidEntry(e2)
    requires || GroupBefore(OuterGroup(e1), OuterGroup(e2))
             || (OuterGroup(e1) == OuterGroup(e2) && e1.cluster.None? && e2.cluster.Some?)
    ensures EntryCmp(l, e1, e2) < 0
  {
    if e1.cluster.Some? {
      BaseIsAncestor(e1.cluster.value);
    }
    if e2.cluster.Some? {
      BaseIsAncestor(e2.cluster.value);
    }
  }

  /** Of two clusters with the same parent, the one with the earlier group comes first, and within
      a group the one with the higher index. */
  predicate SiblingBefore(c1: Cluster, c2: Cluster) {
    c1.parent == c2.parent && (GroupBefore(c1.group, c2.group) || (c1.group == c2.group && c1.index > c2.index))
  }

  lemma {:induction false} CousinsBelow(c1: Cluster, c2: Cluster, depth: nat)
    requires WellFormed(c1) && WellFormed(c2) && depth <= c1.depth == c2.depth
    requires SiblingBefore(Ancestor(c1, depth), Ancestor(c2, depth))
    ensures CousinCmp(c1, c2) < 0
    decreases c1
  {
    if depth < c1.depth {
      CousinsBelow(c1.parent.value, c2.parent.value, depth);
    }
  }

  lemma {:induction false} AncestorTwice(c: Cluster, middle: nat, depth: nat)
    requires WellFormed(c) && depth <= middle <= c.depth
    ensures Ancestor(Ancestor(c, middle), depth) == Ancestor(c, depth)
  {
    if middle < c.depth {
      AncestorTwice(c.parent.value, middle, depth);
    }
  }

  /** Everything in or below one of two sibling clusters stands before everything in or below the
      other. */
  lemma SiblingsInOrder(l: Locale, e1: Entry, e2: Entry, depth: nat)
    requires ValidEntry(e1) && ValidEntry(e2) && e1.cluster.Some? && e2.cluster.Some?
    requires depth <= e1.cluster.value.depth && depth <= e2.cluster.value.depth
    requires SiblingBefore(Ancestor(e1.cluster.value, depth), Ancestor(e2.cluster.value, depth))
    ensures EntryCmp(l, e1, e2) < 0
  {
    var c1, c2 := e1.cluster.value, e2.cluster.value;
    var d := if c1.depth < c2.depth then c1.depth else c2.depth;
    AncestorTwice(c1, d, depth);
    AncestorTwice(c2, d, depth);
    CousinsBelow(Ancestor(c1, d), Ancestor(c2, d), depth);
    BasesOfSiblings(c1, c2, depth);
  }

  lemma BasesOfSiblings(c1: Cluster, c2: Cluster, depth: nat)
    requires WellFormed(c1) && WellFormed(c2) && depth <= c1.depth && depth <= c2.depth
    requires SiblingBefore(Ancestor(c1, depth), Ancestor(c2, depth))
    ensures GroupCmp(Base(c1).group, Base(c2).group) <= 0
  {
    AncestorTwice(c1, depth, 0);
    AncestorTwice(c2, depth, 0);
    BaseIsAncestor(c1);
    BaseIsAncestor(c2);
    if depth > 0 {
      AncestorTwice(Ancestor(c1, depth), depth - 1, 0);
      AncestorTwice(Ancestor(c2, depth), depth - 1, 0);
    }
  }

  /** In one cluster the entries' own groups decide. */
  lemma GroupsInCluster(l: Locale, e1: Entry, e2: Entry)
    requires ValidEntry(e1) && ValidEntry(e2) && e1.cluster == e2.cluster && GroupBefore(e1.group, e2.group)
    ensures EntryCmp(l, e1, e2) < 0
  {
    SameClusterCmp(l, e1, e2);
  }

  lemma SameClusterCmp(l: Locale, e1: Entry, e2: Entry)
    requires ValidEntry(e1) && ValidEntry(e2) && e1.cluster == e2.cluster
    ensures e1.cluster.Some? ==> EntryCmp(l, e1, e2) == Then(GroupCmp(e1.group, e2.group), NameCmp(l, e1, e2))
    ensures e1.group == e2.group ==> EntryCmp(l, e1, e2) == NameCmp(l, e1, e2)
  {
    if e1.cluster.Some? {
      var c := e1.cluster.value;
      LexZero(Path(c), Path(c));
      CousinLex(c, c);
    }
  }

  // ----- Names -----

  /** Two entries between which only their names decide. */
  predicate Together(e1: Entry, e2: Entry) { e1.cluster == e2.cluster && e1.group == e2.group }

  predicate Named(o: Opt) { o.name.Some? && !o.hidden }

  /** Option I is the first with a visible long name. */
  ghost predicate FirstNamed(opts: seq<Opt>, i: nat) {
    i < |opts| && Named(opts[i]) && forall j: nat | j < i :: !Named(opts[j])
  }

  lemma {:induction false} FirstLongIs(opts: seq<Opt>)
    ensures FirstLong(opts).None? ==> forall i: nat | i < |opts| :: !Named(opts[i])
    ensures forall i: nat | FirstNamed(opts, i) :: FirstLong(opts) == opts[i].name
    ensures FirstLong(opts).Some? ==> exists i: nat :: FirstNamed(opts, i)
  {
    if opts != [] {
      FirstLongIs(opts[1..]);
      if Named(opts[0]) {
        assert FirstNamed(opts, 0);
      } else {
        forall i: nat | FirstNamed(opts, i)
          ensures FirstLong(opts) == opts[i].name
        {
          assert FirstNamed(opts[1..], i - 1);
        }
        if i: nat :| FirstNamed(opts[1..], i) {
          assert opts[i + 1] == opts[1..][i];
          assert FirstNamed(opts, i + 1);
        }
      }
    }
  }

  /** The first K characters are white space, and the next is not. */
  ghost predicate Blank(l: Locale, s: CStr, k: nat) {
    k <= |s| && (forall j: nat | j < k :: l.space(s[j])) && (k < |s| ==> !l.space(s[k]))
  }

  lemma {:induction false} SkipSpaceIs(l: Locale, s: CStr) returns (k: nat)
    ensures Blank(l, s, k) && SkipSpace(l, s) == s[k..]
  {
    if s != [] && l.space(s[0]) {
      var m := SkipSpaceIs(l, s[1..]);
      k := m + 1;
      forall j: nat | j < k
        ensures l.space(s[j])
      {
        if j > 0 {
          assert s[j] == s[1..][j - 1];
        }
      }
    } else {
      k := 0;
    }
  }

  lemma OneBlank(l: Locale, s: CStr, j: nat, k: nat)
    requires Blank(l, s, j) && Blank(l, s, k)
    ensures j == k
  {}

  /** The first option is documentation, and its name, behind white space, does not begin with a
      dash. */
  ghost predicate Prose(l: Locale, e: Entry)
    requires e.opts != []
  {
    e.opts[0].doc && exists i: nat, k: nat :: FirstNamed(e.opts, i) && Undashed(l, e.opts[i].name.value, k)
  }

  ghost predicate Undashed(l: Locale, s: CStr, k: nat) { Blank(l, s, k) && (k < |s| ==> s[k] != '-' as int) }

  lemma ProseIsDoc(l: Locale, e: Entry)
    requires e.opts != []
    ensures DocFlag(l, e) == if Prose(l, e) then 1 else 0
  {
    FirstLongIs(e.opts);
    if FirstLong(e.opts).Some? {
      var s := FirstLong(e.opts).value;
      var i: nat :| FirstNamed(e.opts, i);
      var k := SkipSpaceIs(l, s);
      if LooksLikeNoOption(l, s) {
        assert Undashed(l, e.opts[i].name.value, k);
      }
      forall j: nat, m: nat | FirstNamed(e.opts, j) && Undashed(l, e.opts[j].name.value, m)
        ensures LooksLikeNoOption(l, s)
      {
        OneBlank(l, s, k, m);
      }
    }
  }

  /** Documentation that does not look like an option follows everything else of its group and
      cluster. */
  lemma ProseLast(l: Locale, e1: Entry, e2: Entry)
    requires ValidEntry(e1) && ValidEntry(e2) && Together(e1, e2) && !Prose(l, e1) && Prose(l, e2)
    ensures EntryCmp(l, e1, e2) < 0 < EntryCmp(l, e2, e1)
  {
    SameClusterCmp(l, e1, e2);
    SameClusterCmp(l, e2, e1);
    ProseIsDoc(l, e1);
    ProseIsDoc(l, e2);
  }

  /** The keys of the short options, in order. */
  function ShortKeys(opts: seq<Opt>): seq<int> {
    if opts == [] then [] else (if opts[0].IsShort() then [opts[0].key] else []) + ShortKeys(opts[1..])
  }

  predicate Shown(o: Opt) { o.IsShort() && !o.hidden }

  /** When the packed string confirms all short options of an entry, as it does unless an option
      before uses one of them, the first visible one counts. */
  lemma {:induction false} FirstShortIs(opts: seq<Opt>, shorts: seq<int>)
    requires ShortKeys(opts) <= shorts
    ensures FirstShort(opts, shorts) == 0 <==> forall i: nat | i < |opts| :: !Shown(opts[i])
    ensures forall i: nat | i < |opts| && Shown(opts[i]) && (forall j: nat | j < i :: !Shown(opts[j])) ::
              FirstShort(opts, shorts) == opts[i].key
  {
    if opts != [] {
      var rest := if opts[0].IsShort() then shorts[1..] else shorts;
      assert opts[0].IsShort() ==> shorts[0] == ShortKeys(opts)[0];
      assert ShortKeys(opts[1..]) <= rest;
      FirstShortIs(opts[1..], rest);
      if !Shown(opts[0]) {
        assert forall i: nat | 0 < i < |opts| :: opts[i] == opts[1..][i - 1];
        forall i: nat | i < |opts| && Shown(opts[i]) && (forall j: nat | j < i :: !Shown(opts[j]))
          ensures FirstShort(opts, shorts) == opts[i].key
        {
          assert opts[1..][i - 1] == opts[i];
        }
      }
    }
  }

  /** A short option counts only when it is a visible one of the entry and in the packed string. */
  lemma {:induction false} FirstShortFound(opts: seq<Opt>, shorts: seq<int>)
    requires FirstShort(opts, shorts) != 0
    ensures FirstShort(opts, shorts) in shorts && exists i: nat | i < |opts| :: Shown(opts[i]) && opts[i].key == FirstShort(opts, shorts)
  {
    if opts[0].IsShort() && shorts != [] && shorts[0] == opts[0].key {
      if opts[0].hidden {
        FirstShortFound(opts[1..], shorts[1..]);
        var i: nat :| i < |opts[1..]| && Shown(opts[1..][i]) && opts[1..][i].key == FirstShort(opts, shorts);
        assert Shown(opts[i + 1]);
      } else {
        assert Shown(opts[0]);
      }
    } else {
      FirstShortFound(opts[1..], shorts);
      var i: nat :| i < |opts[1..]| && Shown(opts[1..][i]) && opts[1..][i].key == FirstShort(opts, shorts);
      assert Shown(opts[i + 1]);
    }
  }

  /** The name by which an entry is sorted: its first visible long name, and of the name of a
      documentation entry the part from the first letter or digit behind white space on. */
  ghost predicate SortedAs(l: Locale, e: Entry, name: CStr)
    requires e.opts != []
  {
    exists i: nat :: FirstNamed(e.opts, i) &&
      if e.opts[0].doc then exists k: nat :: TailFrom(l, e.opts[i].name.value, k) && name == e.opts[i].name.value[k..]
      else name == e.opts[i].name.value
  }

  ghost predicate TailFrom(l: Locale, s: CStr, k: nat) {
    && k <= |s| && (k < |s| ==> l.alnum(s[k]))
    && exists j: nat | j <= k :: Blank(l, s, j) && forall m: nat | j <= m < k :: !l.alnum(s[m])
  }

  lemma {:induction false} SkipPunctuationIs(l: Locale, s: CStr) returns (k: nat)
    ensures k <= |s| && SkipPunctuation(l, s) == s[k..] && (k < |s| ==> l.alnum(s[k])) && forall m: nat | m < k :: !l.alnum(s[m])
  {
    if s != [] && !l.alnum(s[0]) {
      var n := SkipPunctuationIs(l, s[1..]);
      k := n + 1;
      forall m: nat | m < k
        ensures !l.alnum(s[m])
      {
        if m > 0 {
          assert s[m] == s[1..][m - 1];
        }
      }
    } else {
      k := 0;
    }
  }

  lemma SortNameIs(l: Locale, e: Entry)
    requires e.opts != []
    ensures SortName(l, e).None? <==> forall i: nat | i < |e.opts| :: !Named(e.opts[i])
    ensures SortName(l, e).Some? ==> SortedAs(l, e, SortName(l, e).value)
  {
    FirstLongIs(e.opts);
    if FirstLong(e.opts).Some? {
      var i: nat :| FirstNamed(e.opts, i);
      var s := e.opts[i].name.value;
      if e.opts[0].doc {
        var j := SkipSpaceIs(l, s);
        var k := SkipPunctuationIs(l, s[j..]);
        assert s[j..][k..] == s[j + k..];
        forall m: nat | j <= m < j + k
          ensures !l.alnum(s[m])
        {
          assert s[m] == s[j..][m - j];
        }
        assert TailFrom(l, s, j + k);
      }
    }
  }

  /** The letter of an entry: its short option, else the first character of its name. */
  predicate Lettered(l: Locale, e: Entry, c: int)
    requires e.opts != []
  {
    var short, name := FirstShort(e.opts, e.shorts), SortName(l, e);
    c == if short != 0 then short else if name.Some? && name.value != [] then name.value[0] else 0
  }

  /** The letters decide regardless of case, then the lower-case letter comes first, being the
      higher character. */
  lemma LettersInOrder(l: Locale, e1: Entry, e2: Entry, c1: int, c2: int)
    requires ValidEntry(e1) && ValidEntry(e2) && Together(e1, e2) && (Prose(l, e1) <==> Prose(l, e2))
    requires Lettered(l, e1, c1) && Lettered(l, e2, c2)
    requires l.lower(c1) < l.lower(c2) || (l.lower(c1) == l.lower(c2) && c1 > c2)
    ensures EntryCmp(l, e1, e2) < 0
  {
    SameClusterCmp(l, e1, e2);
    ProseIsDoc(l, e1);
    ProseIsDoc(l, e2);
  }

  /** A precedes B in the case-insensitive order: they agree before place K, where A ends or has
      the smaller character. */
  ghost predicate CaseBefore(l: Locale, a: CStr, b: CStr, k: nat) {
    && k <= |a| && k < |b| && (forall j: nat | j < k :: l.lower(a[j]) == l.lower(b[j]))
    && (k == |a| || l.lower(a[k]) < l.lower(b[k]))
  }

  lemma {:induction false} CaseCmpNegative(l: Locale, a: CStr, b: CStr, k: nat)
    requires Sane(l) && Positive(b) && CaseBefore(l, a, b, k)
    ensures StrCaseCmp(l, a, b) < 0
  {
    if k > 0 {
      assert l.lower(a[0]) == l.lower(b[0]);
      assert forall j: nat | j < k - 1 :: a[1..][j] == a[j + 1] && b[1..][j] == b[j + 1];
      CaseCmpNegative(l, a[1..], b[1..], k - 1);
    }
  }

  /** Entries with the same letter: one without a short option comes before one with it, of two
      without the one without a name, and then the names decide.  Two with the same short option
      are not ordered. */
  lemma SameLetter(l: Locale, e1: Entry, e2: Entry, c: int, k: nat)
    requires Sane(l) && ValidEntry(e1) && ValidEntry(e2) && Together(e1, e2) && (Prose(l, e1) <==> Prose(l, e2))
    requires Lettered(l, e1, c) && Lettered(l, e2, c)
    ensures var short1, short2 := FirstShort(e1.opts, e1.shorts) != 0, FirstShort(e2.opts, e2.shorts) != 0;
            var name1, name2 := SortName(l, e1), SortName(l, e2);
            && (!short1 && short2 ==> EntryCmp(l, e1, e2) < 0)
            && (short1 && short2 ==> EntryCmp(l, e1, e2) == 0)
            && (!short1 && !short2 && name1.None? && name2.Some? ==> EntryCmp(l, e1, e2) < 0)
            && (!short1 && !short2 && name1.Some? && name2.Some? && CaseBefore(l, name1.value, name2.value, k) ==>
                  EntryCmp(l, e1, e2) < 0)
  {
    SameClusterCmp(l, e1, e2);
    ProseIsDoc(l, e1);
    ProseIsDoc(l, e2);
    SortNamePositive(l, e2);
    var name1, name2 := SortName(l, e1), SortName(l, e2);
    if name1.Some? && name2.Some? && CaseBefore(l, name1.value, name2.value, k) {
      CaseCmpNegative(l, name1.value, name2.value, k);
    }
  }
}
