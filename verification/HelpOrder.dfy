/** The order of help entries: `hol_entry_cmp` and the cluster comparisons it uses. */
module HelpOrder {
  import opened Wrappers
  import opened ArgpTypes
  import opened Lexicographic

  /** A `hol_cluster`; ID, the place of its argp in the argp tree, stands for its address. */
  datatype Cluster = Cluster(id: seq<nat>, group: int, index: int, depth: nat, parent: Option<Cluster>)

  /** As `hol_add_cluster` builds them. */
  ghost predicate WellFormed(c: Cluster) {
    match c.parent
    case None => c.depth == 0
    case Some(p) => c.depth == p.depth + 1 && WellFormed(p)
  }

  /** A `hol_entry`: its options, the packed short options from its own pointer on, its group
      and its cluster. */
  datatype Entry = Entry(opts: seq<Opt>, shorts: seq<int>, group: int, cluster: Option<Cluster>)

  /** The character classification of the current locale. */
  datatype Locale = Locale(lower: int -> int, space: int -> bool, alnum: int -> bool)

  ghost predicate Sane(l: Locale) { forall c :: 0 < c ==> l.lower(c) > 0 }

  ghost predicate Names(e: Entry) {
    forall i, j | 0 <= i < |e.opts| && e.opts[i].name.Some? && 0 <= j < |e.opts[i].name.value| :: e.opts[i].name.value[j] > 0
  }

  /** An entry as `make_hol` builds them, in a well-formed cluster or in none. */
  ghost predicate ValidEntry(e: Entry) {
    e.opts != [] && Names(e) && (e.cluster.Some? ==> WellFormed(e.cluster.value))
  }

  // ----- The comparisons -----

  /** 0, 1, 2, ..., n, -m, ..., -2, -1. */
  function GroupCmp(group1: int, group2: int): int {
    if (group1 < 0 && group2 < 0) || (group1 >= 0 && group2 >= 0) then group1 - group2 else group2 - group1
  }

  /** `cmp = a; if (cmp != 0) return cmp; ... return b`. */
  function Then(a: int, b: int): int { if a != 0 then a else b }

  function SiblingCmp(c1: Cluster, c2: Cluster): int {
    Then(GroupCmp(c1.group, c2.group), c2.index - c1.index)
  }

  function CousinCmp(c1: Cluster, c2: Cluster): int
    requires WellFormed(c1) && WellFormed(c2) && c1.depth == c2.depth
    decreases c1
  {
    if c1.parent == c2.parent then SiblingCmp(c1, c2)
    else Then(CousinCmp(c1.parent.value, c2.parent.value), Then(GroupCmp(c1.group, c2.group), c2.index - c1.index))
  }

  /** The ancestor at the given depth. */
  function Ancestor(c: Cluster, depth: nat): (a: Cluster)
    requires WellFormed(c) && depth <= c.depth
    ensures WellFormed(a) && a.depth == depth
  {
    if c.depth == depth then c else Ancestor(c.parent.value, depth)
  }

  function ClusterCmp(c1: Cluster, c2: Cluster): int
    requires WellFormed(c1) && WellFormed(c2)
  {
    if c1.depth > c2.depth then Then(CousinCmp(Ancestor(c1, c2.depth), c2), 1)
    else if c1.depth < c2.depth then Then(CousinCmp(c1, Ancestor(c2, c1.depth)), -1)
    else CousinCmp(c1, c2)
  }

  function Base(c: Cluster): Cluster {
    if c.parent.None? then c else Base(c.parent.value)
  }

  /** `hol_entry_first_long`. */
  function FirstLong(opts: seq<Opt>): Option<CStr> {
    if opts == [] then None
    else if opts[0].name.Some? && !opts[0].hidden then opts[0].name
    else FirstLong(opts[1..])
  }

  /** `hol_entry_first_short`: the first visible short option that its packed string confirms. */
  function FirstShort(opts: seq<Opt>, shorts: seq<int>): int {
    if opts == [] then 0
    else if opts[0].IsShort() && shorts != [] && shorts[0] == opts[0].key then
      if opts[0].hidden then FirstShort(opts[1..], shorts[1..]) else opts[0].key
    else FirstShort(opts[1..], shorts)
  }

  function SkipSpace(l: Locale, s: CStr): CStr {
    if s != [] && l.space(s[0]) then SkipSpace(l, s[1..]) else s
  }

  function SkipPunctuation(l: Locale, s: CStr): CStr {
    if s != [] && !l.alnum(s[0]) then SkipPunctuation(l, s[1..]) else s
  }

  predicate LooksLikeNoOption(l: Locale, name: CStr) {
    var s := SkipSpace(l, name);
    s == [] || s[0] != '-' as int
  }

  /** The documentation test and the name used for sorting; `canon_doc_option` moves the name
      of a documentation entry. */
  function DocFlag(l: Locale, e: Entry): int
    requires e.opts != []
  {
    var long := FirstLong(e.opts);
    if e.opts[0].doc && long.Some? && LooksLikeNoOption(l, long.value) then 1 else 0
  }

  function SortName(l: Locale, e: Entry): Option<CStr>
    requires e.opts != []
  {
    var long := FirstLong(e.opts);
    if e.opts[0].doc && long.Some? then Some(SkipPunctuation(l, SkipSpace(l, long.value))) else long
  }

  function FirstChar(l: Locale, e: Entry): int
    requires e.opts != []
  {
    var short, long := FirstShort(e.opts, e.shorts), SortName(l, e);
    if short != 0 then short else if long.Some? && long.value != [] then long.value[0] else 0
  }

  function StrCaseCmp(l: Locale, a: CStr, b: CStr): int {
    if a == [] then (if b == [] then 0 else -l.lower(b[0]))
    else if b == [] then l.lower(a[0])
    else Then(l.lower(a[0]) - l.lower(b[0]), StrCaseCmp(l, a[1..], b[1..]))
  }

  function Bit(b: bool): int { if b then 1 else 0 }

  function BaseGroup(e: Entry): int {
    if e.cluster.Some? then Base(e.cluster.value).group else e.group
  }

  /** The comparison of two entries of the same group and cluster. */
  function NameCmp(l: Locale, e1: Entry, e2: Entry): int
    requires e1.opts != [] && e2.opts != []
  {
    var long1, long2 := SortName(l, e1), SortName(l, e2);
    var short1, short2 := FirstShort(e1.opts, e1.shorts), FirstShort(e2.opts, e2.shorts);
    var first1, first2 := FirstChar(l, e1), FirstChar(l, e2);
    Then(DocFlag(l, e1) - DocFlag(l, e2),
         Then(l.lower(first1) - l.lower(first2),
              Then(first2 - first1,
                   Then(Bit(short1 != 0) - Bit(short2 != 0),
                        if short1 != 0 then 0
                        else Then(Bit(long1.Some?) - Bit(long2.Some?),
                                  if long1.None? || long2.None? then 0 else StrCaseCmp(l, long1.value, long2.value))))))
  }

  /** `hol_entry_cmp`. */
  function EntryCmp(l: Locale, e1: Entry, e2: Entry): int
    requires ValidEntry(e1) && ValidEntry(e2)
  {
    Then(GroupCmp(BaseGroup(e1), BaseGroup(e2)),
         Then(Bit(e1.cluster.Some?) - Bit(e2.cluster.Some?),
              Then(if e1.cluster.Some? && e2.cluster.Some? then ClusterCmp(e1.cluster.value, e2.cluster.value) else 0,
                   Then(GroupCmp(e1.group, e2.group), NameCmp(l, e1, e2)))))
  }

  // ----- The sort key -----

  /** A group number as a pair that sorts in the documented order. */
  function GroupKey(group: int): seq<int> { [Bit(group < 0), group] }

  function ClusterKey(c: Cluster): seq<int> { [1] + GroupKey(c.group) + [-c.index] }

  /** The path from the root to a cluster. */
  function Path(c: Cluster): seq<int> {
    (if c.parent.None? then [] else Path(c.parent.value)) + ClusterKey(c)
  }

  function PathKey(c: Option<Cluster>): seq<int> {
    if c.None? then [] else Path(c.value)
  }

  function Folded(l: Locale, s: CStr): seq<int> {
    seq(|s|, i requires 0 <= i < |s| => l.lower(s[i]))
  }

  function NameKey(l: Locale, e: Entry): seq<int>
    requires e.opts != []
  {
    var short, long, first := FirstShort(e.opts, e.shorts), SortName(l, e), FirstChar(l, e);
    [DocFlag(l, e)] + ([l.lower(first)] + ([-first] + ([Bit(short != 0)] +
      if short != 0 then [] else [Bit(long.Some?)] + if long.Some? then Folded(l, long.value) else [])))
  }

  /** The key whose lexicographic order is the order of the help listing: the group of the base
      cluster, the path of clusters, the group, and the names. */
  function Key(l: Locale, e: Entry): seq<int>
    requires e.opts != []
  {
    GroupKey(BaseGroup(e)) + (PathKey(e.cluster) + ([0] + (GroupKey(e.group) + NameKey(l, e))))
  }

  // ----- Each stage compares as its part of the key -----

  lemma LexOne(x: int, y: int)
    ensures LexCmp([x], [y]) == Sign(x - y)
  {
    assert [x] == [x] + [] && [y] == [y] + [];
    LexHead(x, [], y, []);
  }

  lemma GroupLex(g: int, h: int)
    ensures LexCmp(GroupKey(g), GroupKey(h)) == Sign(GroupCmp(g, h))
  {
    assert GroupKey(g) == [Bit(g < 0)] + [g] && GroupKey(h) == [Bit(h < 0)] + [h];
    LexHead(Bit(g < 0), [g], Bit(h < 0), [h]);
    LexOne(g, h);
  }

  lemma SiblingLex(c1: Cluster, c2: Cluster)
    ensures LexCmp(ClusterKey(c1), ClusterKey(c2)) == Sign(SiblingCmp(c1, c2))
  {
    assert ClusterKey(c1) == [1] + (GroupKey(c1.group) + [-c1.index]);
    assert ClusterKey(c2) == [1] + (GroupKey(c2.group) + [-c2.index]);
    LexHead(1, GroupKey(c1.group) + [-c1.index], 1, GroupKey(c2.group) + [-c2.index]);
    LexAppend(GroupKey(c1.group), [-c1.index], GroupKey(c2.group), [-c2.index]);
    GroupLex(c1.group, c2.group);
    LexOne(-c1.index, -c2.index);
  }

  lemma {:induction false} PathLength(c: Cluster)
    requires WellFormed(c)
    ensures |Path(c)| == 4 * (c.depth + 1)
  {
    if c.parent.Some? {
      PathLength(c.parent.value);
    }
  }

  lemma {:induction false} CousinLex(c1: Cluster, c2: Cluster)
    requires WellFormed(c1) && WellFormed(c2) && c1.depth == c2.depth
    ensures LexCmp(Path(c1), Path(c2)) == Sign(CousinCmp(c1, c2))
    decreases c1
  {
    SiblingLex(c1, c2);
    if c1.parent.Some? {
      var p1, p2 := c1.parent.value, c2.parent.value;
      PathLength(p1);
      PathLength(p2);
      LexAppend(Path(p1), ClusterKey(c1), Path(p2), ClusterKey(c2));
      if p1 == p2 {
        LexZero(Path(p1), Path(p2));
      } else {
        CousinLex(p1, p2);
      }
    } else {
      assert Path(c1) == ClusterKey(c1) && Path(c2) == ClusterKey(c2);
    }
  }

  /** The path of an ancestor is a prefix, and a longer path goes on with 1. */
  lemma {:induction false} AncestorPath(c: Cluster, depth: nat)
    requires WellFormed(c) && depth <= c.depth
    ensures Path(Ancestor(c, depth)) <= Path(c)
    ensures depth < c.depth ==> Path(c)[|Path(Ancestor(c, depth))|..] != [] && Path(c)[|Path(Ancestor(c, depth))|] == 1
  {
    if depth < c.depth {
      var p := c.parent.value;
      AncestorPath(p, depth);
      assert Path(c)[|Path(p)|] == 1;
    }
  }

  lemma LongerLex(p: seq<int>, a: seq<int>, q: seq<int>, t1: seq<int>, t2: seq<int>)
    requires a <= p && |a| == |q| && |a| < |p| && p[|a|] == 1
    ensures LexCmp(p + ([0] + t1), q + ([0] + t2)) == if LexCmp(a, q) != 0 then LexCmp(a, q) else 1
  {
    var rest := p[|a| + 1..] + ([0] + t1);
    Regroup(p, a, [0] + t1);
    LexAppend(a, [1] + rest, q, [0] + t2);
    LexHead(1, rest, 0, t2);
  }

  lemma Regroup(p: seq<int>, a: seq<int>, t: seq<int>)
    requires a <= p && |a| < |p| && p[|a|] == 1
    ensures p + t == a + ([1] + (p[|a| + 1..] + t))
  {}

  /** A path that continues below another sorts after everything directly at the other. */
  lemma DeeperLex(c1: Cluster, c2: Cluster, t1: seq<int>, t2: seq<int>)
    requires WellFormed(c1) && WellFormed(c2) && c1.depth > c2.depth
    ensures LexCmp(Path(c1) + ([0] + t1), Path(c2) + ([0] + t2)) == Sign(Then(CousinCmp(Ancestor(c1, c2.depth), c2), 1))
  {
    var a := Ancestor(c1, c2.depth);
    AncestorPath(c1, c2.depth);
    PathLength(a);
    PathLength(c2);
    CousinLex(a, c2);
    LongerLex(Path(c1), Path(a), Path(c2), t1, t2);
  }

  lemma ClusterLex(c1: Cluster, c2: Cluster, t1: seq<int>, t2: seq<int>)
    requires WellFormed(c1) && WellFormed(c2)
    ensures LexCmp(Path(c1) + ([0] + t1), Path(c2) + ([0] + t2)) ==
            if ClusterCmp(c1, c2) != 0 then Sign(ClusterCmp(c1, c2)) else LexCmp(t1, t2)
  {
    if c1.depth > c2.depth {
      DeeperLex(c1, c2, t1, t2);
    } else if c1.depth < c2.depth {
      DeeperLex(c2, c1, t2, t1);
      LexAntisymmetric(Path(c1) + ([0] + t1), Path(c2) + ([0] + t2));
      CousinAntisymmetric(Ancestor(c2, c1.depth), c1);
    } else {
      PathLength(c1);
      PathLength(c2);
      CousinLex(c1, c2);
      LexAppend(Path(c1), [0] + t1, Path(c2), [0] + t2);
      LexHead(0, t1, 0, t2);
    }
  }

  lemma CousinAntisymmetric(c1: Cluster, c2: Cluster)
    requires WellFormed(c1) && WellFormed(c2) && c1.depth == c2.depth
    ensures Sign(CousinCmp(c1, c2)) == -Sign(CousinCmp(c2, c1))
  {
    CousinLex(c1, c2);
    CousinLex(c2, c1);
    LexAntisymmetric(Path(c1), Path(c2));
  }

  ghost predicate Positive(s: CStr) { forall i | 0 <= i < |s| :: s[i] > 0 }

  lemma {:induction false} CaseLex(l: Locale, a: CStr, b: CStr)
    requires Sane(l) && Positive(a) && Positive(b)
    ensures LexCmp(Folded(l, a), Folded(l, b)) == Sign(StrCaseCmp(l, a, b))
  {
    if a != [] && b != [] {
      CaseLex(l, a[1..], b[1..]);
      assert Folded(l, a) == [l.lower(a[0])] + Folded(l, a[1..]);
      assert Folded(l, b) == [l.lower(b[0])] + Folded(l, b[1..]);
      LexHead(l.lower(a[0]), Folded(l, a[1..]), l.lower(b[0]), Folded(l, b[1..]));
    }
  }

  lemma {:induction false} SkipSpaceSuffix(l: Locale, s: CStr)
    requires Positive(s)
    ensures Positive(SkipSpace(l, s))
  {
    if s != [] && l.space(s[0]) {
      SkipSpaceSuffix(l, s[1..]);
    }
  }

  lemma {:induction false} SkipPunctuationSuffix(l: Locale, s: CStr)
    requires Positive(s)
    ensures Positive(SkipPunctuation(l, s))
  {
    if s != [] && !l.alnum(s[0]) {
      SkipPunctuationSuffix(l, s[1..]);
    }
  }

  lemma {:induction false} FirstLongPositive(opts: seq<Opt>)
    requires forall i | 0 <= i < |opts| && opts[i].name.Some? :: Positive(opts[i].name.value)
    ensures FirstLong(opts).Some? ==> Positive(FirstLong(opts).value)
  {
    if opts != [] {
      FirstLongPositive(opts[1..]);
    }
  }

  lemma SortNamePositive(l: Locale, e: Entry)
    requires e.opts != [] && Names(e)
    ensures SortName(l, e).Some? ==> Positive(SortName(l, e).value)
  {
    FirstLongPositive(e.opts);
    var long := FirstLong(e.opts);
    if long.Some? {
      SkipSpaceSuffix(l, long.value);
      SkipPunctuationSuffix(l, SkipSpace(l, long.value));
    }
  }

  /** The last part of the name key, compared when the first characters agree. */
  function LongKey(l: Locale, short: int, long: Option<CStr>): seq<int> {
    if short != 0 then [] else [Bit(long.Some?)] + if long.Some? then Folded(l, long.value) else []
  }

  lemma LongLex(l: Locale, short1: int, long1: Option<CStr>, short2: int, long2: Option<CStr>)
    requires Sane(l) && (short1 != 0 <==> short2 != 0)
    requires (long1.Some? ==> Positive(long1.value)) && (long2.Some? ==> Positive(long2.value))
    ensures LexCmp(LongKey(l, short1, long1), LongKey(l, short2, long2)) ==
            Sign(if short1 != 0 then 0
                 else Then(Bit(long1.Some?) - Bit(long2.Some?),
                           if long1.None? || long2.None? then 0 else StrCaseCmp(l, long1.value, long2.value)))
  {
    if short1 == 0 {
      LexHead(Bit(long1.Some?), if long1.Some? then Folded(l, long1.value) else [],
              Bit(long2.Some?), if long2.Some? then Folded(l, long2.value) else []);
      if long1.Some? && long2.Some? {
        CaseLex(l, long1.value, long2.value);
      }
    }
  }

  lemma FourHeads(a: int, b: int, c: int, d: int, x: seq<int>, a': int, b': int, c': int, d': int, x': seq<int>)
    ensures LexCmp([a] + ([b] + ([c] + ([d] + x))), [a'] + ([b'] + ([c'] + ([d'] + x')))) ==
            if a != a' then Sign(a - a') else if b != b' then Sign(b - b')
            else if c != c' then Sign(c - c') else if d != d' then Sign(d - d') else LexCmp(x, x')
  {
    LexHead(a, [b] + ([c] + ([d] + x)), a', [b'] + ([c'] + ([d'] + x')));
    LexHead(b, [c] + ([d] + x), b', [c'] + ([d'] + x'));
    LexHead(c, [d] + x, c', [d'] + x');
    LexHead(d, x, d', x');
  }

  lemma NameLex(l: Locale, e1: Entry, e2: Entry)
    requires Sane(l) && ValidEntry(e1) && ValidEntry(e2)
    ensures LexCmp(NameKey(l, e1), NameKey(l, e2)) == Sign(NameCmp(l, e1, e2))
  {
    var short1, long1, first1 := FirstShort(e1.opts, e1.shorts), SortName(l, e1), FirstChar(l, e1);
    var short2, long2, first2 := FirstShort(e2.opts, e2.shorts), SortName(l, e2), FirstChar(l, e2);
    SortNamePositive(l, e1);
    SortNamePositive(l, e2);
    FourHeads(DocFlag(l, e1), l.lower(first1), -first1, Bit(short1 != 0), LongKey(l, short1, long1),
              DocFlag(l, e2), l.lower(first2), -first2, Bit(short2 != 0), LongKey(l, short2, long2));
    if Bit(short1 != 0) == Bit(short2 != 0) {
      LongLex(l, short1, long1, short2, long2);
    }
  }

  /** `hol_entry_cmp` is the lexicographic comparison of the keys. */
  lemma EntryCmpIsLex(l: Locale, e1: Entry, e2: Entry)
    requires Sane(l) && ValidEntry(e1) && ValidEntry(e2)
    ensures Sign(EntryCmp(l, e1, e2)) == LexCmp(Key(l, e1), Key(l, e2))
  {
    var t1, t2 := GroupKey(e1.group) + NameKey(l, e1), GroupKey(e2.group) + NameKey(l, e2);
    LexAppend(GroupKey(BaseGroup(e1)), PathKey(e1.cluster) + ([0] + t1), GroupKey(BaseGroup(e2)), PathKey(e2.cluster) + ([0] + t2));
    GroupLex(BaseGroup(e1), BaseGroup(e2));
    LexAppend(GroupKey(e1.group), NameKey(l, e1), GroupKey(e2.group), NameKey(l, e2));
    GroupLex(e1.group, e2.group);
    NameLex(l, e1, e2);
    PathsLex(e1.cluster, e2.cluster, t1, t2);
  }

  lemma PathsLex(c1: Option<Cluster>, c2: Option<Cluster>, t1: seq<int>, t2: seq<int>)
    requires (c1.Some? ==> WellFormed(c1.value)) && (c2.Some? ==> WellFormed(c2.value))
    ensures LexCmp(PathKey(c1) + ([0] + t1), PathKey(c2) + ([0] + t2)) ==
            if c1.Some? != c2.Some? then Sign(Bit(c1.Some?) - Bit(c2.Some?))
            else if c1.Some? && ClusterCmp(c1.value, c2.value) != 0 then Sign(ClusterCmp(c1.value, c2.value))
            else LexCmp(t1, t2)
  {
    if c1.Some? && c2.Some? {
      ClusterLex(c1.value, c2.value, t1, t2);
    } else {
      assert [] + ([0] + t1) == [0] + t1 && [] + ([0] + t2) == [0] + t2;
      LexHead(0, t1, 0, t2);
      if c1.Some? {
        PathStarts(c1.value);
      }
      if c2.Some? {
        PathStarts(c2.value);
      }
    }
  }

  lemma {:induction false} PathStarts(c: Cluster)
    ensures Path(c) != [] && Path(c)[0] == 1
  {
    if c.parent.Some? {
      PathStarts(c.parent.value);
    }
  }

  // ----- The documented laws -----

  /** The four transitivity clauses of the comment before `hol_entry_cmp`. */
  lemma EntryCmpTransitive(l: Locale, e1: Entry, e2: Entry, e3: Entry)
    requires Sane(l) && ValidEntry(e1) && ValidEntry(e2) && ValidEntry(e3)
    ensures EntryCmp(l, e1, e2) < 0 && EntryCmp(l, e2, e3) < 0 ==> EntryCmp(l, e1, e3) < 0
    ensures EntryCmp(l, e1, e2) < 0 && EntryCmp(l, e2, e3) == 0 ==> EntryCmp(l, e1, e3) < 0
    ensures EntryCmp(l, e1, e2) == 0 && EntryCmp(l, e2, e3) < 0 ==> EntryCmp(l, e1, e3) < 0
    ensures EntryCmp(l, e1, e2) == 0 && EntryCmp(l, e2, e3) == 0 ==> EntryCmp(l, e1, e3) == 0
  {
    EntryCmpIsLex(l, e1, e2);
    EntryCmpIsLex(l, e2, e3);
    EntryCmpIsLex(l, e1, e3);
    LexZero(Key(l, e1), Key(l, e2));
    LexZero(Key(l, e2), Key(l, e3));
    LexZero(Key(l, e1), Key(l, e3));
    if EntryCmp(l, e1, e2) <= 0 && EntryCmp(l, e2, e3) <= 0 {
      LexTransitive(Key(l, e1), Key(l, e2), Key(l, e3));
    }
  }

  lemma EntryCmpAntisymmetric(l: Locale, e1: Entry, e2: Entry)
    requires Sane(l) && ValidEntry(e1) && ValidEntry(e2)
    ensures Sign(EntryCmp(l, e1, e2)) == -Sign(EntryCmp(l, e2, e1))
  {
    EntryCmpIsLex(l, e1, e2);
    EntryCmpIsLex(l, e2, e1);
    LexAntisymmetric(Key(l, e1), Key(l, e2));
  }

  // ----- Clusters in a sorted listing -----

  /** C is D or one of its ancestors. */
  ghost predicate Within(d: Option<Cluster>, c: Cluster) {
    d.Some? && (d.value == c || Within(d.value.parent, c))
  }

  ghost predicate SortedBy(l: Locale, es: seq<Entry>)
    requires forall i | 0 <= i < |es| :: ValidEntry(es[i])
  {
    forall i, j | 0 <= i < j < |es| :: EntryCmp(l, es[i], es[j]) <= 0
  }

  /** FOREST holds well-formed clusters together with their parents. */
  ghost predicate Forest(forest: set<Cluster>) {
    forall c | c in forest :: WellFormed(c) && (c.parent.Some? ==> c.parent.value in forest)
  }

  /** No two siblings share group and index. */
  ghost predicate DistinctSiblings(forest: set<Cluster>) {
    forall c, d | c in forest && d in forest && c.parent == d.parent && c.group == d.group && c.index == d.index :: c == d
  }

  ghost predicate In(forest: set<Cluster>, e: Entry) {
    e.cluster.Some? ==> e.cluster.value in forest
  }

  /** Entries of C and its descendants are never separated by others. */
  ghost predicate Contiguous(es: seq<Entry>, c: Cluster) {
    forall i, j, k | 0 <= i < j < k < |es| && Within(es[i].cluster, c) && Within(es[k].cluster, c) :: Within(es[j].cluster, c)
  }

  lemma {:induction false} WithinPath(d: Cluster, c: Cluster)
    requires WellFormed(d) && Within(Some(d), c)
    ensures Path(c) <= Path(d) && c.depth <= d.depth && Base(d) == Base(c)
  {
    if d != c {
      WithinPath(d.parent.value, c);
    }
  }

  /** With distinct siblings a path determines its cluster. */
  lemma {:induction false} PathDetermines(forest: set<Cluster>, c: Cluster, d: Cluster)
    requires Forest(forest) && DistinctSiblings(forest) && c in forest && d in forest && Path(c) == Path(d)
    ensures c == d
    decreases c
  {
    PathLength(c);
    PathLength(d);
    var n := |Path(c)| - 4;
    assert Path(c)[n..] == ClusterKey(c) && Path(d)[n..] == ClusterKey(d);
    assert ClusterKey(c)[2] == c.group && ClusterKey(d)[2] == d.group;
    assert ClusterKey(c)[3] == -c.index && ClusterKey(d)[3] == -d.index;
    if c.parent.Some? {
      assert Path(c)[..n] == Path(c.parent.value) && Path(d)[..n] == Path(d.parent.value);
      PathDetermines(forest, c.parent.value, d.parent.value);
    }
  }

  lemma {:induction false} AncestorWithin(d: Cluster, depth: nat)
    requires WellFormed(d) && depth <= d.depth
    ensures Within(Some(d), Ancestor(d, depth))
  {
    if depth < d.depth {
      AncestorWithin(d.parent.value, depth);
    }
  }

  lemma {:induction false} AncestorInForest(forest: set<Cluster>, d: Cluster, depth: nat)
    requires Forest(forest) && d in forest && depth <= d.depth
    ensures Ancestor(d, depth) in forest
    decreases d
  {
    if depth < d.depth {
      AncestorInForest(forest, d.parent.value, depth);
    }
  }

  /** A path prefix is an ancestor. */
  lemma SamePrefix(a: seq<int>, b: seq<int>, s: seq<int>)
    requires a <= s && b <= s && |a| == |b|
    ensures a == b
  {}

  lemma {:induction false} PrefixIsWithin(forest: set<Cluster>, d: Cluster, c: Cluster)
    requires Forest(forest) && DistinctSiblings(forest) && c in forest && d in forest && Path(c) <= Path(d)
    ensures Within(Some(d), c)
  {
    PathLength(c);
    PathLength(d);
    var a := Ancestor(d, c.depth);
    AncestorPath(d, c.depth);
    PathLength(a);
    SamePrefix(Path(a), Path(c), Path(d));
    AncestorInForest(forest, d, c.depth);
    PathDetermines(forest, a, c);
    AncestorWithin(d, c.depth);
  }

  /** The part of the key that all entries of a cluster share. */
  function ClusterPrefix(c: Cluster): seq<int> { GroupKey(Base(c).group) + Path(c) }

  lemma WithinPrefix(l: Locale, e: Entry, c: Cluster)
    requires ValidEntry(e) && Within(e.cluster, c)
    ensures ClusterPrefix(c) <= Key(l, e)
  {
    WithinPath(e.cluster.value, c);
  }

  lemma PrefixWithin(l: Locale, forest: set<Cluster>, e: Entry, c: Cluster)
    requires Forest(forest) && DistinctSiblings(forest) && c in forest
    requires ValidEntry(e) && In(forest, e) && ClusterPrefix(c) <= Key(l, e)
    ensures Within(e.cluster, c)
  {
    var rest := [0] + (GroupKey(e.group) + NameKey(l, e));
    var tail := PathKey(e.cluster) + rest;
    assert Key(l, e)[2..] == tail;
    assert ClusterPrefix(c)[2..] == Path(c);
    assert Path(c) <= tail;
    PathLength(c);
    PathStarts(c);
    assert rest[0] == 0;
    assert e.cluster.None? ==> tail == rest;
    assert e.cluster.Some?;
    var d := e.cluster.value;
    PathLength(d);
    assert tail[|Path(d)|] == 0;
    if d.depth < c.depth {
      PathMark(c, d.depth + 1);
      assert false;
    }
    assert Path(d) == tail[..|Path(d)|];
    PrefixIsWithin(forest, d, c);
  }

  lemma PathMark(c: Cluster, depth: nat)
    requires WellFormed(c) && 0 < depth <= c.depth
    ensures 4 * depth < |Path(c)| && Path(c)[4 * depth] == 1
  {
    var a := Ancestor(c, depth - 1);
    AncestorPath(c, depth - 1);
    PathLength(a);
    assert |Path(a)| == 4 * depth;
  }

  /** In a sorted listing every cluster, with all below it, is one block. */
  lemma {:induction false} SortedIsContiguous(l: Locale, forest: set<Cluster>, es: seq<Entry>, c: Cluster)
    requires Sane(l) && Forest(forest) && DistinctSiblings(forest) && c in forest
    requires (forall i | 0 <= i < |es| :: ValidEntry(es[i])) && (forall i | 0 <= i < |es| :: In(forest, es[i]))
    requires SortedBy(l, es)
    ensures Contiguous(es, c)
  {
    forall i, j, k | 0 <= i < j < k < |es| && Within(es[i].cluster, c) && Within(es[k].cluster, c)
      ensures Within(es[j].cluster, c)
    {
      WithinPrefix(l, es[i], c);
      WithinPrefix(l, es[k], c);
      EntryCmpIsLex(l, es[i], es[j]);
      EntryCmpIsLex(l, es[j], es[k]);
      LexBetween(ClusterPrefix(c), Key(l, es[i]), Key(l, es[j]), Key(l, es[k]));
      PrefixWithin(l, forest, es[j], c);
    }
  }

  /** An entry directly in a cluster precedes every entry of its sub-clusters. */
  lemma DirectBeforeNested(l: Locale, e: Entry, d: Entry, c: Cluster)
    requires Sane(l) && ValidEntry(e) && ValidEntry(d)
    requires e.cluster == Some(c) && Within(d.cluster, c) && d.cluster != Some(c)
    ensures EntryCmp(l, e, d) < 0
  {
    var b := d.cluster.value;
    WithinPath(b, c);
    StrictlyDeeper(b, c);
    WithinAncestor(b, c);
    LexZero(Path(c), Path(c));
    CousinLex(c, c);
  }

  lemma {:induction false} StrictlyDeeper(d: Cluster, c: Cluster)
    requires WellFormed(d) && Within(Some(d), c) && d != c
    ensures c.depth < d.depth
  {
    WithinPath(d.parent.value, c);
  }

  lemma {:induction false} WithinAncestor(d: Cluster, c: Cluster)
    requires WellFormed(d) && Within(Some(d), c)
    ensures c.depth <= d.depth && Ancestor(d, c.depth) == c
  {
    if d != c {
      WithinPath(d.parent.value, c);
      WithinAncestor(d.parent.value, c);
    }
  }

  /** Two siblings with the same group and index do interleave: this listing is sorted, and
      the cluster C is split by an entry of D. */
  lemma CollidingSiblingsInterleave(l: Locale, c: Cluster, d: Cluster, e: Entry)
    requires Sane(l) && ValidEntry(e) && WellFormed(c) && WellFormed(d)
    requires c != d && c.parent == d.parent && c.group == d.group && c.index == d.index
    ensures var es := [e.(cluster := Some(c)), e.(cluster := Some(d)), e.(cluster := Some(c))];
            (forall i | 0 <= i < 3 :: ValidEntry(es[i])) && SortedBy(l, es) && !Contiguous(es, c)
  {
    var a, b := e.(cluster := Some(c)), e.(cluster := Some(d));
    SameKey(l, e, c, d);
    EqualKeys(l, a, a);
    EqualKeys(l, a, b);
    EqualKeys(l, b, a);
    if Within(Some(d), c) {
      StrictlyDeeper(d, c);
    }
    SplitByOther(a, b, c);
  }

  lemma EqualKeys(l: Locale, a: Entry, b: Entry)
    requires Sane(l) && ValidEntry(a) && ValidEntry(b) && Key(l, a) == Key(l, b)
    ensures EntryCmp(l, a, b) == 0
  {
    EntryCmpIsLex(l, a, b);
    LexZero(Key(l, a), Key(l, b));
  }

  lemma SplitByOther(a: Entry, b: Entry, c: Cluster)
    requires Within(a.cluster, c) && !Within(b.cluster, c)
    ensures !Contiguous([a, b, a], c)
  {
    var es := [a, b, a];
    assert Within(es[0].cluster, c) && Within(es[2].cluster, c) && !Within(es[1].cluster, c);
  }

  lemma SameKey(l: Locale, e: Entry, c: Cluster, d: Cluster)
    requires e.opts != [] && c.parent == d.parent && c.group == d.group && c.index == d.index
    ensures Key(l, e.(cluster := Some(c))) == Key(l, e.(cluster := Some(d)))
  {
    var a, b := e.(cluster := Some(c)), e.(cluster := Some(d));
    assert Path(c) == Path(d) && Base(c).group == Base(d).group;
    assert NameKey(l, a) == NameKey(l, b);
  }

  ghost predicate Listing(l: Locale, forest: set<Cluster>, es: seq<Entry>) {
    && (forall i | 0 <= i < |es| :: ValidEntry(es[i])) && (forall i | 0 <= i < |es| :: In(forest, es[i]))
    && SortedBy(l, es)
  }

  /** Sorted listings keep every cluster in one block exactly when siblings are distinct. */
  lemma DistinctSiblingsDecide(l: Locale, forest: set<Cluster>, e: Entry)
    requires Sane(l) && Forest(forest) && ValidEntry(e)
    ensures DistinctSiblings(forest) <==> forall es, c | Listing(l, forest, es) && c in forest :: Contiguous(es, c)
  {
    if DistinctSiblings(forest) {
      forall es, c | Listing(l, forest, es) && c in forest
        ensures Contiguous(es, c)
      {
        SortedIsContiguous(l, forest, es, c);
      }
    } else {
      var c, d :| c in forest && d in forest && c.parent == d.parent && c.group == d.group && c.index == d.index && c != d;
      CollidingSiblingsInterleave(l, c, d, e);
      var es := [e.(cluster := Some(c)), e.(cluster := Some(d)), e.(cluster := Some(c))];
      assert Listing(l, forest, es) && !Contiguous(es, c);
    }
  }
}
