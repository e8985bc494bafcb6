/** Which shapes of argp trees keep the help output of their clusters together, whatever options
    are declared in them. */
module HelpShapes {
  import opened Wrappers
  import opened ArgpTypes
  import opened FirstUses
  import opened HelpOrder
  import opened HelpLists
  import opened HelpTree
  import opened HelpListing

  // ----- Trees that differ only in their options -----

  predicate SameShape(a: Argp, b: Argp)
    decreases a, 1
  {
    SameShapeAll(a.children, b.children)
  }

  predicate SameShapeAll(cs: seq<Child>, ds: seq<Child>)
    decreases cs, 0
  {
    if cs == [] then ds == []
    else
      assert cs decreases to cs[0];
      && ds != [] && cs[0].group == ds[0].group && cs[0].hasHeader == ds[0].hasHeader
      && SameShape(cs[0].argp, ds[0].argp) && SameShapeAll(cs[1..], ds[1..])
  }

  lemma {:induction false} SameClusters(a: Argp, b: Argp, at: seq<nat>, cluster: Option<Cluster>)
    requires SameShape(a, b)
    ensures ClustersOf(a, at, cluster) == ClustersOf(b, at, cluster)
    decreases a, 1
  {
    SameClustersAll(a.children, b.children, at, 0, cluster);
  }

  lemma {:induction false} SameClustersAll(cs: seq<Child>, ds: seq<Child>, at: seq<nat>, i: nat, cluster: Option<Cluster>)
    requires SameShapeAll(cs, ds)
    ensures ClustersOfAll(cs, at, i, cluster) == ClustersOfAll(ds, at, i, cluster)
    decreases cs, 0
  {
    if cs != [] {
      assert cs decreases to cs[0];
      SameClusters(cs[0].argp, ds[0].argp, at + [i], ChildCluster(cs[0], i, at, cluster));
      SameClustersAll(cs[1..], ds[1..], at, i + 1, cluster);
    }
  }

  // ----- A tree with two group headers in every argp -----

  /** An option that is only the title of group N. */
  function Header(n: int): Opt { Opt(None, 0, false, false, false, false, false, true, n) }

  const HEADERS := [Header(1), Header(2)]

  function Labelled(a: Argp): Argp
    decreases a, 1
  {
    Argp(Some(HEADERS), a.hasParser, None, LabelledAll(a.children))
  }

  function LabelledAll(cs: seq<Child>): seq<Child>
    decreases cs, 0
  {
    if cs == [] then []
    else
      assert cs decreases to cs[0];
      [Child(Labelled(cs[0].argp), cs[0].group, cs[0].hasHeader)] + LabelledAll(cs[1..])
  }

  lemma {:induction false} LabelledShape(a: Argp)
    ensures SameShape(a, Labelled(a)) && WellDeclared(Labelled(a))
    decreases a, 1
  {
    LabelledShapeAll(a.children);
  }

  lemma {:induction false} LabelledShapeAll(cs: seq<Child>)
    ensures SameShapeAll(cs, LabelledAll(cs)) && forall c | c in LabelledAll(cs) :: WellDeclared(c.argp)
    decreases cs, 0
  {
    if cs != [] {
      assert cs decreases to cs[0];
      LabelledShape(cs[0].argp);
      LabelledShapeAll(cs[1..]);
      assert LabelledAll(cs)[1..] == LabelledAll(cs[1..]);
    }
  }

  function Label(n: int, cluster: Option<Cluster>, p: seq<nat>): HolEntry { HolEntry([Header(n)], 0, n, cluster, p) }

  lemma OwnLabels(at: seq<nat>, cluster: Option<Cluster>)
    ensures OwnEntries(HEADERS, 2, cluster, at) == [Label(1, cluster, at), Label(2, cluster, at)]
  {
    assert OwnEntries(HEADERS, 0, cluster, at) == [];
    assert OwnEntries(HEADERS, 1, cluster, at) == [Label(1, cluster, at)];
  }

  ghost predicate HasLabels(es: seq<HolEntry>, cluster: Cluster) {
    (exists p :: Label(1, Some(cluster), p) in es) && (exists p :: Label(2, Some(cluster), p) in es)
  }

  ghost predicate AllLabelled(es: seq<HolEntry>, created: set<Cluster>) {
    (forall x | x in created :: HasLabels(es, x)) && NonEmpty(es)
  }

  lemma OwnLabelled(a: Argp, at: seq<nat>, cluster: Option<Cluster>)
    ensures cluster.Some? ==> HasLabels(EntriesOf(Labelled(a), at, cluster), cluster.value)
    ensures NonEmpty(EntriesOf(Labelled(a), at, cluster))
  {
    OwnLabels(at, cluster);
    var es := EntriesOf(Labelled(a), at, cluster);
    assert es[0] == Label(1, cluster, at) && es[1] == Label(2, cluster, at);
    assert Label(1, cluster, at) in es && Label(2, cluster, at) in es;
  }

  lemma LabelsGrow(es: seq<HolEntry>, fs: seq<HolEntry>, s: set<Cluster>, t: set<Cluster>)
    requires AllLabelled(es, s) && AllLabelled(fs, t)
    ensures AllLabelled(es + fs, s + t)
  {
    forall x | x in s + t
      ensures HasLabels(es + fs, x)
    {
      var gs := if x in s then es else fs;
      assert HasLabels(gs, x);
      var p :| Label(1, Some(x), p) in gs;
      var q :| Label(2, Some(x), q) in gs;
      assert Label(1, Some(x), p) in es + fs && Label(2, Some(x), q) in es + fs;
    }
  }

  /** Every cluster of the labelled tree has an entry of group 1 and one of group 2. */
  lemma {:induction false} TreeLabelled(a: Argp, at: seq<nat>, cluster: Option<Cluster>)
    ensures var b := Labelled(a);
            AllLabelled(TreeEntries(b, at, cluster), ClustersOf(b, at, cluster) + (if cluster.Some? then {cluster.value} else {}))
    decreases a, 1
  {
    var b, own := Labelled(a), if cluster.Some? then {cluster.value} else {};
    OwnLabelled(a, at, cluster);
    TreesLabelled(a.children, at, 0, cluster);
    LabelsGrow(EntriesOf(b, at, cluster), TreeEntriesAll(b.children, at, 0, cluster), own, ClustersOf(b, at, cluster));
    assert own + ClustersOf(b, at, cluster) == ClustersOf(b, at, cluster) + own;
  }

  lemma {:induction false} TreesLabelled(cs: seq<Child>, at: seq<nat>, i: nat, cluster: Option<Cluster>)
    ensures var ds := LabelledAll(cs); AllLabelled(TreeEntriesAll(ds, at, i, cluster), ClustersOfAll(ds, at, i, cluster))
    decreases cs, 0
  {
    if cs != [] {
      assert cs decreases to cs[0];
      var ds := LabelledAll(cs);
      var cc := ChildCluster(ds[0], i, at, cluster);
      assert ds[1..] == LabelledAll(cs[1..]);
      TreeLabelled(cs[0].argp, at + [i], cc);
      TreesLabelled(cs[1..], at, i + 1, cluster);
      LabelsGrow(TreeEntries(ds[0].argp, at + [i], cc), TreeEntriesAll(ds[1..], at, i + 1, cluster),
                 ClustersOf(ds[0].argp, at + [i], cc) + OwnCluster(ds[0], i, at, cluster), ClustersOfAll(ds[1..], at, i + 1, cluster));
    }
  }

  // ----- Sorting is possible -----

  ghost predicate AllValid(es: seq<Entry>) { forall i | 0 <= i < |es| :: ValidEntry(es[i]) }

  /** E put before a sorted list of entries that are not smaller. */
  lemma SortedCons(l: Locale, e: Entry, es: seq<Entry>)
    requires ValidEntry(e) && AllValid(es) && SortedBy(l, es) && forall i | 0 <= i < |es| :: EntryCmp(l, e, es[i]) <= 0
    ensures AllValid([e] + es) && SortedBy(l, [e] + es)
  {}

  lemma {:induction false} Insert(l: Locale, e: Entry, es: seq<Entry>) returns (r: seq<Entry>)
    requires Sane(l) && ValidEntry(e) && AllValid(es) && SortedBy(l, es)
    ensures AllValid(r) && SortedBy(l, r) && multiset(r) == multiset([e] + es)
  {
    if es == [] {
      r := [e];
      EntryCmpAntisymmetric(l, e, e);
    } else if EntryCmp(l, e, es[0]) <= 0 {
      r := [e] + es;
      forall i | 0 <= i < |es|
        ensures EntryCmp(l, e, es[i]) <= 0
      {
        EntryCmpTransitive(l, e, es[0], es[i]);
      }
      SortedCons(l, e, es);
    } else {
      var rest := Insert(l, e, es[1..]);
      EntryCmpAntisymmetric(l, e, es[0]);
      forall i | 0 <= i < |rest|
        ensures EntryCmp(l, es[0], rest[i]) <= 0
      {
        assert rest[i] in multiset(rest);
        assert rest[i] in [e] + es[1..];
      }
      SortedCons(l, es[0], rest);
      r := [es[0]] + rest;
      Exchanged(e, es, rest);
    }
  }

  lemma Exchanged(e: Entry, es: seq<Entry>, rest: seq<Entry>)
    requires es != [] && multiset(rest) == multiset([e] + es[1..])
    ensures multiset([es[0]] + rest) == multiset([e] + es)
  {
    assert es == [es[0]] + es[1..];
    assert [e] + es == [e] + ([es[0]] + es[1..]);
  }

  lemma {:induction false} Sort(l: Locale, es: seq<Entry>) returns (r: seq<Entry>)
    requires Sane(l) && AllValid(es)
    ensures AllValid(r) && SortedBy(l, r) && multiset(r) == multiset(es)
  {
    if es == [] {
      r := [];
    } else {
      var rest := Sort(l, es[1..]);
      r := Insert(l, es[0], rest);
      assert es == [es[0]] + es[1..];
    }
  }

  // ----- Untidy shapes mix -----

  lemma HolOf(es: seq<HolEntry>) returns (h: Hol)
    requires NonEmpty(es)
    ensures Lists(h, es)
  {
    h := Hol(Repack(es), Firsts(EntryKeys(es)));
    RepackKeys(es);
    RepackTwice(es);
    RepackNonEmpty(es);
  }

  ghost predicate Titled(e: Entry, n: int, c: Cluster) { e.opts == [Header(n)] && e.group == n && e.cluster == Some(c) }

  lemma LabelListed(h: Hol, es: seq<HolEntry>, n: int, c: Cluster, p: seq<nat>, out: seq<Entry>) returns (j: nat)
    requires Lists(h, es) && Label(n, Some(c), p) in es && Rearranged(h, out)
    ensures j < |out| && Titled(out[j], n, c)
  {
    var i :| 0 <= i < |es| && es[i] == Label(n, Some(c), p);
    RepackAt(es, i);
    var all := HelpEntries(h);
    assert all[i] in multiset(all);
    assert all[i] in out;
    j :| 0 <= j < |out| && out[j] == all[i];
  }

  lemma LabelsListed(h: Hol, es: seq<HolEntry>, c: Cluster, out: seq<Entry>) returns (i: nat, j: nat)
    requires Lists(h, es) && HasLabels(es, c) && Rearranged(h, out)
    ensures i < |out| && j < |out| && Titled(out[i], 1, c) && Titled(out[j], 2, c)
  {
    var p :| Label(1, Some(c), p) in es;
    var q :| Label(2, Some(c), q) in es;
    i := LabelListed(h, es, 1, c, p, out);
    j := LabelListed(h, es, 2, c, q, out);
  }

  lemma TitlesOrdered(l: Locale, e: Entry, f: Entry, c: Cluster, d: Cluster)
    requires Titled(e, 1, c) && Titled(f, 2, d) && Twins(c, d) && WellFormed(c) && WellFormed(d) && ValidEntry(e) && ValidEntry(f)
    ensures EntryCmp(l, e, f) < 0
  {
    assert ClusterCmp(c, d) == 0;
    assert BaseGroup(e) == BaseGroup(f);
  }

  lemma Precedes(l: Locale, es: seq<Entry>, i: nat, j: nat)
    requires Sane(l) && AllValid(es) && SortedBy(l, es) && i < |es| && j < |es| && EntryCmp(l, es[i], es[j]) < 0
    ensures i < j
  {
    EntryCmpAntisymmetric(l, es[i], es[j]);
  }

  lemma TwinsApart(c: Cluster, d: Cluster)
    requires WellFormed(c) && WellFormed(d) && Twins(c, d) && c != d
    ensures !Within(Some(d), c)
  {
    if Within(Some(d), c) {
      StrictlyDeeper(d, c);
    }
  }

  /** Whatever sorted order is chosen, one of two twin clusters is split by the other. */
  lemma TwinsMix(l: Locale, es: seq<Entry>, c: Cluster, d: Cluster, c1: nat, c2: nat, d1: nat, d2: nat)
    requires Sane(l) && AllValid(es) && SortedBy(l, es) && WellFormed(c) && WellFormed(d) && Twins(c, d) && c != d
    requires c1 < |es| && c2 < |es| && d1 < |es| && d2 < |es|
    requires Titled(es[c1], 1, c) && Titled(es[c2], 2, c) && Titled(es[d1], 1, d) && Titled(es[d2], 2, d)
    ensures !Contiguous(es, c) || !Contiguous(es, d)
  {
    TitlesOrdered(l, es[c1], es[d2], c, d);
    TitlesOrdered(l, es[d1], es[c2], d, c);
    Precedes(l, es, c1, d2);
    Precedes(l, es, d1, c2);
    TwinsApart(c, d);
    TwinsApart(d, c);
    if c1 < d1 {
      assert Within(es[c1].cluster, c) && Within(es[c2].cluster, c) && !Within(es[d1].cluster, c);
    } else {
      assert Within(es[d1].cluster, d) && Within(es[d2].cluster, d) && !Within(es[c1].cluster, d);
    }
  }

  /** Every help output of the labelled tree of an untidy shape splits a cluster. */
  lemma {:induction false} UntidyMixes(a: Argp, l: Locale, h: Hol, es: seq<Entry>) returns (c: Cluster)
    requires !Tidy(a) && Sane(l) && Lists(h, TreeEntries(Labelled(a), [], None)) && Output(l, h, es)
    ensures c in ClustersOf(Labelled(a), [], None) && !Contiguous(es, c)
  {
    var b := Labelled(a);
    LabelledShape(a);
    SameClusters(a, b, [], None);
    TidyDecides(a);
    var forest, all := ClustersOf(b, [], None), TreeEntries(b, [], None);
    var x, y :| x in forest && y in forest && x.parent == y.parent && x.group == y.group && x.index == y.index && x != y;
    TreeForest(b);
    TreeLabelled(a, [], None);
    assert forest + {} == forest;
    assert HasLabels(all, x) && HasLabels(all, y);
    var c1, c2 := LabelsListed(h, all, x, es);
    var d1, d2 := LabelsListed(h, all, y, es);
    TwinsMix(l, es, x, y, c1, c2, d1, d2);
    c := if !Contiguous(es, x) then x else y;
  }

  /** The help output of trees of the shape of A, with any options, keeps every cluster in one
      block. */
  ghost predicate KeepsClusters(a: Argp, l: Locale) {
    forall b, h, es, c |
      SameShape(a, b) && WellDeclared(b) && Lists(h, TreeEntries(b, [], None)) && Output(l, h, es) && c in ClustersOf(b, [], None) ::
      Contiguous(es, c)
  }

  /** A shape keeps its clusters together for all options if and only if it is tidy. */
  lemma ShapesDecide(a: Argp, l: Locale)
    requires Sane(l)
    ensures Tidy(a) <==> KeepsClusters(a, l)
  {
    if Tidy(a) {
      forall b, h, es, c |
        SameShape(a, b) && WellDeclared(b) && Lists(h, TreeEntries(b, [], None)) && Output(l, h, es) && c in ClustersOf(b, [], None)
        ensures Contiguous(es, c)
      {
        SameClusters(a, b, [], None);
        TidyDecides(a);
        TidyDecides(b);
        TidyOutput(b, l, h, es, c);
      }
    } else {
      var b := Labelled(a);
      LabelledShape(a);
      TreeLabelled(a, [], None);
      var h := HolOf(TreeEntries(b, [], None));
      var all := HelpEntries(h);
      assert Rearranged(h, all);
      OutputIsListing(b, h, all);
      var es := Sort(l, all);
      assert Output(l, h, es);
      var c := UntidyMixes(a, l, h, es);
      assert !Contiguous(es, c);
    }
  }

  // ----- A tree that mixes -----

  /** The character classification of the C locale. */
  const C_LOCALE := Locale(c => if 65 <= c <= 90 then c + 32 else c, c => c == 32 || 9 <= c <= 13,
                           c => 48 <= c <= 57 || 65 <= c <= 90 || 97 <= c <= 122)

  function Letter(key: int): Opt { Opt(None, key, false, false, false, false, false, true, 0) }

  const LEAF := Argp(Some([Letter(97), Letter(99)]), true, None, [])
  const NESTED := Argp(Some([Letter(98)]), true, None, [])
  const MERGED := Argp(None, true, None, [Child(NESTED, 1, false)])
  const MIXING := Argp(None, true, None, [Child(LEAF, 1, false), Child(MERGED, 0, false)])
  const FIRST := Cluster([0], 1, 0, 0, None)
  const SECOND := Cluster([1, 0], 1, 0, 0, None)

  function LetterEntry(key: int, cluster: Cluster, p: seq<nat>): HolEntry { HolEntry([Letter(key)], 0, 0, Some(cluster), p) }

  function Shown(key: int, shorts: seq<int>, cluster: Cluster): Entry { Entry([Letter(key)], shorts, 0, Some(cluster)) }

  lemma MixingEntries()
    ensures TreeEntries(MIXING, [], None) == [LetterEntry(97, FIRST, [0]), LetterEntry(99, FIRST, [0]), LetterEntry(98, SECOND, [1, 0])]
  {
    var leaf, nested := LEAF.options.value, NESTED.options.value;
    assert [] + [0] == [0] && [] + [1] == [1] && [1] + [0] == [1, 0];
    assert OwnEntries(leaf, 1, Some(FIRST), [0]) == [LetterEntry(97, FIRST, [0])];
    assert EntriesOf(LEAF, [0], Some(FIRST)) == [LetterEntry(97, FIRST, [0]), LetterEntry(99, FIRST, [0])];
    assert EntriesOf(NESTED, [1, 0], Some(SECOND)) == [LetterEntry(98, SECOND, [1, 0])] by {
      assert OwnEntries(nested, 0, Some(SECOND), [1, 0]) == [];
    }
    assert TreeEntriesAll([], [1], 1, None) == [];
    assert TreeEntries(NESTED, [1, 0], Some(SECOND)) == EntriesOf(NESTED, [1, 0], Some(SECOND));
    assert TreeEntriesAll(MERGED.children, [1], 0, None) == EntriesOf(NESTED, [1, 0], Some(SECOND));
    assert EntriesOf(MERGED, [1], None) == [] && EntriesOf(MIXING, [], None) == [];
    assert TreeEntries(MERGED, [1], None) == EntriesOf(NESTED, [1, 0], Some(SECOND));
    var cs := MIXING.children;
    assert cs[1..] == [Child(MERGED, 0, false)] && cs[1..][1..] == [];
    assert TreeEntriesAll(cs[1..], [], 1, None) == TreeEntries(MERGED, [1], None);
    assert TreeEntries(LEAF, [0], Some(FIRST)) == EntriesOf(LEAF, [0], Some(FIRST));
    assert TreeEntriesAll(cs, [], 0, None) == TreeEntries(LEAF, [0], Some(FIRST)) + TreeEntriesAll(cs[1..], [], 1, None);
  }

  lemma MixingKeys(es: seq<HolEntry>)
    requires es == [LetterEntry(97, FIRST, [0]), LetterEntry(99, FIRST, [0]), LetterEntry(98, SECOND, [1, 0])]
    ensures EntryKeys(es[..0]) == [] && EntryKeys(es[..1]) == [97] && EntryKeys(es[..2]) == [97, 99] && EntryKeys(es) == [97, 99, 98]
  {
    assert es[..1][..0] == [] && es[..2][..1] == es[..1] && es[..3] == es && es[..3][..2] == es[..2];
    assert KeysOf([Letter(97)]) == [97] && KeysOf([Letter(99)]) == [99] && KeysOf([Letter(98)]) == [98];
  }

  lemma MixingFirsts()
    ensures Firsts([]) == [] && Firsts([97]) == [97] && Firsts([97, 99]) == [97, 99] && Firsts([97, 99, 98]) == [97, 99, 98]
  {
    FirstsNext([], 97);
    FirstsNext([97], 99);
    FirstsNext([97, 99], 98);
    assert [] + [97] == [97] && [97] + [99] == [97, 99] && [97, 99] + [98] == [97, 99, 98];
  }

  lemma ShownAt(h: Hol, es: seq<HolEntry>, i: nat, key: int, cluster: Cluster, p: seq<nat>)
    requires Lists(h, es) && i < |es| && es[i] == LetterEntry(key, cluster, p) && |Firsts(EntryKeys(es[..i]))| == i <= |h.shorts|
    ensures HelpEntries(h)[i] == Shown(key, h.shorts[i..], cluster)
  {
    RepackAt(es, i);
    assert HelpEntries(h)[i] == HelpEntry(h, i);
  }

  lemma {:induction false} ShownThree(h: Hol, es: seq<HolEntry>)
    requires es == [LetterEntry(97, FIRST, [0]), LetterEntry(99, FIRST, [0]), LetterEntry(98, SECOND, [1, 0])] && Lists(h, es)
    ensures HelpEntries(h) == [Shown(97, [97, 99, 98], FIRST), Shown(99, [99, 98], FIRST), Shown(98, [98], SECOND)]
  {
    MixingKeys(es);
    MixingFirsts();
    RepackKeys(es);
    ShownAt(h, es, 0, 97, FIRST, [0]);
    ShownAt(h, es, 1, 99, FIRST, [0]);
    ShownAt(h, es, 2, 98, SECOND, [1, 0]);
    ShortsFrom(h.shorts);
  }

  lemma ShortsFrom(shorts: seq<int>)
    requires shorts == [97, 99, 98]
    ensures shorts[0..] == [97, 99, 98] && shorts[1..] == [99, 98] && shorts[2..] == [98]
  {}

  /** The entries of the tree as they are compared: -a and -c of the first child, -b of the merged
      one's. */
  lemma MixingShown(h: Hol)
    requires Lists(h, TreeEntries(MIXING, [], None))
    ensures HelpEntries(h) == [Shown(97, [97, 99, 98], FIRST), Shown(99, [99, 98], FIRST), Shown(98, [98], SECOND)]
  {
    MixingEntries();
    ShownThree(h, TreeEntries(MIXING, [], None));
  }

  lemma ShownOrdered(j: int, js: seq<int>, c: Cluster, k: int, ks: seq<int>, d: Cluster)
    requires 97 <= j < k <= 99 && c in {FIRST, SECOND} && d in {FIRST, SECOND}
    requires js != [] && js[0] == j && ks != [] && ks[0] == k
    ensures ValidEntry(Shown(j, js, c)) && ValidEntry(Shown(k, ks, d))
    ensures EntryCmp(C_LOCALE, Shown(j, js, c), Shown(k, ks, d)) < 0
  {
    var e, f := Shown(j, js, c), Shown(k, ks, d);
    assert WellFormed(c) && WellFormed(d) && ClusterCmp(c, d) == 0 && BaseGroup(e) == BaseGroup(f) == 1;
    assert FirstShort(e.opts, js) == j && FirstShort(f.opts, ks) == k;
    assert FirstChar(C_LOCALE, e) == j && FirstChar(C_LOCALE, f) == k;
    assert DocFlag(C_LOCALE, e) == 0 && DocFlag(C_LOCALE, f) == 0;
  }

  lemma ThreeSorted(l: Locale, a: Entry, b: Entry, c: Entry)
    requires ValidEntry(a) && ValidEntry(b) && ValidEntry(c)
    requires EntryCmp(l, a, b) < 0 && EntryCmp(l, a, c) < 0 && EntryCmp(l, b, c) < 0
    ensures AllValid([a, b, c]) && SortedBy(l, [a, b, c])
  {}

  lemma ThreeExchanged(h: Hol, a: Entry, b: Entry, c: Entry)
    requires Packed(h) && HelpEntries(h) == [a, c, b]
    ensures Rearranged(h, [a, b, c])
  {
    assert multiset([a, b, c]) == multiset([a, c, b]);
  }

  lemma ThreeSplit(a: Entry, b: Entry, c: Entry)
    requires a.cluster == c.cluster == Some(FIRST) && b.cluster == Some(SECOND)
    ensures !Contiguous([a, b, c], FIRST)
  {
    var es := [a, b, c];
    assert Within(es[0].cluster, FIRST) && Within(es[2].cluster, FIRST) && !Within(es[1].cluster, FIRST);
  }

  /** A merged child whose own child meets the first child's cluster: -b is listed between -a and
      -c. */
  lemma MergedChildMixes(h: Hol) returns (es: seq<Entry>)
    requires Lists(h, TreeEntries(MIXING, [], None))
    ensures WellDeclared(MIXING) && !Tidy(MIXING) && FIRST in ClustersOf(MIXING, [], None)
    ensures Output(C_LOCALE, h, es) && !Contiguous(es, FIRST)
  {
    var a, b, c := Shown(97, [97, 99, 98], FIRST), Shown(98, [98], SECOND), Shown(99, [99, 98], FIRST);
    MixingShown(h);
    ShownOrdered(97, [97, 99, 98], FIRST, 98, [98], SECOND);
    ShownOrdered(97, [97, 99, 98], FIRST, 99, [99, 98], FIRST);
    ShownOrdered(98, [98], SECOND, 99, [99, 98], FIRST);
    ThreeSorted(C_LOCALE, a, b, c);
    ThreeExchanged(h, a, b, c);
    ThreeSplit(a, b, c);
    MixingTwins();
    es := [a, b, c];
  }

  lemma MixingTwins()
    ensures WellDeclared(MIXING) && !Tidy(MIXING) && FIRST in ClustersOf(MIXING, [], None)
  {
    var cs, inner := MIXING.children, MERGED.children;
    ChildClustersIncluded(cs, [], 0, None, 0);
    ChildClustersIncluded(cs, [], 0, None, 1);
    ChildClustersIncluded(inner, [1], 0, None, 0);
    assert [] + [0] == [0] && [] + [1] == [1] && [1] + [0] == [1, 0];
    assert FIRST in ClustersOf(MIXING, [], None) && SECOND in ClustersOf(MIXING, [], None);
    TidyDecides(MIXING);
    MixingDeclared();
  }

  lemma MixingDeclared()
    ensures WellDeclared(MIXING)
  {
    assert WellDeclared(LEAF) && WellDeclared(NESTED);
    assert WellDeclared(MERGED);
  }
}
