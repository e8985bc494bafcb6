/** The help output of an argp tree: the clusters created for it, the listing that `hol_sort`
    makes of its entries, and when the listing keeps every cluster together. */
module HelpListing {
  import opened Wrappers
  import opened ArgpTypes
  import opened FirstUses
  import opened HelpOrder
  import opened HelpLists
  import opened HelpTree

  // ----- Clusters of a tree -----

  /** Well-formed clusters whose parents are CLUSTER or among them. */
  ghost predicate Rooted(created: set<Cluster>, cluster: Option<Cluster>) {
    forall c | c in created :: WellFormed(c) && (c.parent.None? || c.parent == cluster || c.parent.value in created)
  }

  lemma {:induction false} ClustersRooted(a: Argp, at: seq<nat>, cluster: Option<Cluster>)
    requires cluster.Some? ==> WellFormed(cluster.value)
    ensures Rooted(ClustersOf(a, at, cluster), cluster)
    decreases a, 1
  {
    ClustersRootedAll(a.children, at, 0, cluster);
  }

  lemma {:induction false} ClustersRootedAll(cs: seq<Child>, at: seq<nat>, i: nat, cluster: Option<Cluster>)
    requires cluster.Some? ==> WellFormed(cluster.value)
    ensures Rooted(ClustersOfAll(cs, at, i, cluster), cluster)
    decreases cs, 0
  {
    if cs != [] {
      assert cs decreases to cs[0];
      ClustersRooted(cs[0].argp, at + [i], ChildCluster(cs[0], i, at, cluster));
      ClustersRootedAll(cs[1..], at, i + 1, cluster);
    }
  }

  /** The clusters of a whole tree form a forest. */
  lemma TreeForest(a: Argp)
    ensures Forest(ClustersOf(a, [], None))
  {
    ClustersRooted(a, [], None);
  }

  predicate Clustered(c: Child) { c.group != 0 || c.hasHeader }

  /** No cluster anywhere below. */
  predicate Flat(a: Argp) {
    forall c | c in a.children :: !Clustered(c) && Flat(c.argp)
  }

  /** A child merged into its parent's cluster brings no clusters of its own. */
  predicate Clean(a: Argp) {
    forall c | c in a.children :: if Clustered(c) then Clean(c.argp) else Flat(c.argp)
  }

  lemma {:induction false} FlatHasNone(a: Argp, at: seq<nat>, cluster: Option<Cluster>)
    requires Flat(a)
    ensures ClustersOf(a, at, cluster) == {}
    decreases a, 1
  {
    FlatHasNoneAll(a.children, at, 0, cluster);
  }

  lemma {:induction false} FlatHasNoneAll(cs: seq<Child>, at: seq<nat>, i: nat, cluster: Option<Cluster>)
    requires forall c | c in cs :: !Clustered(c) && Flat(c.argp)
    ensures ClustersOfAll(cs, at, i, cluster) == {}
    decreases cs, 0
  {
    if cs != [] {
      assert cs decreases to cs[0];
      FlatHasNone(cs[0].argp, at + [i], ChildCluster(cs[0], i, at, cluster));
      FlatHasNoneAll(cs[1..], at, i + 1, cluster);
    }
  }

  function PlaceOf(cluster: Option<Cluster>): seq<nat> { if cluster.None? then [] else cluster.value.id }

  /** In a clean tree the place of a cluster is its parent's place followed by its index. */
  ghost predicate PlacedByIndex(created: set<Cluster>) {
    forall c | c in created :: c.index >= 0 && c.id == PlaceOf(c.parent) + [c.index]
  }

  lemma {:induction false} CleanPlaces(a: Argp, at: seq<nat>, cluster: Option<Cluster>)
    requires Clean(a) && at == PlaceOf(cluster)
    ensures PlacedByIndex(ClustersOf(a, at, cluster))
    decreases a, 1
  {
    CleanPlacesAll(a.children, at, 0, cluster);
  }

  lemma {:induction false} CleanPlacesAll(cs: seq<Child>, at: seq<nat>, i: nat, cluster: Option<Cluster>)
    requires (forall c | c in cs :: if Clustered(c) then Clean(c.argp) else Flat(c.argp)) && at == PlaceOf(cluster)
    ensures PlacedByIndex(ClustersOfAll(cs, at, i, cluster))
    decreases cs, 0
  {
    if cs != [] {
      assert cs decreases to cs[0];
      var cc := ChildCluster(cs[0], i, at, cluster);
      if Clustered(cs[0]) {
        CleanPlaces(cs[0].argp, at + [i], cc);
      } else {
        FlatHasNone(cs[0].argp, at + [i], cc);
      }
      CleanPlacesAll(cs[1..], at, i + 1, cluster);
    }
  }

  // ----- Exactly when siblings are distinct -----

  /** Group and index of the clusters created directly below an argp, also through children that
      are merged into it. */
  function Direct(a: Argp): seq<(int, int)>
    decreases a, 1
  {
    DirectAll(a.children, 0)
  }

  function DirectAll(cs: seq<Child>, i: nat): seq<(int, int)>
    decreases cs, 0
  {
    if cs == [] then []
    else
      assert cs decreases to cs[0];
      (if Clustered(cs[0]) then [(cs[0].group, i)] else Direct(cs[0].argp)) + DirectAll(cs[1..], i + 1)
  }

  predicate NoRepeat<T(==)>(s: seq<T>) { forall p, q | 0 <= p < q < |s| :: s[p] != s[q] }

  /** No two clusters with one parent share group and index. */
  predicate Tidy(a: Argp)
    decreases a, 1
  {
    NoRepeat(Direct(a)) && TidyBelow(a)
  }

  predicate TidyBelow(a: Argp)
    decreases a, 0
  {
    forall c | c in a.children :: if Clustered(c) then Tidy(c.argp) else TidyBelow(c.argp)
  }

  /** The clusters counted by `Direct`, in the same order. */
  function Tops(a: Argp, at: seq<nat>, cluster: Option<Cluster>): seq<Cluster>
    decreases a, 1
  {
    TopsAll(a.children, at, 0, cluster)
  }

  function TopsAll(cs: seq<Child>, at: seq<nat>, i: nat, cluster: Option<Cluster>): seq<Cluster>
    decreases cs, 0
  {
    if cs == [] then []
    else
      assert cs decreases to cs[0];
      (if Clustered(cs[0]) then [ChildCluster(cs[0], i, at, cluster).value] else Tops(cs[0].argp, at + [i], cluster))
      + TopsAll(cs[1..], at, i + 1, cluster)
  }

  function Mark(c: Cluster): (int, int) { (c.group, c.index) }

  /** Cluster C lies below child I or a later child of the place AT. */
  predicate From(c: Cluster, at: seq<nat>, i: nat) { |at| < |c.id| && at <= c.id && c.id[|at|] >= i }

  predicate At(c: Cluster, at: seq<nat>, i: nat) { |at| < |c.id| && at <= c.id && c.id[|at|] == i }

  lemma BelowChild(c: Cluster, at: seq<nat>, i: nat)
    requires at + [i] <= c.id
    ensures At(c, at, i)
  {
    assert c.id[..|at| + 1] == at + [i];
    assert c.id[|at|] == c.id[..|at| + 1][|at|];
    assert c.id[..|at|] == c.id[..|at| + 1][..|at|];
  }

  function DepthOf(cluster: Option<Cluster>): int { if cluster.None? then -1 else cluster.value.depth }

  ghost predicate InsideAt(c: Cluster, created: set<Cluster>, at: seq<nat>, cluster: Option<Cluster>) {
    && |at| < |c.id| && at <= c.id && c.depth == DepthOf(c.parent) + 1 && c.depth > DepthOf(cluster)
    && (c.parent == cluster || (c.parent.Some? && c.parent.value in created))
  }

  /** The clusters created below a place: deeper than CLUSTER, and closed under parents. */
  ghost predicate Inside(created: set<Cluster>, at: seq<nat>, cluster: Option<Cluster>) {
    forall c | c in created :: InsideAt(c, created, at, cluster)
  }

  ghost predicate AllAt(created: set<Cluster>, at: seq<nat>, i: nat) { forall c | c in created :: At(c, at, i) }

  ghost predicate AllFrom(created: set<Cluster>, at: seq<nat>, i: nat) { forall c | c in created :: From(c, at, i) }

  /** The clusters of child C, the I-th of its parent. */
  function ChildSet(c: Child, i: nat, at: seq<nat>, cluster: Option<Cluster>): set<Cluster> {
    OwnCluster(c, i, at, cluster) + ClustersOf(c.argp, at + [i], ChildCluster(c, i, at, cluster))
  }

  lemma {:induction false} TreeInside(a: Argp, at: seq<nat>, cluster: Option<Cluster>)
    ensures Inside(ClustersOf(a, at, cluster), at, cluster)
    decreases a, 1
  {
    TreesInside(a.children, at, 0, cluster);
  }

  lemma {:induction false} ChildInside(c: Child, i: nat, at: seq<nat>, cluster: Option<Cluster>)
    ensures Inside(ChildSet(c, i, at, cluster), at, cluster) && AllAt(ChildSet(c, i, at, cluster), at, i)
    decreases c, 2
  {
    var s, cc := ChildSet(c, i, at, cluster), ChildCluster(c, i, at, cluster);
    TreeInside(c.argp, at + [i], cc);
    forall x | x in s
      ensures InsideAt(x, s, at, cluster) && At(x, at, i)
    {
      if x in ClustersOf(c.argp, at + [i], cc) {
        assert InsideAt(x, ClustersOf(c.argp, at + [i], cc), at + [i], cc);
        BelowChild(x, at, i);
      } else {
        assert x.id == at + [i];
      }
    }
  }

  lemma {:induction false} TreesInside(cs: seq<Child>, at: seq<nat>, i: nat, cluster: Option<Cluster>)
    ensures Inside(ClustersOfAll(cs, at, i, cluster), at, cluster) && AllFrom(ClustersOfAll(cs, at, i, cluster), at, i)
    decreases cs, 0
  {
    if cs != [] {
      assert cs decreases to cs[0];
      ChildInside(cs[0], i, at, cluster);
      TreesInside(cs[1..], at, i + 1, cluster);
      InsideUnion(ClustersOfAll(cs, at, i, cluster), ChildSet(cs[0], i, at, cluster), ClustersOfAll(cs[1..], at, i + 1, cluster), at, i, cluster);
    }
  }

  lemma InsideUnion(all: set<Cluster>, s: set<Cluster>, t: set<Cluster>, at: seq<nat>, i: nat, cluster: Option<Cluster>)
    requires all == s + t && Inside(s, at, cluster) && Inside(t, at, cluster) && AllAt(s, at, i) && AllFrom(t, at, i + 1)
    ensures Inside(all, at, cluster) && AllFrom(all, at, i)
  {
    forall c | c in all
      ensures InsideAt(c, all, at, cluster) && From(c, at, i)
    {
      if c in s {
        assert InsideAt(c, s, at, cluster) && At(c, at, i);
      } else {
        assert InsideAt(c, t, at, cluster) && From(c, at, i + 1);
      }
    }
  }

  // ----- The clusters with one parent -----

  ghost predicate TopAt(t: Cluster, d: (int, int), created: set<Cluster>, cluster: Option<Cluster>) {
    Mark(t) == d && t in created && t.parent == cluster
  }

  /** TS are the clusters of CREATED whose parent is CLUSTER, each once, with the marks DS. */
  ghost predicate TopsOk(ts: seq<Cluster>, ds: seq<(int, int)>, created: set<Cluster>, cluster: Option<Cluster>) {
    && |ts| == |ds| && NoRepeat(ts)
    && (forall p | 0 <= p < |ts| :: TopAt(ts[p], ds[p], created, cluster))
    && (forall c | c in created && c.parent == cluster :: c in ts)
  }

  lemma {:induction false} TreeTops(a: Argp, at: seq<nat>, cluster: Option<Cluster>)
    ensures TopsOk(Tops(a, at, cluster), Direct(a), ClustersOf(a, at, cluster), cluster)
    decreases a, 1
  {
    TreesTops(a.children, at, 0, cluster);
  }

  function ChildTops(c: Child, i: nat, at: seq<nat>, cluster: Option<Cluster>): seq<Cluster> {
    if Clustered(c) then [ChildCluster(c, i, at, cluster).value] else Tops(c.argp, at + [i], cluster)
  }

  function ChildDirect(c: Child, i: nat): seq<(int, int)> {
    if Clustered(c) then [(c.group, i)] else Direct(c.argp)
  }

  lemma {:induction false} ChildTopsOk(c: Child, i: nat, at: seq<nat>, cluster: Option<Cluster>)
    ensures TopsOk(ChildTops(c, i, at, cluster), ChildDirect(c, i), ChildSet(c, i, at, cluster), cluster)
    decreases c, 2
  {
    if Clustered(c) {
      var cc := ChildCluster(c, i, at, cluster);
      TreeInside(c.argp, at + [i], cc);
      forall x | x in ChildSet(c, i, at, cluster) && x.parent == cluster
        ensures x == cc.value
      {
        assert x in ClustersOf(c.argp, at + [i], cc) ==> InsideAt(x, ClustersOf(c.argp, at + [i], cc), at + [i], cc);
      }
    } else {
      TreeTops(c.argp, at + [i], cluster);
      assert ChildSet(c, i, at, cluster) == ClustersOf(c.argp, at + [i], cluster);
    }
  }

  lemma {:induction false} TreesTops(cs: seq<Child>, at: seq<nat>, i: nat, cluster: Option<Cluster>)
    ensures TopsOk(TopsAll(cs, at, i, cluster), DirectAll(cs, i), ClustersOfAll(cs, at, i, cluster), cluster)
    decreases cs, 0
  {
    if cs != [] {
      assert cs decreases to cs[0];
      ChildTopsOk(cs[0], i, at, cluster);
      TreesTops(cs[1..], at, i + 1, cluster);
      ChildInside(cs[0], i, at, cluster);
      TreesInside(cs[1..], at, i + 1, cluster);
      TopsJoin(ChildTops(cs[0], i, at, cluster), ChildDirect(cs[0], i), ChildSet(cs[0], i, at, cluster),
               TopsAll(cs[1..], at, i + 1, cluster), DirectAll(cs[1..], i + 1), ClustersOfAll(cs[1..], at, i + 1, cluster), at, i, cluster);
    }
  }

  lemma TopsJoin(ts: seq<Cluster>, ds: seq<(int, int)>, s: set<Cluster>, us: seq<Cluster>, es: seq<(int, int)>, t: set<Cluster>,
                 at: seq<nat>, i: nat, cluster: Option<Cluster>)
    requires TopsOk(ts, ds, s, cluster) && TopsOk(us, es, t, cluster) && AllAt(s, at, i) && AllFrom(t, at, i + 1)
    ensures TopsOk(ts + us, ds + es, s + t, cluster)
  {
    forall p, q | 0 <= p < |ts| && 0 <= q < |us|
      ensures ts[p] != us[q]
    {
      assert TopAt(ts[p], ds[p], s, cluster) && TopAt(us[q], es[q], t, cluster);
      assert At(ts[p], at, i) && From(us[q], at, i + 1);
    }
    forall p | 0 <= p < |ts + us|
      ensures TopAt((ts + us)[p], (ds + es)[p], s + t, cluster)
    {
      if p < |ts| {
        assert TopAt(ts[p], ds[p], s, cluster);
      } else {
        assert TopAt(us[p - |ts|], es[p - |ts|], t, cluster);
      }
    }
  }

  // ----- Tidy trees -----

  ghost predicate Twins(x: Cluster, y: Cluster) { x.parent == y.parent && Mark(x) == Mark(y) }

  lemma NoTwinsAtTop(ts: seq<Cluster>, ds: seq<(int, int)>, created: set<Cluster>, cluster: Option<Cluster>, x: Cluster, y: Cluster)
    requires TopsOk(ts, ds, created, cluster) && NoRepeat(ds)
    requires x in created && y in created && x.parent == cluster && Twins(x, y)
    ensures x == y
  {
    var p :| 0 <= p < |ts| && ts[p] == x;
    var q :| 0 <= q < |ts| && ts[q] == y;
    assert TopAt(ts[p], ds[p], created, cluster) && TopAt(ts[q], ds[q], created, cluster);
  }

  lemma {:induction false} NoTwinsBelow(a: Argp, at: seq<nat>, cluster: Option<Cluster>, x: Cluster, y: Cluster)
    requires TidyBelow(a) && x in ClustersOf(a, at, cluster) && y in ClustersOf(a, at, cluster)
    requires Twins(x, y) && x.parent != cluster
    ensures x == y
    decreases a, 1
  {
    NoTwinsBelowAll(a.children, at, 0, cluster, x, y);
  }

  ghost predicate TidyChild(c: Child) { if Clustered(c) then Tidy(c.argp) else TidyBelow(c.argp) }

  lemma {:induction false} NoTwinsInChild(c: Child, i: nat, at: seq<nat>, cluster: Option<Cluster>, x: Cluster, y: Cluster)
    requires TidyChild(c) && x in ChildSet(c, i, at, cluster) && y in ChildSet(c, i, at, cluster)
    requires Twins(x, y) && x.parent != cluster
    ensures x == y
    decreases c, 2
  {
    var cc := ChildCluster(c, i, at, cluster);
    if Clustered(c) && x.parent == cc {
      TreeTops(c.argp, at + [i], cc);
      NoTwinsAtTop(Tops(c.argp, at + [i], cc), Direct(c.argp), ClustersOf(c.argp, at + [i], cc), cc, x, y);
    } else {
      NoTwinsBelow(c.argp, at + [i], cc, x, y);
    }
  }

  lemma {:induction false} NoTwinsBelowAll(cs: seq<Child>, at: seq<nat>, i: nat, cluster: Option<Cluster>, x: Cluster, y: Cluster)
    requires forall c | c in cs :: TidyChild(c)
    requires x in ClustersOfAll(cs, at, i, cluster) && y in ClustersOfAll(cs, at, i, cluster)
    requires Twins(x, y) && x.parent != cluster
    ensures x == y
    decreases cs, 0
  {
    assert cs decreases to cs[0];
    var s, t := ChildSet(cs[0], i, at, cluster), ClustersOfAll(cs[1..], at, i + 1, cluster);
    ChildInside(cs[0], i, at, cluster);
    TreesInside(cs[1..], at, i + 1, cluster);
    if x in s && y in s {
      NoTwinsInChild(cs[0], i, at, cluster, x, y);
    } else if x in t && y in t {
      NoTwinsBelowAll(cs[1..], at, i + 1, cluster, x, y);
    } else {
      ParentsApart(s, t, at, i, cluster, x, y);
    }
  }

  /** Clusters of different children have different parents, unless both are direct. */
  lemma ParentsApart(s: set<Cluster>, t: set<Cluster>, at: seq<nat>, i: nat, cluster: Option<Cluster>, x: Cluster, y: Cluster)
    requires Inside(s, at, cluster) && Inside(t, at, cluster) && AllAt(s, at, i) && AllFrom(t, at, i + 1)
    requires (x in s && y in t) || (x in t && y in s)
    requires x.parent != cluster
    ensures x.parent != y.parent
  {
    var u, v := if x in s then x else y, if x in s then y else x;
    assert InsideAt(u, s, at, cluster) && InsideAt(v, t, at, cluster);
    assert u.parent == cluster || At(u.parent.value, at, i);
    assert v.parent == cluster || From(v.parent.value, at, i + 1);
  }

  lemma {:induction false} DistinctIsTidyBelow(a: Argp, at: seq<nat>, cluster: Option<Cluster>)
    requires DistinctSiblings(ClustersOf(a, at, cluster))
    ensures TidyBelow(a)
    decreases a, 0
  {
    forall c | c in a.children
      ensures TidyChild(c)
    {
      var k :| 0 <= k < |a.children| && a.children[k] == c;
      ChildClustersIncluded(a.children, at, 0, cluster, k);
      if Clustered(c) {
        DistinctIsTidy(c.argp, at + [k], ChildCluster(c, k, at, cluster));
      } else {
        DistinctIsTidyBelow(c.argp, at + [k], ChildCluster(c, k, at, cluster));
      }
    }
  }

  lemma {:induction false} DistinctIsTidy(a: Argp, at: seq<nat>, cluster: Option<Cluster>)
    requires DistinctSiblings(ClustersOf(a, at, cluster))
    ensures Tidy(a)
    decreases a, 1
  {
    var ts, ds, created := Tops(a, at, cluster), Direct(a), ClustersOf(a, at, cluster);
    TreeTops(a, at, cluster);
    forall p, q | 0 <= p < q < |ds|
      ensures ds[p] != ds[q]
    {
      assert TopAt(ts[p], ds[p], created, cluster) && TopAt(ts[q], ds[q], created, cluster);
    }
    DistinctIsTidyBelow(a, at, cluster);
  }

  /** The sibling clusters created for a tree are distinct exactly when the tree is tidy. */
  lemma TidyDecides(a: Argp)
    ensures Tidy(a) <==> DistinctSiblings(ClustersOf(a, [], None))
  {
    var created := ClustersOf(a, [], None);
    if Tidy(a) {
      TreeTops(a, [], None);
      forall x, y | x in created && y in created && x.parent == y.parent && x.group == y.group && x.index == y.index
        ensures x == y
      {
        if x.parent == None {
          NoTwinsAtTop(Tops(a, [], None), Direct(a), created, None, x, y);
        } else {
          NoTwinsBelow(a, [], None, x, y);
        }
      }
    } else if DistinctSiblings(created) {
      DistinctIsTidy(a, [], None);
    }
  }

  /** A tree whose merged children bring no clusters of their own is tidy. */
  lemma CleanTreesAreTidy(a: Argp)
    requires Clean(a)
    ensures Tidy(a)
  {
    var forest := ClustersOf(a, [], None);
    TreeForest(a);
    CleanPlaces(a, [], None);
    forall x, y | x in forest && y in forest && x.parent == y.parent && x.group == y.group && x.index == y.index
      ensures x == y
    {
      assert WellFormed(x) && WellFormed(y);
    }
    TidyDecides(a);
  }

  // ----- The listing -----

  /** The entries of a help list as `hol_sort` compares them: each with the packed short options
      from its own pointer on. */
  ghost function HelpEntries(h: Hol): (es: seq<Entry>)
    requires Packed(h)
    ensures |es| == |h.entries|
  {
    seq(|h.entries|, i requires 0 <= i < |h.entries| => HelpEntry(h, i))
  }

  ghost function HelpEntry(h: Hol, i: nat): Entry
    requires Packed(h) && i < |h.entries|
  {
    PointerInside(h, i);
    Entry(h.entries[i].opts, h.shorts[h.entries[i].at..], h.entries[i].group, h.entries[i].cluster)
  }

  lemma PointerInside(h: Hol, i: nat)
    requires Packed(h) && i < |h.entries|
    ensures h.entries[i].at <= |h.shorts|
  {
    RepackAt(h.entries, i);
    EntryKeysPrefix(h.entries, i);
    PrefixLength(EntryKeys(h.entries[..i]), EntryKeys(h.entries));
  }

  lemma PrefixLength(a: seq<int>, b: seq<int>)
    requires a <= b
    ensures |Firsts(a)| <= |Firsts(b)|
  {
    FirstsOfPrefix(a, b);
  }

  // ----- Entries of a tree are well-formed -----

  ghost predicate NamesOk(us: seq<Use>) { forall i | 0 <= i < |us| :: NameOk(us[i].opt) }

  lemma {:induction false} TreeNames(a: Argp, at: seq<nat>, cluster: Option<Cluster>)
    requires WellDeclared(a)
    ensures NamesOk(Preorder(a, at, cluster))
    decreases a, 1
  {
    TreesNames(a.children, at, 0, cluster);
  }

  lemma {:induction false} TreesNames(cs: seq<Child>, at: seq<nat>, i: nat, cluster: Option<Cluster>)
    requires forall c | c in cs :: WellDeclared(c.argp)
    ensures NamesOk(PreorderAll(cs, at, i, cluster))
    decreases cs, 0
  {
    if cs != [] {
      assert cs decreases to cs[0];
      TreeNames(cs[0].argp, at + [i], ChildCluster(cs[0], i, at, cluster));
      TreesNames(cs[1..], at, i + 1, cluster);
    }
  }

  /** Each entry of a tree's list can be compared, and lies in a cluster of the tree or in none. */
  lemma HelpEntryOk(a: Argp, h: Hol, i: nat)
    requires WellDeclared(a) && Lists(h, TreeEntries(a, [], None)) && i < |h.entries|
    ensures ValidEntry(HelpEntry(h, i)) && In(ClustersOf(a, [], None), HelpEntry(h, i))
  {
    ListedInPreorder(h, a, [], None);
    TreeNames(a, [], None);
    EntryNames(h.entries, i);
    TreePlaced(a, [], None);
    PlacedRepack(TreeEntries(a, [], None), None, ClustersOf(a, [], None));
    TreeForest(a);
  }

  lemma EntryNames(es: seq<HolEntry>, i: nat)
    requires NamesOk(EntryUses(es)) && i < |es|
    ensures forall j | 0 <= j < |es[i].opts| :: NameOk(es[i].opts[j])
  {
    forall j | 0 <= j < |es[i].opts|
      ensures NameOk(es[i].opts[j])
    {
      UseAt(es, i, j);
    }
  }

  /** ES are the entries of H in some order. */
  ghost predicate Rearranged(h: Hol, es: seq<Entry>) { Packed(h) && multiset(es) == multiset(HelpEntries(h)) }

  lemma RearrangedFrom(h: Hol, es: seq<Entry>, j: nat) returns (i: nat)
    requires Rearranged(h, es) && j < |es|
    ensures i < |h.entries| && es[j] == HelpEntry(h, i)
  {
    var all := HelpEntries(h);
    assert es[j] in multiset(es);
    assert es[j] in all;
    i :| 0 <= i < |all| && all[i] == es[j];
  }

  /** Every order of the entries of a tree's list that is sorted is a listing of the tree's
      clusters. */
  lemma OutputIsListing(a: Argp, h: Hol, es: seq<Entry>)
    requires WellDeclared(a) && Lists(h, TreeEntries(a, [], None)) && Rearranged(h, es)
    ensures forall j | 0 <= j < |es| :: ValidEntry(es[j]) && In(ClustersOf(a, [], None), es[j])
  {
    forall j | 0 <= j < |es|
      ensures ValidEntry(es[j]) && In(ClustersOf(a, [], None), es[j])
    {
      var i := RearrangedFrom(h, es, j);
      HelpEntryOk(a, h, i);
    }
  }

  /** What `hol_sort` may leave of the list H. */
  ghost predicate Output(l: Locale, h: Hol, es: seq<Entry>) {
    Rearranged(h, es) && (forall j | 0 <= j < |es| :: ValidEntry(es[j])) && SortedBy(l, es)
  }

  /** The help output of a tidy tree, as `argp_hol` and `hol_sort` make it, keeps every cluster in
      one block. */
  lemma TidyOutput(a: Argp, l: Locale, h: Hol, es: seq<Entry>, c: Cluster)
    requires WellDeclared(a) && Tidy(a) && Sane(l) && c in ClustersOf(a, [], None)
    requires Lists(h, TreeEntries(a, [], None)) && Output(l, h, es)
    ensures Contiguous(es, c)
  {
    OutputIsListing(a, h, es);
    TreeForest(a);
    TidyDecides(a);
    SortedIsContiguous(l, ClustersOf(a, [], None), es, c);
  }

  /** Whatever options are listed in the clusters of a tree, sorted listings keep every cluster in
      one block: exactly when the tree is tidy. */
  lemma TidyTreesDecide(a: Argp, l: Locale, e: Entry)
    requires Sane(l) && ValidEntry(e)
    ensures Tidy(a) <==> forall es, c | Listing(l, ClustersOf(a, [], None), es) && c in ClustersOf(a, [], None) :: Contiguous(es, c)
  {
    TidyDecides(a);
    TreeForest(a);
    DistinctSiblingsDecide(l, ClustersOf(a, [], None), e);
  }
}
