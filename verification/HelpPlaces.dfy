/** Groups and clusters of help entries, read off the declarations: how entries inherit group
    numbers, and in which cluster the options of an argp end up. */
module HelpPlaces {
  import opened Wrappers
  import opened ArgpTypes
  import opened FirstUses
  import opened HelpOrder
  import opened HelpLists
  import opened HelpTree
  import opened HelpListing
  import opened TreePlaces
  import ParserTables

  // ----- Groups -----

  /** An option without name and key that gives no group opens the next one. */
  predicate Opens(o: Opt) { o.group == 0 && o.name.None? && o.key == 0 }

  /** How many of the entries from LO to HI open a group. */
  function Opened(es: seq<HolEntry>, lo: nat, hi: nat): nat
    requires lo <= hi <= |es|
  {
    if lo == hi then 0 else Opened(es, lo, hi - 1) + if es[hi - 1].opts != [] && Opens(es[hi - 1].opts[0]) then 1 else 0
  }

  /** Entry K gives its own group. */
  predicate GivesGroup(es: seq<HolEntry>, k: nat)
    requires k < |es|
  {
    es[k].opts != [] && es[k].opts[0].group != 0
  }

  /** The group of an entry is the last one given up to it, or 0 if none is, plus the number of
      groups opened since. */
  lemma {:induction false} GroupsInherited(es: seq<HolEntry>, cluster: Option<Cluster>, argp: seq<nat>, i: nat, j: nat)
    requires Grouped(es, cluster, argp) && i <= j < |es| && forall k | i < k <= j :: !GivesGroup(es, k)
    ensures GivesGroup(es, i) ==> es[j].group == es[i].opts[0].group + Opened(es, i + 1, j + 1)
    ensures i == 0 && !GivesGroup(es, 0) ==> es[j].group == Opened(es, 0, j + 1)
  {
    assert GroupedAt(es, j, cluster, argp);
    if i < j {
      GroupsInherited(es, cluster, argp, i, j - 1);
      assert !GivesGroup(es, j);
      assert Opened(es, i + 1, j + 1) == Opened(es, i + 1, j) + Opened(es, j, j + 1);
    } else if i == 0 {
      assert Opened(es, 0, 1) == Opened(es, 0, 0) + if Opens(es[0].opts[0]) then 1 else 0;
    }
  }

  // ----- Clusters -----

  /** The child record that put the argp at place P where it is. */
  function ChildAt(a: Argp, p: seq<nat>): Child
    requires p != [] && IsPlace(a, p)
    decreases p
  {
    if |p| == 1 then a.children[p[0]] else ChildAt(a.children[p[0]].argp, p[1..])
  }

  predicate HasOwnCluster(a: Argp, p: seq<nat>)
    requires p != [] && IsPlace(a, p)
  {
    ChildAt(a, p).group != 0 || ChildAt(a, p).hasHeader
  }

  lemma {:induction false} PlaceNext(a: Argp, p: seq<nat>, i: nat)
    requires IsPlace(a, p) && i < |ArgpAt(a, p).children|
    ensures IsPlace(a, p + [i]) && ArgpAt(a, p + [i]) == ArgpAt(a, p).children[i].argp && ChildAt(a, p + [i]) == ArgpAt(a, p).children[i]
    decreases p
  {
    if p == [] {
      assert p + [i] == [i] && [i][1..] == [];
    } else {
      PlaceNext(a.children[p[0]].argp, p[1..], i);
      assert (p + [i])[1..] == p[1..] + [i];
    }
  }

  lemma {:induction false} PlaceAbove(a: Argp, p: seq<nat>)
    requires IsPlace(a, p) && p != []
    ensures IsPlace(a, p[..|p| - 1])
    decreases p
  {
    if |p| > 1 {
      PlaceAbove(a.children[p[0]].argp, p[1..]);
      assert p[..|p| - 1][1..] == p[1..][..|p| - 2];
    }
  }

  /** C is the cluster of the argp at place P, found by going up: the nearest child record with a
      group or a header makes it, one level below the cluster of the argp that has this child. */
  ghost predicate InCluster(a: Argp, p: seq<nat>, c: Option<Cluster>)
    requires IsPlace(a, p)
    decreases |p|
  {
    if p == [] then c == None
    else
      PlaceAbove(a, p);
      var n := |p| - 1;
      if !HasOwnCluster(a, p) then InCluster(a, p[..n], c)
      else
        && c.Some? && c.value.id == p && c.value.group == ChildAt(a, p).group && c.value.index == p[n]
        && InCluster(a, p[..n], c.value.parent)
        && c.value.depth == if c.value.parent.Some? then c.value.parent.value.depth + 1 else 0
  }

  lemma ChildInCluster(r: Argp, at: seq<nat>, a: Argp, cluster: Option<Cluster>, i: nat)
    requires IsPlace(r, at) && ArgpAt(r, at) == a && InCluster(r, at, cluster) && i < |a.children|
    ensures IsPlace(r, at + [i]) && ArgpAt(r, at + [i]) == a.children[i].argp
    ensures InCluster(r, at + [i], ChildCluster(a.children[i], i, at, cluster))
  {
    PlaceNext(r, at, i);
    assert (at + [i])[..|at|] == at;
  }

  /** A use of an option in a listing belongs to its argp and stands in the cluster of it. */
  ghost predicate UsePlaced(r: Argp, u: Use) {
    IsPlace(r, u.owner) && u.opt in OptionsOrNone(ArgpAt(r, u.owner)) && InCluster(r, u.owner, u.cluster)
  }

  lemma {:induction false} UsesPlaced(r: Argp, at: seq<nat>, a: Argp, cluster: Option<Cluster>, j: nat)
    requires IsPlace(r, at) && ArgpAt(r, at) == a && InCluster(r, at, cluster) && j < |Preorder(a, at, cluster)|
    ensures UsePlaced(r, Preorder(a, at, cluster)[j])
    decreases a, |a.children| + 1
  {
    var n := |OptionsOrNone(a)|;
    if j >= n {
      assert a.children[0..] == a.children;
      UsesPlacedBelow(r, at, a, cluster, 0, j - n);
    }
  }

  lemma {:induction false} UsesPlacedBelow(r: Argp, at: seq<nat>, a: Argp, cluster: Option<Cluster>, i: nat, j: nat)
    requires IsPlace(r, at) && ArgpAt(r, at) == a && InCluster(r, at, cluster)
    requires i <= |a.children| && j < |PreorderAll(a.children[i..], at, i, cluster)|
    ensures UsePlaced(r, PreorderAll(a.children[i..], at, i, cluster)[j])
    decreases a, |a.children| - i
  {
    var cs := a.children[i..];
    var c := ChildCluster(a.children[i], i, at, cluster);
    var first := Preorder(a.children[i].argp, at + [i], c);
    assert cs[1..] == a.children[i + 1..] && cs[0] == a.children[i];
    assert PreorderAll(cs, at, i, cluster) == first + PreorderAll(cs[1..], at, i + 1, cluster);
    if j < |first| {
      ChildInCluster(r, at, a, cluster, i);
      UsesPlaced(r, at + [i], a.children[i].argp, c, j);
    } else {
      UsesPlacedBelow(r, at, a, cluster, i + 1, j - |first|);
    }
  }

  /** Every option in the help list of a whole tree stands in the cluster of its argp. */
  lemma ListedInClusters(h: Hol, a: Argp, j: nat)
    requires Lists(h, TreeEntries(a, [], None)) && j < |EntryUses(h.entries)|
    ensures UsePlaced(a, EntryUses(h.entries)[j])
  {
    ListedInPreorder(h, a, [], None);
    UsesPlaced(a, [], a, None, j);
  }

  // ----- The order of the options -----

  /** Every option of every argp is listed. */
  lemma {:induction false} UseListed(a: Argp, at: seq<nat>, cluster: Option<Cluster>, p: seq<nat>, i: nat) returns (j: nat)
    requires IsPlace(a, p) && i < |OptionsOrNone(ArgpAt(a, p))|
    ensures j < |Preorder(a, at, cluster)|
    ensures Preorder(a, at, cluster)[j].opt == OptionsOrNone(ArgpAt(a, p))[i] && Preorder(a, at, cluster)[j].owner == at + p
    decreases a, |a.children| + 1
  {
    if p == [] {
      j := i;
      assert at + [] == at;
    } else {
      assert a.children[0..] == a.children;
      j := UseListedBelow(a, at, cluster, 0, p, i);
      j := j + |OptionsOrNone(a)|;
    }
  }

  lemma {:induction false} UseListedBelow(a: Argp, at: seq<nat>, cluster: Option<Cluster>, c: nat, p: seq<nat>, i: nat) returns (j: nat)
    requires IsPlace(a, p) && p != [] && c <= p[0] && i < |OptionsOrNone(ArgpAt(a, p))|
    ensures var us := PreorderAll(a.children[c..], at, c, cluster);
            j < |us| && us[j].opt == OptionsOrNone(ArgpAt(a, p))[i] && us[j].owner == at + p
    decreases a, |a.children| - c
  {
    var cs, d := a.children[c..], a.children[c];
    var first := Preorder(d.argp, at + [c], ChildCluster(d, c, at, cluster));
    assert cs[0] == d && cs[1..] == a.children[c + 1..];
    assert PreorderAll(cs, at, c, cluster) == first + PreorderAll(cs[1..], at, c + 1, cluster);
    if p[0] == c {
      j := UseListed(d.argp, at + [c], ChildCluster(d, c, at, cluster), p[1..], i);
      assert at + [c] + p[1..] == at + p;
    } else {
      j := UseListedBelow(a, at, cluster, c + 1, p, i);
      j := j + |first|;
    }
  }

  /** Where a listed option comes from. */
  lemma {:induction false} UseOwner(a: Argp, at: seq<nat>, cluster: Option<Cluster>, j: nat) returns (p: seq<nat>)
    requires j < |Preorder(a, at, cluster)|
    ensures Preorder(a, at, cluster)[j].owner == at + p
    decreases a, |a.children| + 1
  {
    var n := |OptionsOrNone(a)|;
    if j < n {
      p := [];
      assert at + [] == at;
    } else {
      assert a.children[0..] == a.children;
      p := UseOwnerBelow(a, at, cluster, 0, j - n);
    }
  }

  lemma {:induction false} UseOwnerBelow(a: Argp, at: seq<nat>, cluster: Option<Cluster>, c: nat, j: nat) returns (p: seq<nat>)
    requires c <= |a.children| && j < |PreorderAll(a.children[c..], at, c, cluster)|
    ensures p != [] && c <= p[0] && PreorderAll(a.children[c..], at, c, cluster)[j].owner == at + p
    decreases a, |a.children| - c
  {
    var cs, d := a.children[c..], a.children[c];
    var first := Preorder(d.argp, at + [c], ChildCluster(d, c, at, cluster));
    assert cs[0] == d && cs[1..] == a.children[c + 1..];
    assert PreorderAll(cs, at, c, cluster) == first + PreorderAll(cs[1..], at, c + 1, cluster);
    if j < |first| {
      var q := UseOwner(d.argp, at + [c], ChildCluster(d, c, at, cluster), j);
      p := [c] + q;
      assert at + [c] + q == at + p;
    } else {
      p := UseOwnerBelow(a, at, cluster, c + 1, j - |first|);
    }
  }

  /** No option is listed twice: there are as many uses as options. */
  lemma {:induction false} UsesCounted(a: Argp, at: seq<nat>, cluster: Option<Cluster>)
    ensures |Preorder(a, at, cluster)| == ParserTables.OptionCount(a)
    decreases a, 1
  {
    UsesCountedAll(a.children, at, 0, cluster);
  }

  lemma {:induction false} UsesCountedAll(cs: seq<Child>, at: seq<nat>, i: nat, cluster: Option<Cluster>)
    ensures |PreorderAll(cs, at, i, cluster)| == ParserTables.OptionCountAll(cs)
    decreases cs, 0
  {
    if cs != [] {
      assert cs decreases to cs[0];
      UsesCounted(cs[0].argp, at + [i], ChildCluster(cs[0], i, at, cluster));
      UsesCountedAll(cs[1..], at, i + 1, cluster);
    }
  }

  predicate NotAfter(u: Use, v: Use) { u.owner == v.owner || Before(u.owner, v.owner) }

  /** Options are listed in the order of the places of their argps. */
  lemma {:induction false} UsesInOrder(a: Argp, at: seq<nat>, cluster: Option<Cluster>, j: nat, k: nat)
    requires j < k < |Preorder(a, at, cluster)|
    ensures NotAfter(Preorder(a, at, cluster)[j], Preorder(a, at, cluster)[k])
    decreases a, |a.children| + 1
  {
    var n := |OptionsOrNone(a)|;
    if k >= n {
      assert a.children[0..] == a.children;
      if j < n {
        var p := UseOwnerBelow(a, at, cluster, 0, k - n);
        assert at + [] == at;
        BeforeBelow(at, [], p);
      } else {
        UsesInOrderBelow(a, at, cluster, 0, j - n, k - n);
      }
    }
  }

  lemma {:induction false} UsesInOrderBelow(a: Argp, at: seq<nat>, cluster: Option<Cluster>, c: nat, j: nat, k: nat)
    requires c <= |a.children| && j < k < |PreorderAll(a.children[c..], at, c, cluster)|
    ensures var us := PreorderAll(a.children[c..], at, c, cluster); NotAfter(us[j], us[k])
    decreases a, |a.children| - c
  {
    var cs, d := a.children[c..], a.children[c];
    var own := ChildCluster(d, c, at, cluster);
    var first := Preorder(d.argp, at + [c], own);
    assert cs[0] == d && cs[1..] == a.children[c + 1..];
    assert PreorderAll(cs, at, c, cluster) == first + PreorderAll(cs[1..], at, c + 1, cluster);
    if k < |first| {
      UsesInOrder(d.argp, at + [c], own, j, k);
    } else if j < |first| {
      var p := UseOwner(d.argp, at + [c], own, j);
      var q := UseOwnerBelow(a, at, cluster, c + 1, k - |first|);
      LowerChildBefore(at, c, p, q);
    } else {
      UsesInOrderBelow(a, at, cluster, c + 1, j - |first|, k - |first|);
    }
  }

  // ----- Letters -----

  /** Option M of an entry, whose keys start at place P of all keys, is visible and the first to
      use its short key. */
  ghost predicate Counts(opts: seq<Opt>, all: seq<int>, p: nat, m: nat)
    requires m < |opts|
  {
    FirstUse(all, p + m) && !opts[m].hidden
  }

  /** C is the key of the first such option from option J on, or 0 if there is none. */
  ghost predicate LetterIs(opts: seq<Opt>, all: seq<int>, p: nat, j: nat, c: int) {
    || (c == 0 && forall m: nat | j <= m < |opts| :: !Counts(opts, all, p, m))
    || exists m: nat | j <= m < |opts| ::
         Counts(opts, all, p, m) && c == opts[m].key && forall k: nat | j <= k < m :: !Counts(opts, all, p, k)
  }

  lemma LetterNext(opts: seq<Opt>, all: seq<int>, p: nat, j: nat, c: int)
    requires j < |opts| && !Counts(opts, all, p, j) && LetterIs(opts, all, p, j + 1, c)
    ensures LetterIs(opts, all, p, j, c)
  {
    if m: nat :| j + 1 <= m < |opts| && Counts(opts, all, p, m) && c == opts[m].key && forall k: nat | j + 1 <= k < m :: !Counts(opts, all, p, k) {
      assert forall k: nat | j <= k < m :: !Counts(opts, all, p, k);
    }
  }

  lemma ShortStep(opts: seq<Opt>, packed: seq<int>, j: nat, so: nat)
    requires j < |opts| && so <= |packed|
    ensures FirstShort(opts[j..], packed[so..]) ==
            if opts[j].IsShort() && so < |packed| && packed[so] == opts[j].key
            then (if opts[j].hidden then FirstShort(opts[j + 1..], packed[so + 1..]) else opts[j].key)
            else FirstShort(opts[j + 1..], packed[so..])
  {
    assert opts[j..][1..] == opts[j + 1..];
    assert so < |packed| ==> packed[so..][1..] == packed[so + 1..];
  }

  lemma {:induction false} LetterFrom(opts: seq<Opt>, base: seq<int>, ks: seq<int>, all: seq<int>, packed: seq<int>, j: nat, so: nat)
    requires ks == KeysOf(opts) && base + ks <= all && packed == Firsts(all) && j <= |opts|
    requires so == |Firsts(base + ks[..j])| <= |packed|
    ensures LetterIs(opts, all, |base|, j, FirstShort(opts[j..], packed[so..]))
    decreases |opts| - j
  {
    if j < |opts| {
      var next := |Firsts(base + ks[..j + 1])|;
      LetterStep(opts, base, ks, all, packed, j, so, next);
      LetterFrom(opts, base, ks, all, packed, j + 1, next);
      if !Counts(opts, all, |base|, j) {
        LetterNext(opts, all, |base|, j, FirstShort(opts[j + 1..], packed[next..]));
      }
    }
  }

  lemma LetterStep(opts: seq<Opt>, base: seq<int>, ks: seq<int>, all: seq<int>, packed: seq<int>, j: nat, so: nat, next: nat)
    requires ks == KeysOf(opts) && base + ks <= all && packed == Firsts(all) && j < |opts|
    requires so == |Firsts(base + ks[..j])| <= |packed| && next == |Firsts(base + ks[..j + 1])|
    ensures next <= |packed|
    ensures FirstShort(opts[j..], packed[so..]) ==
            if Counts(opts, all, |base|, j) then opts[j].key else FirstShort(opts[j + 1..], packed[next..])
  {
    Recognition(base, ks, j, all, packed, so);
    FirstsOfPrefix(base + ks[..j + 1], all);
    ShortStep(opts, packed, j, so);
  }

  /** The short option that counts for a listed entry is its first visible one that no option
      before uses. */
  lemma ListedLetter(h: Hol, i: nat)
    requires Packed(h) && i < |h.entries|
    ensures var e := HelpEntry(h, i);
            LetterIs(e.opts, EntryKeys(h.entries), |EntryKeys(h.entries[..i])|, 0, FirstShort(e.opts, e.shorts))
  {
    var e, all, base, ks := h.entries[i], EntryKeys(h.entries), EntryKeys(h.entries[..i]), KeysOf(h.entries[i].opts);
    RepackAt(h.entries, i);
    NextKeys(h.entries, i);
    FirstsOfPrefix(base, all);
    assert base + ks[..0] == base && e.opts[0..] == e.opts;
    LetterFrom(e.opts, base, ks, all, h.shorts, 0, e.at);
  }
}
