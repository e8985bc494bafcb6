/** The help list of a whole argp tree: `argp_hol`, the clusters it creates, and the decoding
    of the packed short options by `hol_entry_short_iterate`. */
module HelpTree {
  import opened Wrappers
  import opened ArgpTypes
  import opened FirstUses
  import opened HelpOrder
  import opened HelpLists
  import opened Sequences

  // ----- Decoding -----

  /** At option J the cursor stands at PLACE and the test `*so == opt->key` yields FLAG. */
  ghost predicate StepAt(opts: seq<Opt>, shorts: seq<int>, flags: seq<bool>, places: seq<nat>, j: nat)
    requires |flags| == |opts| && |places| == |opts| + 1 && j < |opts|
  {
    && (flags[j] <==> opts[j].IsShort() && places[j] < |shorts| && shorts[places[j]] == opts[j].key)
    && places[j + 1] == places[j] + if flags[j] then 1 else 0
  }

  /** The loop of `hol_entry_short_iterate`. */
  method WalkShorts(opts: seq<Opt>, shorts: seq<int>, at: nat, ghost flags: seq<bool>, ghost places: seq<nat>)
    returns (recognized: seq<bool>)
    requires |flags| == |opts| && |places| == |opts| + 1 && places[0] == at
    requires forall j | 0 <= j < |opts| :: StepAt(opts, shorts, flags, places, j)
    ensures recognized == flags
  {
    recognized := [];
    var so := at;
    var j := 0;
    while j < |opts|
      invariant 0 <= j <= |opts| && so == places[j] && recognized == flags[..j]
    {
      assert StepAt(opts, shorts, flags, places, j);
      if opts[j].IsShort() && so < |shorts| && shorts[so] == opts[j].key {
        recognized, so := recognized + [true], so + 1;
      } else {
        recognized := recognized + [false];
      }
      j := j + 1;
    }
  }

  ghost function FirstFlags(all: seq<int>, p: nat, n: nat): (flags: seq<bool>)
    ensures |flags| == n && forall j | 0 <= j < n :: flags[j] <==> FirstUse(all, p + j)
  {
    seq(n, j requires 0 <= j < n => FirstUse(all, p + j))
  }

  ghost function Places(base: seq<int>, ks: seq<int>): (places: seq<nat>)
    ensures |places| == |ks| + 1 && forall j | 0 <= j <= |ks| :: places[j] == |Firsts(base + ks[..j])|
  {
    seq(|ks| + 1, j requires 0 <= j <= |ks| => |Firsts(base + ks[..j])|)
  }

  /** Which options of entry I a walk along the packed string recognizes: exactly those that
      were the first in the whole list to use their short key. */
  method ShortIterate(h: Hol, i: nat) returns (recognized: seq<bool>)
    requires Packed(h) && i < |h.entries|
    ensures |recognized| == |h.entries[i].opts|
    ensures forall j | 0 <= j < |recognized| :: recognized[j] <==> FirstUse(EntryKeys(h.entries), |EntryKeys(h.entries[..i])| + j)
  {
    ghost var flags := FirstFlags(EntryKeys(h.entries), |EntryKeys(h.entries[..i])|, |h.entries[i].opts|);
    ghost var places := Places(EntryKeys(h.entries[..i]), KeysOf(h.entries[i].opts));
    PlannedWalk(h, i, flags, places);
    recognized := WalkShorts(h.entries[i].opts, h.shorts, h.entries[i].at, flags, places);
  }

  lemma PlannedWalk(h: Hol, i: nat, flags: seq<bool>, places: seq<nat>)
    requires Packed(h) && i < |h.entries|
    requires flags == FirstFlags(EntryKeys(h.entries), |EntryKeys(h.entries[..i])|, |h.entries[i].opts|)
    requires places == Places(EntryKeys(h.entries[..i]), KeysOf(h.entries[i].opts))
    ensures places[0] == h.entries[i].at
    ensures forall j | 0 <= j < |h.entries[i].opts| :: StepAt(h.entries[i].opts, h.shorts, flags, places, j)
  {
    var all, base, ks := EntryKeys(h.entries), EntryKeys(h.entries[..i]), KeysOf(h.entries[i].opts);
    RepackAt(h.entries, i);
    NextKeys(h.entries, i);
    assert base + ks[..0] == base;
    forall j | 0 <= j < |ks|
      ensures StepAt(h.entries[i].opts, h.shorts, flags, places, j)
    {
      PlannedStep(h.entries[i].opts, h.shorts, flags, places, j, base, ks, all);
    }
  }

  lemma PlannedStep(opts: seq<Opt>, shorts: seq<int>, flags: seq<bool>, places: seq<nat>, j: nat, base: seq<int>, ks: seq<int>, all: seq<int>)
    requires j < |opts| && ks == KeysOf(opts) && base + ks <= all && shorts == Firsts(all)
    requires flags == FirstFlags(all, |base|, |opts|) && places == Places(base, ks)
    ensures StepAt(opts, shorts, flags, places, j)
  {
    Recognition(base, ks, j, all, shorts, places[j]);
  }

  lemma Recognition(base: seq<int>, ks: seq<int>, j: nat, all: seq<int>, packed: seq<int>, so: nat)
    requires j < |ks| && base + ks <= all && packed == Firsts(all) && so == |Firsts(base + ks[..j])|
    ensures (ks[j] != 0 && so < |packed| && packed[so] == ks[j]) <==> FirstUse(all, |base| + j)
    ensures |Firsts(base + ks[..j + 1])| == so + if FirstUse(all, |base| + j) then 1 else 0
  {
    var before := base + ks[..j];
    PrefixNext(base, ks, j, all);
    CountNext(before, ks[j]);
    if ks[j] != 0 {
      TestRecognizes(before, ks[j], all);
    }
    assert all[..|base| + j] == before && all[|base| + j] == ks[j];
  }

  // ----- The tree -----

  /** An option together with the argp that declares it and its cluster. */
  datatype Use = Use(opt: Opt, owner: seq<nat>, cluster: Option<Cluster>)

  function Owned(opts: seq<Opt>, owner: seq<nat>, cluster: Option<Cluster>): (us: seq<Use>)
    ensures |us| == |opts| && forall i | 0 <= i < |us| :: us[i] == Use(opts[i], owner, cluster)
  {
    seq(|opts|, i requires 0 <= i < |opts| => Use(opts[i], owner, cluster))
  }

  function OptionsOrNone(a: Argp): seq<Opt> { if a.options.Some? then a.options.value else [] }

  /** The cluster of a child: its own when it has a group or a header, else its parent's. */
  function ChildCluster(c: Child, i: nat, at: seq<nat>, cluster: Option<Cluster>): Option<Cluster> {
    if c.group != 0 || c.hasHeader
    then Some(Cluster(at + [i], c.group, i, if cluster.Some? then cluster.value.depth + 1 else 0, cluster))
    else cluster
  }

  /** All options of an argp tree in preorder, with the place of their argp and its cluster. */
  function Preorder(a: Argp, at: seq<nat>, cluster: Option<Cluster>): seq<Use>
    decreases a, 1
  {
    Owned(OptionsOrNone(a), at, cluster) + PreorderAll(a.children, at, 0, cluster)
  }

  function PreorderAll(cs: seq<Child>, at: seq<nat>, i: nat, cluster: Option<Cluster>): seq<Use>
    decreases cs, 0
  {
    if cs == [] then []
    else
      assert cs decreases to cs[0];
      Preorder(cs[0].argp, at + [i], ChildCluster(cs[0], i, at, cluster)) + PreorderAll(cs[1..], at, i + 1, cluster)
  }

  /** The options of a list of entries, with the place of their argp and its cluster. */
  function EntryUses(es: seq<HolEntry>): seq<Use> {
    if es == [] then [] else EntryUses(es[..|es| - 1]) + Owned(es[|es| - 1].opts, es[|es| - 1].argp, es[|es| - 1].cluster)
  }

  lemma UsesSnoc(all: seq<HolEntry>, es: seq<HolEntry>, e: HolEntry)
    requires all == es + [e]
    ensures EntryUses(all) == EntryUses(es) + Owned(e.opts, e.argp, e.cluster)
  {
    assert all[..|all| - 1] == es;
  }

  lemma {:induction false} UsesOfConcat(es: seq<HolEntry>, fs: seq<HolEntry>)
    ensures EntryUses(es + fs) == EntryUses(es) + EntryUses(fs)
  {
    if fs == [] {
      assert es + fs == es;
    } else {
      var n := |fs| - 1;
      UsesOfConcat(es, fs[..n]);
      UsesSnoc(es + fs, es + fs[..n], fs[n]);
      UsesSnoc(fs, fs[..n], fs[n]);
      Associate(EntryUses(es), EntryUses(fs[..n]), Owned(fs[n].opts, fs[n].argp, fs[n].cluster));
    }
  }

  lemma {:induction false} UsesOfRepack(es: seq<HolEntry>)
    ensures EntryUses(Repack(es)) == EntryUses(es)
  {
    if es != [] {
      var n := |es| - 1;
      UsesOfRepack(es[..n]);
      assert Repack(es)[..n] == Repack(es[..n]);
    }
  }

  function UseKeys(us: seq<Use>): (ks: seq<int>)
    ensures |ks| == |us| && forall i | 0 <= i < |ks| :: ks[i] == KeyOf(us[i].opt)
  {
    seq(|us|, i requires 0 <= i < |us| => KeyOf(us[i].opt))
  }

  lemma {:induction false} KeysOfUses(es: seq<HolEntry>)
    ensures EntryKeys(es) == UseKeys(EntryUses(es))
  {
    if es != [] {
      KeysOfUses(es[..|es| - 1]);
    }
  }

  function OwnCluster(c: Child, i: nat, at: seq<nat>, cluster: Option<Cluster>): set<Cluster> {
    if c.group != 0 || c.hasHeader then {ChildCluster(c, i, at, cluster).value} else {}
  }

  /** The clusters created below a place of the tree. */
  function ClustersOf(a: Argp, at: seq<nat>, cluster: Option<Cluster>): set<Cluster>
    decreases a, 1
  {
    ClustersOfAll(a.children, at, 0, cluster)
  }

  function ClustersOfAll(cs: seq<Child>, at: seq<nat>, i: nat, cluster: Option<Cluster>): set<Cluster>
    decreases cs, 0
  {
    if cs == [] then {}
    else
      assert cs decreases to cs[0];
      OwnCluster(cs[0], i, at, cluster) + ClustersOf(cs[0].argp, at + [i], ChildCluster(cs[0], i, at, cluster))
      + ClustersOfAll(cs[1..], at, i + 1, cluster)
  }

  ghost predicate Placed(es: seq<HolEntry>, cluster: Option<Cluster>, created: set<Cluster>) {
    forall i | 0 <= i < |es| :: es[i].cluster == cluster || (es[i].cluster.Some? && es[i].cluster.value in created)
  }

  lemma {:induction false} PlacedRepack(es: seq<HolEntry>, cluster: Option<Cluster>, created: set<Cluster>)
    requires Placed(es, cluster, created)
    ensures Placed(Repack(es), cluster, created)
  {
    forall i | 0 <= i < |es|
      ensures Repack(es)[i].cluster == es[i].cluster
    {
      RepackAt(es, i);
    }
  }

  lemma {:induction false} ChildClustersIncluded(cs: seq<Child>, at: seq<nat>, i: nat, cluster: Option<Cluster>, k: nat)
    requires k < |cs|
    ensures OwnCluster(cs[k], i + k, at, cluster) <= ClustersOfAll(cs, at, i, cluster)
    ensures ClustersOf(cs[k].argp, at + [i + k], ChildCluster(cs[k], i + k, at, cluster)) <= ClustersOfAll(cs, at, i, cluster)
    decreases cs
  {
    if k > 0 {
      ChildClustersIncluded(cs[1..], at, i + 1, cluster, k - 1);
    }
  }

  /** The entries of a tree in preorder, their pointers not yet set. */
  function TreeEntries(a: Argp, at: seq<nat>, cluster: Option<Cluster>): seq<HolEntry>
    decreases a, 1
  {
    EntriesOf(a, at, cluster) + TreeEntriesAll(a.children, at, 0, cluster)
  }

  function EntriesOf(a: Argp, at: seq<nat>, cluster: Option<Cluster>): seq<HolEntry> {
    OwnEntries(OptionsOrNone(a), |OptionsOrNone(a)|, cluster, at)
  }

  function TreeEntriesAll(cs: seq<Child>, at: seq<nat>, i: nat, cluster: Option<Cluster>): seq<HolEntry>
    decreases cs, 0
  {
    if cs == [] then []
    else
      assert cs decreases to cs[0];
      TreeEntries(cs[0].argp, at + [i], ChildCluster(cs[0], i, at, cluster)) + TreeEntriesAll(cs[1..], at, i + 1, cluster)
  }

  /** Entries that differ at most in their pointers. */
  ghost predicate Alike(es: seq<HolEntry>, fs: seq<HolEntry>) {
    |es| == |fs| && forall i | 0 <= i < |es| :: es[i].(at := 0) == fs[i].(at := 0)
  }

  lemma {:induction false} AlikeRepack(es: seq<HolEntry>, fs: seq<HolEntry>)
    requires Alike(es, fs)
    ensures EntryKeys(es) == EntryKeys(fs) && Repack(es) == Repack(fs)
  {
    if es != [] {
      var n := |es| - 1;
      AlikeRepack(es[..n], fs[..n]);
      assert es[n].(at := 0) == fs[n].(at := 0);
    }
  }

  lemma RepackAlike(es: seq<HolEntry>)
    ensures Alike(Repack(es), es)
  {
    forall i | 0 <= i < |es|
      ensures Repack(es)[i].(at := 0) == es[i].(at := 0)
    {
      RepackAt(es, i);
    }
  }

  /** Packing two packed lists again is packing both in one go. */
  lemma RepackConcat(es: seq<HolEntry>, fs: seq<HolEntry>)
    ensures Repack(Repack(es) + Repack(fs)) == Repack(es + fs)
  {
    RepackAlike(es);
    RepackAlike(fs);
    AlikeRepack(Repack(es) + Repack(fs), es + fs);
  }

  /** H is the packed list of the entries ES. */
  ghost predicate Lists(h: Hol, es: seq<HolEntry>) { Packed(h) && h.entries == Repack(es) }

  method OwnHol(a: Argp, at: seq<nat>, cluster: Option<Cluster>) returns (h: Hol)
    requires WellDeclared(a)
    ensures Lists(h, EntriesOf(a, at, cluster))
  {
    h := MakeHol(a.options, cluster, at);
  }

  function ChildEntries(a: Argp, i: nat, at: seq<nat>, cluster: Option<Cluster>): seq<HolEntry>
    requires i < |a.children|
  {
    TreeEntries(a.children[i].argp, at + [i], ChildCluster(a.children[i], i, at, cluster))
  }

  /** The entries of an argp and of its first I children. */
  function EntriesTo(a: Argp, i: nat, at: seq<nat>, cluster: Option<Cluster>): seq<HolEntry>
    requires i <= |a.children|
  {
    if i == 0 then EntriesOf(a, at, cluster) else EntriesTo(a, i - 1, at, cluster) + ChildEntries(a, i - 1, at, cluster)
  }

  lemma {:induction false} EntriesLeft(a: Argp, i: nat, at: seq<nat>, cluster: Option<Cluster>)
    requires i <= |a.children|
    ensures EntriesTo(a, i, at, cluster) + TreeEntriesAll(a.children[i..], at, i, cluster) == TreeEntries(a, at, cluster)
  {
    if i == 0 {
      assert a.children[0..] == a.children;
    } else {
      EntriesLeft(a, i - 1, at, cluster);
      assert a.children[i - 1..][1..] == a.children[i..];
      Associate(EntriesTo(a, i - 1, at, cluster), ChildEntries(a, i - 1, at, cluster), TreeEntriesAll(a.children[i..], at, i, cluster));
    }
  }

  lemma EntriesToAll(a: Argp, at: seq<nat>, cluster: Option<Cluster>)
    ensures EntriesTo(a, |a.children|, at, cluster) == TreeEntries(a, at, cluster)
  {
    EntriesLeft(a, |a.children|, at, cluster);
    assert a.children[|a.children|..] == [];
  }

  /** The list of an argp and its first I children. */
  ghost predicate Reached(h: Hol, a: Argp, i: nat, at: seq<nat>, cluster: Option<Cluster>) {
    i <= |a.children| && Lists(h, EntriesTo(a, i, at, cluster))
  }

  lemma ReachedNext(h: Hol, sub: Hol, r: Hol, a: Argp, i: nat, at: seq<nat>, cluster: Option<Cluster>)
    requires Reached(h, a, i, at, cluster) && i < |a.children| && Lists(sub, ChildEntries(a, i, at, cluster))
    requires Packed(r) && r.entries == Repack(h.entries + sub.entries)
    ensures Reached(r, a, i + 1, at, cluster)
  {
    RepackConcat(EntriesTo(a, i, at, cluster), ChildEntries(a, i, at, cluster));
  }

  /** One child of `argp_hol`: its list follows what is there. */
  method AppendChild(h: Hol, a: Argp, i: nat, at: seq<nat>, cluster: Option<Cluster>) returns (r: Hol)
    requires WellDeclared(a) && i < |a.children| && Reached(h, a, i, at, cluster)
    ensures Reached(r, a, i + 1, at, cluster)
    decreases a, 0
  {
    var c := a.children[i];
    var sub := ArgpHol(c.argp, at + [i], ChildCluster(c, i, at, cluster));
    r := HolAppend(h, sub);
    ReachedNext(h, sub, r, a, i, at, cluster);
  }

  /** `argp_hol`: the list of a tree has the entries of its argps in preorder. */
  method ArgpHol(a: Argp, at: seq<nat>, cluster: Option<Cluster>) returns (h: Hol)
    requires WellDeclared(a)
    ensures Lists(h, TreeEntries(a, at, cluster))
    decreases a, 1
  {
    h := OwnHol(a, at, cluster);
    var i := 0;
    while i < |a.children|
      invariant 0 <= i <= |a.children| && Reached(h, a, i, at, cluster)
    {
      h := AppendChild(h, a, i, at, cluster);
      i := i + 1;
    }
    EntriesToAll(a, at, cluster);
  }

  // ----- What the list of a tree holds -----

  lemma {:induction false} OwnOwned(opts: seq<Opt>, n: nat, cluster: Option<Cluster>, argp: seq<nat>)
    requires n <= |opts|
    ensures forall e | e in OwnEntries(opts, n, cluster, argp) :: e.cluster == cluster && e.argp == argp
  {
    if n > 0 {
      OwnOwned(opts, n - 1, cluster, argp);
      var es := OwnEntries(opts, n - 1, cluster, argp);
      if es != [] {
        assert es[|es| - 1] in es;
      }
      assert forall e | e in es[..|es|] :: e in es;
    }
  }

  lemma UsesAlone(all: seq<HolEntry>, es: seq<HolEntry>, e: HolEntry, o: Opt)
    requires all == es + [e] && e.opts == [o]
    ensures EntryUses(all) == EntryUses(es) + [Use(o, e.argp, e.cluster)]
  {
    UsesSnoc(all, es, e);
    assert Owned([o], e.argp, e.cluster) == [Use(o, e.argp, e.cluster)];
  }

  lemma UsesWithOption(es: seq<HolEntry>, o: Opt, cluster: Option<Cluster>, argp: seq<nat>)
    requires forall e | e in es :: e.cluster == cluster && e.argp == argp
    ensures EntryUses(WithOption(es, o, cluster, argp)) == EntryUses(es) + [Use(o, argp, cluster)]
  {
    var fs := WithOption(es, o, cluster, argp);
    if o.alias && es != [] {
      var m := |es| - 1;
      assert es[m] in es && es == es[..m] + [es[m]];
      UsesJoined(es, fs, es[..m], es[m], o);
    } else {
      UsesAlone(fs, es, fs[|es|], o);
    }
  }

  lemma OwnUsesStep(opts: seq<Opt>, n: nat, us: seq<Use>, vs: seq<Use>, cluster: Option<Cluster>, argp: seq<nat>)
    requires n < |opts| && us == Owned(opts[..n], argp, cluster) && vs == us + [Use(opts[n], argp, cluster)]
    ensures vs == Owned(opts[..n + 1], argp, cluster)
  {
    OwnedSnoc(opts[..n], opts[n], argp, cluster);
    assert opts[..n + 1] == opts[..n] + [opts[n]];
  }

  lemma {:induction false} OwnUses(opts: seq<Opt>, n: nat, cluster: Option<Cluster>, argp: seq<nat>, es: seq<HolEntry>)
    requires n <= |opts| && es == OwnEntries(opts, n, cluster, argp)
    ensures EntryUses(es) == Owned(opts[..n], argp, cluster)
  {
    if n == 0 {
      assert es == [];
    } else {
      var before := OwnEntries(opts, n - 1, cluster, argp);
      OwnUses(opts, n - 1, cluster, argp, before);
      OwnOwned(opts, n - 1, cluster, argp);
      UsesWithOption(before, opts[n - 1], cluster, argp);
      OwnUsesStep(opts, n - 1, EntryUses(before), EntryUses(es), cluster, argp);
    }
  }

  lemma OwnedSnoc(opts: seq<Opt>, o: Opt, argp: seq<nat>, cluster: Option<Cluster>)
    ensures Owned(opts + [o], argp, cluster) == Owned(opts, argp, cluster) + [Use(o, argp, cluster)]
  {}

  lemma UsesJoined(all: seq<HolEntry>, joined: seq<HolEntry>, es: seq<HolEntry>, e: HolEntry, o: Opt)
    requires all == es + [e] && joined == es + [Joined(e, o)]
    ensures EntryUses(joined) == EntryUses(all) + [Use(o, e.argp, e.cluster)]
  {
    UsesSnoc(all, es, e);
    UsesSnoc(joined, es, Joined(e, o));
    OwnedSnoc(e.opts, o, e.argp, e.cluster);
    Associate(EntryUses(es), Owned(e.opts, e.argp, e.cluster), [Use(o, e.argp, e.cluster)]);
  }

  /** The entries of a tree hold its options in preorder. */
  lemma {:induction false} TreeUses(a: Argp, at: seq<nat>, cluster: Option<Cluster>)
    ensures EntryUses(TreeEntries(a, at, cluster)) == Preorder(a, at, cluster)
    decreases a, 1
  {
    var opts := OptionsOrNone(a);
    OwnUses(opts, |opts|, cluster, at, EntriesOf(a, at, cluster));
    assert opts[..|opts|] == opts;
    TreeUsesAll(a.children, at, 0, cluster);
    UsesOfConcat(EntriesOf(a, at, cluster), TreeEntriesAll(a.children, at, 0, cluster));
  }

  lemma {:induction false} TreeUsesAll(cs: seq<Child>, at: seq<nat>, i: nat, cluster: Option<Cluster>)
    ensures EntryUses(TreeEntriesAll(cs, at, i, cluster)) == PreorderAll(cs, at, i, cluster)
    decreases cs, 0
  {
    if cs != [] {
      assert cs decreases to cs[0];
      var cc := ChildCluster(cs[0], i, at, cluster);
      TreeUses(cs[0].argp, at + [i], cc);
      TreeUsesAll(cs[1..], at, i + 1, cluster);
      UsesOfConcat(TreeEntries(cs[0].argp, at + [i], cc), TreeEntriesAll(cs[1..], at, i + 1, cluster));
    }
  }

  /** The list of a tree: its options in preorder, its short keys in the order of first use. */
  lemma ListedInPreorder(h: Hol, a: Argp, at: seq<nat>, cluster: Option<Cluster>)
    requires Lists(h, TreeEntries(a, at, cluster))
    ensures EntryUses(h.entries) == Preorder(a, at, cluster) && h.shorts == Firsts(UseKeys(Preorder(a, at, cluster)))
  {
    TreeUses(a, at, cluster);
    UsesOfRepack(TreeEntries(a, at, cluster));
    KeysOfUses(h.entries);
  }

  /** Every entry of a tree's list is in a cluster created for the tree, or in the given one. */
  lemma {:induction false} TreePlaced(a: Argp, at: seq<nat>, cluster: Option<Cluster>)
    ensures Placed(TreeEntries(a, at, cluster), cluster, ClustersOf(a, at, cluster))
    decreases a, 1
  {
    var opts := OptionsOrNone(a);
    OwnOwned(opts, |opts|, cluster, at);
    TreePlacedAll(a.children, at, 0, cluster);
    var own := EntriesOf(a, at, cluster);
    forall i | 0 <= i < |own|
      ensures own[i].cluster == cluster
    {
      assert own[i] in own;
    }
  }

  lemma {:induction false} TreePlacedAll(cs: seq<Child>, at: seq<nat>, i: nat, cluster: Option<Cluster>)
    ensures Placed(TreeEntriesAll(cs, at, i, cluster), cluster, ClustersOfAll(cs, at, i, cluster))
    decreases cs, 0
  {
    if cs != [] {
      assert cs decreases to cs[0];
      TreePlaced(cs[0].argp, at + [i], ChildCluster(cs[0], i, at, cluster));
      TreePlacedAll(cs[1..], at, i + 1, cluster);
    }
  }

  // ----- Who owns a short key in the help list -----

  /** The argp that declares the first option using the given short key. */
  function FirstOwner(us: seq<Use>, key: int): Option<seq<nat>> {
    if us == [] then None
    else if KeyOf(us[0].opt) == key then Some(us[0].owner)
    else FirstOwner(us[1..], key)
  }

  lemma {:induction false} FirstUseOwner(us: seq<Use>, p: nat)
    requires FirstUse(UseKeys(us), p)
    ensures FirstOwner(us, KeyOf(us[p].opt)) == Some(us[p].owner)
  {
    var ks := UseKeys(us);
    if p > 0 {
      assert ks[0] in ks[..p];
      assert UseKeys(us[1..]) == ks[1..];
      assert ks[1..][..p - 1] == ks[1..p];
      assert forall k | k in ks[1..p] :: k in ks[..p];
      FirstUseOwner(us[1..], p - 1);
    }
  }

  lemma {:induction false} UseAt(es: seq<HolEntry>, i: nat, j: nat)
    requires i < |es| && j < |es[i].opts|
    ensures |EntryKeys(es[..i])| + j < |EntryUses(es)|
    ensures EntryUses(es)[|EntryKeys(es[..i])| + j] == Use(es[i].opts[j], es[i].argp, es[i].cluster)
  {
    var n := |es| - 1;
    assert es == es[..n] + [es[n]];
    UsesSnoc(es, es[..n], es[n]);
    if i == n {
      KeysOfUses(es[..n]);
    } else {
      assert es[..n][..i] == es[..i];
      UseAt(es[..n], i, j);
    }
  }

  /** A short option recognized in an entry belongs to the argp that declares it first. */
  lemma RecognizedOwner(h: Hol, us: seq<Use>, i: nat, j: nat)
    requires Packed(h) && EntryUses(h.entries) == us && i < |h.entries| && j < |h.entries[i].opts|
    requires FirstUse(EntryKeys(h.entries), |EntryKeys(h.entries[..i])| + j)
    ensures h.entries[i].opts[j].IsShort() && FirstOwner(us, h.entries[i].opts[j].key) == Some(h.entries[i].argp)
  {
    KeysOfUses(h.entries);
    UseAt(h.entries, i, j);
    FirstUseOwner(us, |EntryKeys(h.entries[..i])| + j);
  }
}
