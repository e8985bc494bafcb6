/** Help option lists: `make_hol`, `hol_append`, `argp_hol` and the packed string of short
    options that their entries point into. */
module HelpLists {
  import opened Wrappers
  import opened ArgpTypes
  import opened FirstUses
  import opened HelpOrder
  import opened Sequences

  /** A `hol_entry`; AT is its pointer into the packed string, ARGP the place of its argp in
      the argp tree. */
  datatype HolEntry = HolEntry(opts: seq<Opt>, at: nat, group: int, cluster: Option<Cluster>, argp: seq<nat>)

  datatype Hol = Hol(entries: seq<HolEntry>, shorts: seq<int>)

  function KeyOf(o: Opt): int { if o.IsShort() then o.key else 0 }

  function KeysOf(opts: seq<Opt>): (ks: seq<int>)
    ensures |ks| == |opts| && forall i | 0 <= i < |ks| :: ks[i] == KeyOf(opts[i])
  {
    seq(|opts|, i requires 0 <= i < |opts| => KeyOf(opts[i]))
  }

  /** The short keys of all options of a list of entries. */
  function EntryKeys(es: seq<HolEntry>): seq<int> {
    if es == [] then [] else EntryKeys(es[..|es| - 1]) + KeysOf(es[|es| - 1].opts)
  }

  lemma {:induction false} EntryKeysPrefix(es: seq<HolEntry>, i: nat)
    requires i <= |es|
    ensures EntryKeys(es[..i]) <= EntryKeys(es)
    decreases |es| - i
  {
    if i < |es| {
      EntryKeysPrefix(es, i + 1);
      assert es[..i + 1][..i] == es[..i];
    } else {
      assert es[..i] == es;
    }
  }

  // ----- Lists in order -----

  /** The entries with their pointers set: each points behind the first uses before it. */
  function Repack(es: seq<HolEntry>): (r: seq<HolEntry>)
    ensures |r| == |es|
  {
    if es == [] then []
    else
      var n := |es| - 1;
      Repack(es[..n]) + [es[n].(at := |Firsts(EntryKeys(es[..n]))|)]
  }

  ghost predicate NonEmpty(es: seq<HolEntry>) { forall i | 0 <= i < |es| :: es[i].opts != [] }

  /** The packed string lists each short key once, in the order of first use, and every entry
      points to its own part of it. */
  ghost predicate Packed(h: Hol) {
    h.shorts == Firsts(EntryKeys(h.entries)) && h.entries == Repack(h.entries) && NonEmpty(h.entries)
  }

  lemma RepackNext(es: seq<HolEntry>, e: HolEntry)
    ensures Repack(es + [e]) == Repack(es) + [e.(at := |Firsts(EntryKeys(es))|)]
    ensures EntryKeys(es + [e]) == EntryKeys(es) + KeysOf(e.opts)
  {
    assert (es + [e])[..|es|] == es;
  }

  // ----- make_hol -----

  /** The group of an entry: its own, the next one for a group header, else the one before. */
  function GroupOf(o: Opt, current: int): int {
    if o.group != 0 then o.group else if o.name.None? && o.key == 0 then current + 1 else current
  }

  /** An option and the aliases that follow it. */
  ghost predicate OneEntry(opts: seq<Opt>) {
    opts != [] && !opts[0].alias && forall k | 0 < k < |opts| :: opts[k].alias
  }

  ghost predicate GroupedAt(es: seq<HolEntry>, i: nat, cluster: Option<Cluster>, argp: seq<nat>)
    requires i < |es|
  {
    && OneEntry(es[i].opts) && es[i].cluster == cluster && es[i].argp == argp
    && es[i].group == GroupOf(es[i].opts[0], if i == 0 then 0 else es[i - 1].group)
  }

  /** What `make_hol` promises of its entries: one per option that is no alias, each with its
      aliases, its group inherited as documented. */
  ghost predicate Grouped(es: seq<HolEntry>, cluster: Option<Cluster>, argp: seq<nat>) {
    forall i | 0 <= i < |es| :: GroupedAt(es, i, cluster, argp)
  }

  function LastGroup(es: seq<HolEntry>): int { if es == [] then 0 else es[|es| - 1].group }

  /** The entries of the first N options, their pointers not yet set: an alias joins the entry
      before it. */
  function OwnEntries(opts: seq<Opt>, n: nat, cluster: Option<Cluster>, argp: seq<nat>): seq<HolEntry>
    requires n <= |opts|
  {
    if n == 0 then [] else WithOption(OwnEntries(opts, n - 1, cluster, argp), opts[n - 1], cluster, argp)
  }

  function WithOption(es: seq<HolEntry>, o: Opt, cluster: Option<Cluster>, argp: seq<nat>): seq<HolEntry> {
    if o.alias && es != [] then es[..|es| - 1] + [Joined(es[|es| - 1], o)]
    else es + [HolEntry([o], 0, GroupOf(o, LastGroup(es)), cluster, argp)]
  }

  function Joined(e: HolEntry, o: Opt): HolEntry { e.(opts := e.opts + [o]) }

  /** The entry of the options from I to NEXT, behind the entries ES. */
  function NewEntry(es: seq<HolEntry>, opts: seq<Opt>, i: nat, next: nat, cluster: Option<Cluster>, argp: seq<nat>): HolEntry
    requires i < next <= |opts|
  {
    HolEntry(opts[i..next], 0, GroupOf(opts[i], LastGroup(es)), cluster, argp)
  }

  lemma EntryGrows(before: seq<HolEntry>, es: seq<HolEntry>, opts: seq<Opt>, i: nat, last: nat, cluster: Option<Cluster>, argp: seq<nat>)
    requires i < last < |opts| && opts[last].alias && EndsWith(before, es, opts, i, last, cluster, argp)
    ensures EndsWith(WithOption(before, opts[last], cluster, argp), es, opts, i, last + 1, cluster, argp)
  {
    assert before[..|es|] == es;
    assert opts[i..last + 1] == opts[i..last] + [opts[last]];
  }

  lemma EntryStarts(es: seq<HolEntry>, opts: seq<Opt>, i: nat, cluster: Option<Cluster>, argp: seq<nat>)
    requires i < |opts| && !opts[i].alias
    ensures EndsWith(WithOption(es, opts[i], cluster, argp), es, opts, i, i + 1, cluster, argp)
  {
    assert opts[i..i + 1] == [opts[i]];
  }

  /** Only aliases between option I and option NEXT. */
  ghost predicate AliasRun(opts: seq<Opt>, i: nat, next: nat)
    requires next <= |opts|
  {
    forall k | i < k < next :: opts[k].alias
  }

  lemma ShorterRun(opts: seq<Opt>, i: nat, last: nat)
    requires i < last < |opts| && AliasRun(opts, i, last + 1)
    ensures AliasRun(opts, i, last) && opts[last].alias
  {}

  /** The entries before option NEXT, when the last one begins with option I. */
  ghost predicate EndsWith(all: seq<HolEntry>, es: seq<HolEntry>, opts: seq<Opt>, i: nat, next: nat, cluster: Option<Cluster>, argp: seq<nat>)
    requires i < next <= |opts|
  {
    all == es + [NewEntry(es, opts, i, next, cluster, argp)]
  }

  /** An option and its aliases make one entry. */
  lemma {:induction false} OneMoreEntry(opts: seq<Opt>, i: nat, next: nat, cluster: Option<Cluster>, argp: seq<nat>)
    requires i < next <= |opts| && !opts[i].alias && AliasRun(opts, i, next)
    ensures EndsWith(OwnEntries(opts, next, cluster, argp), OwnEntries(opts, i, cluster, argp), opts, i, next, cluster, argp)
  {
    var last := next - 1;
    OwnEntriesNext(opts, last, cluster, argp);
    if last == i {
      EntryStarts(OwnEntries(opts, i, cluster, argp), opts, i, cluster, argp);
    } else {
      ShorterRun(opts, i, last);
      OneMoreEntry(opts, i, last, cluster, argp);
      EntryGrows(OwnEntries(opts, last, cluster, argp), OwnEntries(opts, i, cluster, argp), opts, i, last, cluster, argp);
    }
  }

  lemma OwnEntriesNext(opts: seq<Opt>, n: nat, cluster: Option<Cluster>, argp: seq<nat>)
    requires n < |opts|
    ensures OwnEntries(opts, n + 1, cluster, argp) == WithOption(OwnEntries(opts, n, cluster, argp), opts[n], cluster, argp)
  {}

  /** The options of a list of entries. */
  function OptionsOf(es: seq<HolEntry>): seq<Opt> {
    if es == [] then [] else OptionsOf(es[..|es| - 1]) + es[|es| - 1].opts
  }

  /** Upper bound for the packed string: the number of short options. */
  function ShortCount(opts: seq<Opt>): nat {
    if opts == [] then 0 else ShortCount(opts[..|opts| - 1]) + if opts[|opts| - 1].IsShort() then 1 else 0
  }

  lemma {:induction false} FirstsFit(opts: seq<Opt>)
    ensures |Firsts(KeysOf(opts))| <= ShortCount(opts)
  {
    if opts != [] {
      var n := |opts| - 1;
      FirstsFit(opts[..n]);
      assert KeysOf(opts)[..n] == KeysOf(opts[..n]);
    }
  }

  lemma KeysStep(opts: seq<Opt>, i: nat)
    requires i < |opts|
    ensures var before, k := Firsts(KeysOf(opts[..i])), KeyOf(opts[i]);
            Firsts(KeysOf(opts[..i + 1])) == if k != 0 && k !in before then before + [k] else before
  {
    assert KeysOf(opts[..i + 1]) == KeysOf(opts[..i]) + [KeyOf(opts[i])];
    FirstsNext(KeysOf(opts[..i]), KeyOf(opts[i]));
  }

  /** A valid short option that has not been used yet is appended. */
  method AddShort(opts: seq<Opt>, i: nat, shorts: seq<int>) returns (shorts': seq<int>)
    requires i < |opts| && shorts == Firsts(KeysOf(opts[..i]))
    ensures shorts' == Firsts(KeysOf(opts[..i + 1]))
  {
    KeysStep(opts, i);
    shorts' := if opts[i].IsShort() && opts[i].key !in shorts then shorts + [opts[i].key] else shorts;
  }

  /** The inner loop: one option and its aliases, appending unused short keys. */
  method TakeEntry(opts: seq<Opt>, start: nat, shorts: seq<int>) returns (next: nat, shorts': seq<int>)
    requires start < |opts| && shorts == Firsts(KeysOf(opts[..start]))
    ensures start < next <= |opts| && (next < |opts| ==> !opts[next].alias)
    ensures AliasRun(opts, start, next)
    ensures shorts' == Firsts(KeysOf(opts[..next]))
  {
    shorts' := AddShort(opts, start, shorts);
    next := start + 1;
    while next < |opts| && opts[next].alias
      invariant start < next <= |opts| && shorts' == Firsts(KeysOf(opts[..next]))
      invariant AliasRun(opts, start, next)
    {
      shorts' := AddShort(opts, next, shorts');
      next := next + 1;
    }
  }

  /** The state of the outer loop after the first I options. */
  ghost predicate Built(h: Hol, opts: seq<Opt>, i: nat, cluster: Option<Cluster>, argp: seq<nat>, group: int) {
    && i <= |opts| && (i < |opts| ==> !opts[i].alias)
    && h.shorts == Firsts(KeysOf(opts[..i])) && EntryKeys(h.entries) == KeysOf(opts[..i]) && OptionsOf(h.entries) == opts[..i]
    && h.entries == Repack(h.entries) && Grouped(h.entries, cluster, argp)
    && h.entries == Repack(OwnEntries(opts, i, cluster, argp))
    && group == if h.entries == [] then 0 else h.entries[|h.entries| - 1].group
  }

  lemma GroupedNext(es: seq<HolEntry>, e: HolEntry, cluster: Option<Cluster>, argp: seq<nat>, group: int)
    requires Grouped(es, cluster, argp) && group == if es == [] then 0 else es[|es| - 1].group
    requires OneEntry(e.opts) && e.cluster == cluster && e.argp == argp && e.group == GroupOf(e.opts[0], group)
    ensures Grouped(es + [e], cluster, argp)
  {
    var r := es + [e];
    forall i | 0 <= i < |r|
      ensures GroupedAt(r, i, cluster, argp)
    {
      if i < |es| {
        assert GroupedAt(es, i, cluster, argp);
      }
    }
  }

  lemma ContentsNext(es: seq<HolEntry>, e: HolEntry, opts: seq<Opt>, i: nat, next: nat)
    requires i <= next <= |opts| && e.opts == opts[i..next]
    requires EntryKeys(es) == KeysOf(opts[..i]) && OptionsOf(es) == opts[..i]
    ensures EntryKeys(es + [e]) == KeysOf(opts[..next]) && OptionsOf(es + [e]) == opts[..next]
  {
    assert (es + [e])[..|es|] == es;
    assert KeysOf(opts[..next]) == KeysOf(opts[..i]) + KeysOf(opts[i..next]);
    assert opts[..next] == opts[..i] + opts[i..next];
  }

  lemma OwnNext(packed: seq<HolEntry>, opts: seq<Opt>, i: nat, next: nat, cluster: Option<Cluster>, argp: seq<nat>)
    requires i < next <= |opts| && !opts[i].alias && AliasRun(opts, i, next)
    requires packed == Repack(OwnEntries(opts, i, cluster, argp)) && EntryKeys(packed) == KeysOf(opts[..i])
    ensures Repack(OwnEntries(opts, next, cluster, argp)) ==
            packed + [HolEntry(opts[i..next], |Firsts(KeysOf(opts[..i]))|, GroupOf(opts[i], LastGroup(packed)), cluster, argp)]
  {
    var es := OwnEntries(opts, i, cluster, argp);
    OneMoreEntry(opts, i, next, cluster, argp);
    RepackKeys(es);
    RepackNext(es, HolEntry(opts[i..next], 0, GroupOf(opts[i], LastGroup(es)), cluster, argp));
    if es != [] {
      RepackAt(es, |es| - 1);
    }
  }

  lemma BuiltNext(h: Hol, opts: seq<Opt>, i: nat, cluster: Option<Cluster>, argp: seq<nat>, group: int, next: nat, e: HolEntry)
    requires Built(h, opts, i, cluster, argp, group) && i < next <= |opts| && (next < |opts| ==> !opts[next].alias)
    requires AliasRun(opts, i, next)
    requires e == HolEntry(opts[i..next], |h.shorts|, GroupOf(opts[i], group), cluster, argp)
    ensures Built(Hol(h.entries + [e], Firsts(KeysOf(opts[..next]))), opts, next, cluster, argp, e.group)
  {
    RepackNext(h.entries, e);
    ContentsNext(h.entries, e, opts, i, next);
    GroupedNext(h.entries, e, cluster, argp, group);
    OwnNext(h.entries, opts, i, next, cluster, argp);
  }

  lemma GroupedNonEmpty(es: seq<HolEntry>, cluster: Option<Cluster>, argp: seq<nat>)
    requires Grouped(es, cluster, argp)
    ensures NonEmpty(es)
  {
    forall i | 0 <= i < |es|
      ensures es[i].opts != []
    {
      assert GroupedAt(es, i, cluster, argp);
    }
  }

  method MakeHol(options: Option<seq<Opt>>, cluster: Option<Cluster>, argp: seq<nat>) returns (h: Hol)
    requires options.Some? && options.value != [] ==> !options.value[0].alias
    ensures Packed(h) && Grouped(h.entries, cluster, argp)
    ensures options.Some? ==> h.entries == Repack(OwnEntries(options.value, |options.value|, cluster, argp))
    ensures options.None? ==> h.entries == []
    ensures OptionsOf(h.entries) == (if options.Some? then options.value else [])
    ensures EntryKeys(h.entries) == KeysOf(if options.Some? then options.value else [])
    ensures options.Some? ==> |h.shorts| <= ShortCount(options.value)
  {
    h := Hol([], []);
    if options.None? {
      return;
    }
    var opts := options.value;
    var i, curGroup := 0, 0;
    while i < |opts|
      invariant 0 <= i && Built(h, opts, i, cluster, argp, curGroup)
      decreases |opts| - i
    {
      var next, shorts := TakeEntry(opts, i, h.shorts);
      var e := HolEntry(opts[i..next], |h.shorts|, GroupOf(opts[i], curGroup), cluster, argp);
      BuiltNext(h, opts, i, cluster, argp, curGroup, next, e);
      h := Hol(h.entries + [e], shorts);
      i, curGroup := next, e.group;
    }
    assert opts[..|opts|] == opts;
    FirstsFit(opts);
    GroupedNonEmpty(h.entries, cluster, argp);
  }

  // ----- hol_append -----

  /** One option of MORE; SO and MORESO are the two cursors, HOL and ALL the keys of both lists,
      B the keys of MORE seen so far. */
  method MergeOption(known: seq<int>, more: seq<int>, opt: Opt, so: seq<int>, moreSo: nat,
                     ghost hol: seq<int>, ghost all: seq<int>, ghost b: seq<int>)
    returns (so': seq<int>, moreSo': nat)
    requires known == Firsts(hol) && more == Firsts(all) && b + [KeyOf(opt)] <= all
    requires so == Firsts(hol + b) && moreSo == |Firsts(b)|
    ensures so' == Firsts(hol + (b + [KeyOf(opt)])) && moreSo' == |Firsts(b + [KeyOf(opt)])|
  {
    so', moreSo' := so, moreSo;
    MergeNext(hol, b, KeyOf(opt));
    CountNext(b, KeyOf(opt));
    if opt.IsShort() {
      TestRecognizes(b, opt.key, all);
    }
    if opt.IsShort() && moreSo < |more| && more[moreSo] == opt.key {
      if opt.key !in known {
        so' := so + [opt.key];
      }
      moreSo' := moreSo + 1;
    }
  }

  /** The loop over the options of one entry of MORE. */
  method MergeEntry(known: seq<int>, more: seq<int>, opts: seq<Opt>, so: seq<int>, moreSo: nat,
                    ghost hol: seq<int>, ghost all: seq<int>, ghost b: seq<int>, ghost ks: seq<int>)
    returns (so': seq<int>, moreSo': nat)
    requires known == Firsts(hol) && more == Firsts(all) && ks == KeysOf(opts) && b + ks <= all
    requires so == Firsts(hol + b) && moreSo == |Firsts(b)|
    ensures so' == Firsts(hol + (b + ks)) && moreSo' == |Firsts(b + ks)|
  {
    so', moreSo' := so, moreSo;
    ghost var b' := b;
    var k := 0;
    while k < |opts|
      invariant 0 <= k <= |opts| && b' == b + ks[..k]
      invariant so' == Firsts(hol + b') && moreSo' == |Firsts(b')|
    {
      PrefixNext(b, ks, k, all);
      so', moreSo' := MergeOption(known, more, opts[k], so', moreSo', hol, all, b');
      b', k := b' + [ks[k]], k + 1;
    }
    assert b' == b + ks;
  }

  lemma NextKeys(es: seq<HolEntry>, i: nat)
    requires i < |es|
    ensures EntryKeys(es[..i + 1]) == EntryKeys(es[..i]) + KeysOf(es[i].opts)
    ensures EntryKeys(es[..i]) + KeysOf(es[i].opts) <= EntryKeys(es)
  {
    assert es[..i + 1][..i] == es[..i];
    EntryKeysPrefix(es, i + 1);
  }

  lemma Snoc<T>(a: seq<T>, b: seq<T>, i: nat)
    requires i < |b|
    ensures (a + b[..i]) + [b[i]] == a + b[..i + 1]
  {}

  lemma {:induction false} RepackKeys(es: seq<HolEntry>)
    ensures EntryKeys(Repack(es)) == EntryKeys(es)
  {
    if es != [] {
      var n := |es| - 1;
      RepackKeys(es[..n]);
      RepackNext(Repack(es[..n]), es[n].(at := |Firsts(EntryKeys(es[..n]))|));
    }
  }

  lemma {:induction false} RepackTwice(es: seq<HolEntry>)
    ensures Repack(Repack(es)) == Repack(es)
  {
    if es != [] {
      var n := |es| - 1;
      RepackTwice(es[..n]);
      RepackKeys(es[..n]);
      RepackNext(Repack(es[..n]), es[n].(at := |Firsts(EntryKeys(es[..n]))|));
    }
  }

  lemma {:induction false} RepackAt(es: seq<HolEntry>, i: nat)
    requires i < |es|
    ensures Repack(es)[i] == es[i].(at := |Firsts(EntryKeys(es[..i]))|)
  {
    var n := |es| - 1;
    if i < n {
      RepackAt(es[..n], i);
      assert es[..n][..i] == es[..i];
    }
  }

  lemma RepackNonEmpty(es: seq<HolEntry>)
    requires NonEmpty(es)
    ensures NonEmpty(Repack(es))
  {
    forall i | 0 <= i < |es|
      ensures Repack(es)[i].opts != []
    {
      RepackAt(es, i);
    }
  }

  lemma MergeEnds(h: Hol, more: Hol, acc: seq<HolEntry>, so: seq<int>, moreSo: nat)
    requires Packed(h) && Packed(more)
    requires MergedTo(EntryKeys(h.entries), h.entries + more.entries, EntryKeys(more.entries), acc, so, moreSo)
    ensures Packed(Hol(acc, so))
  {
    var p := h.entries + more.entries;
    RepackKeys(p);
    RepackTwice(p);
    RepackNonEmpty(p);
  }

  /** The state of the merge: P are the entries merged so far, B the keys of MORE among them. */
  ghost predicate MergedTo(hol: seq<int>, p: seq<HolEntry>, b: seq<int>, acc: seq<HolEntry>, so: seq<int>, moreSo: nat) {
    acc == Repack(p) && EntryKeys(p) == hol + b && so == Firsts(hol + b) && moreSo == |Firsts(b)|
  }

  /** One entry of MORE: it points behind everything merged so far. */
  method MergeOne(h: Hol, more: Hol, e: HolEntry, acc: seq<HolEntry>, so: seq<int>, moreSo: nat,
                  ghost p: seq<HolEntry>, ghost b: seq<int>)
    returns (acc': seq<HolEntry>, so': seq<int>, moreSo': nat)
    requires h.shorts == Firsts(EntryKeys(h.entries)) && more.shorts == Firsts(EntryKeys(more.entries))
    requires b + KeysOf(e.opts) <= EntryKeys(more.entries) && MergedTo(EntryKeys(h.entries), p, b, acc, so, moreSo)
    ensures MergedTo(EntryKeys(h.entries), p + [e], b + KeysOf(e.opts), acc', so', moreSo')
  {
    RepackNext(p, e);
    Associate(EntryKeys(h.entries), b, KeysOf(e.opts));
    acc' := acc + [e.(at := |so|)];
    so', moreSo' := MergeEntry(h.shorts, more.shorts, e.opts, so, moreSo,
                               EntryKeys(h.entries), EntryKeys(more.entries), b, KeysOf(e.opts));
  }

  /** Merging: the entries of MORE follow, and keys already known are shadowed. */
  method MergeEntries(h: Hol, more: Hol) returns (r: Hol)
    requires Packed(h) && Packed(more)
    ensures Packed(r) && r.entries == Repack(h.entries + more.entries)
  {
    ghost var p, b := h.entries, [];
    var acc, so, moreSo := h.entries, h.shorts, 0;
    var i := 0;
    assert EntryKeys(h.entries) + [] == EntryKeys(h.entries);
    while i < |more.entries|
      invariant 0 <= i <= |more.entries| && p == h.entries + more.entries[..i] && b == EntryKeys(more.entries[..i])
      invariant MergedTo(EntryKeys(h.entries), p, b, acc, so, moreSo)
    {
      NextKeys(more.entries, i);
      Snoc(h.entries, more.entries, i);
      acc, so, moreSo := MergeOne(h, more, more.entries[i], acc, so, moreSo, p, b);
      p, b, i := p + [more.entries[i]], b + KeysOf(more.entries[i].opts), i + 1;
    }
    assert more.entries[..i] == more.entries;
    MergeEnds(h, more, acc, so, moreSo);
    r := Hol(acc, so);
  }

  method HolAppend(h: Hol, more: Hol) returns (r: Hol)
    requires Packed(h) && Packed(more)
    ensures Packed(r) && r.entries == Repack(h.entries + more.entries)
  {
    if more.entries == [] {
      assert h.entries + more.entries == h.entries;
      return h;
    }
    if h.entries == [] {
      assert h.entries + more.entries == more.entries;
      return more;
    }
    r := MergeEntries(h, more);
  }
}
