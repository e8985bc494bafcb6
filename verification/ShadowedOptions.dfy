/** Two argps of a tree may declare the same short option.  The help list credits one of them
    with it and the parser calls one of them: when are they the same? */
module ShadowedOptions {
  import opened Wrappers
  import opened ArgpTypes
  import opened FirstUses
  import opened OptionTables
  import opened HelpLists
  import opened HelpOrder
  import opened HelpTree
  import opened ParserTables
  import opened OptionDispatch

  /** The argp's own options list the key in the help output. */
  predicate OwnListed(a: Argp, key: int) {
    exists i | 0 <= i < |OptionsOrNone(a)| :: KeyOf(OptionsOrNone(a)[i]) == key
  }

  predicate Listed(a: Argp, key: int)
    decreases a, 1
  {
    OwnListed(a, key) || ListedInAny(a.children, key)
  }

  predicate ListedInAny(cs: seq<Child>, key: int)
    decreases cs, 0
  {
    cs != [] &&
    (assert cs decreases to cs[0];
     Listed(cs[0].argp, key) || ListedInAny(cs[1..], key))
  }

  /** The first argp in preorder that lists the key also has getopt recognize it. */
  predicate Agrees(a: Argp, key: int)
    decreases a, 1
  {
    if OwnListed(a, key) then key in OwnShorts(a) else AgreesInAll(a.children, key)
  }

  predicate AgreesInAll(cs: seq<Child>, key: int)
    decreases cs, 0
  {
    cs == [] ||
    (assert cs decreases to cs[0];
     if Listed(cs[0].argp, key) then Agrees(cs[0].argp, key) else AgreesInAll(cs[1..], key))
  }

  // ----- The first use of each kind -----

  lemma {:induction false} HelpAppend(us: seq<Use>, vs: seq<Use>, key: int)
    ensures FirstOwner(us + vs, key) == if FirstOwner(us, key).Some? then FirstOwner(us, key) else FirstOwner(vs, key)
  {
    if us == [] {
      assert us + vs == vs;
    } else {
      assert (us + vs)[1..] == us[1..] + vs;
      HelpAppend(us[1..], vs, key);
    }
  }

  lemma {:induction false} OwnHelp(opts: seq<Opt>, at: seq<nat>, cluster: Option<Cluster>, key: int)
    ensures FirstOwner(Owned(opts, at, cluster), key) == if exists i | 0 <= i < |opts| :: KeyOf(opts[i]) == key then Some(at) else None
  {
    if opts != [] {
      assert Owned(opts, at, cluster)[1..] == Owned(opts[1..], at, cluster);
      OwnHelp(opts[1..], at, cluster, key);
      assert forall i | 1 <= i < |opts| :: opts[i] == opts[1..][i - 1];
    }
  }

  /** What getopt recognizes is listed. */
  lemma {:induction false} OwnParsedListed(opts: seq<Opt>, n: nat, key: int)
    requires n <= |opts| && Plain(key) && key in ShortTexts(opts, n)
    ensures exists i | 0 <= i < n :: KeyOf(opts[i]) == key
  {
    var opt := opts[n - 1];
    if key in ShortText(opt, RealAt(opts, n - 1)) {
      assert KeyOf(opt) == key;
    } else {
      OwnParsedListed(opts, n - 1, key);
    }
  }

  /** An owner at or below a place. */
  predicate Below(owner: Option<seq<nat>>, at: seq<nat>) { owner.Some? ==> at <= owner.value }

  /** An owner below child I of a place, or a later child. */
  predicate BelowFrom(owner: Option<seq<nat>>, at: seq<nat>, i: nat) {
    owner.Some? ==> |at| < |owner.value| && at <= owner.value && owner.value[|at|] >= i
  }

  /** The two owners of a key: both lie in the tree, and the help list's exists when listed. */
  predicate Bounds(a: Argp, at: seq<nat>, key: int, help: Option<seq<nat>>, parse: Option<seq<nat>>) {
    && (help.Some? <==> Listed(a, key)) && (parse.Some? ==> help.Some?) && Below(help, at) && Below(parse, at)
  }

  predicate BoundsAll(cs: seq<Child>, at: seq<nat>, i: nat, key: int, help: Option<seq<nat>>, parse: Option<seq<nat>>) {
    && (help.Some? <==> ListedInAny(cs, key)) && (parse.Some? ==> help.Some?) && BelowFrom(help, at, i) && BelowFrom(parse, at, i)
  }

  function HelpOwner(a: Argp, at: seq<nat>, cluster: Option<Cluster>, key: int): Option<seq<nat>> { FirstOwner(Preorder(a, at, cluster), key) }

  function ParseOwner(a: Argp, at: seq<nat>, key: int): Option<seq<nat>> { ShortOwner(ParsedTree(a, at), key) }

  /** Both owners of a tree, from its own options and its children. */
  lemma OwnersSplit(a: Argp, at: seq<nat>, cluster: Option<Cluster>, key: int)
    requires Plain(key)
    ensures HelpOwner(a, at, cluster, key) == if OwnListed(a, key) then Some(at) else FirstOwner(PreorderAll(a.children, at, 0, cluster), key)
    ensures ParseOwner(a, at, key) == if key in OwnShorts(a) then Some(at) else ShortOwner(ParsedAll(a.children, at, 0), key)
    ensures key in OwnShorts(a) ==> OwnListed(a, key)
  {
    var opts := OptionsOrNone(a);
    OwnHelp(opts, at, cluster, key);
    HelpAppend(Owned(opts, at, cluster), PreorderAll(a.children, at, 0, cluster), key);
    OwnShort(opts, |opts|, at, key);
    OwnerAppend(ParsedFrom(a, at), ParsedAll(a.children, at, 0), key);
    if key in OwnShorts(a) {
      OwnParsedListed(opts, |opts|, key);
    }
  }

  lemma OwnersSplitAll(cs: seq<Child>, at: seq<nat>, i: nat, cluster: Option<Cluster>, key: int)
    requires cs != []
    ensures var h := HelpOwner(cs[0].argp, at + [i], ChildCluster(cs[0], i, at, cluster), key);
            FirstOwner(PreorderAll(cs, at, i, cluster), key) == if h.Some? then h else FirstOwner(PreorderAll(cs[1..], at, i + 1, cluster), key)
    ensures var p := ParseOwner(cs[0].argp, at + [i], key);
            ShortOwner(ParsedAll(cs, at, i), key) == if p.Some? then p else ShortOwner(ParsedAll(cs[1..], at, i + 1), key)
  {
    HelpAppend(Preorder(cs[0].argp, at + [i], ChildCluster(cs[0], i, at, cluster)), PreorderAll(cs[1..], at, i + 1, cluster), key);
    OwnerAppend(ParsedTree(cs[0].argp, at + [i]), ParsedAll(cs[1..], at, i + 1), key);
  }

  lemma ChildBounds(at: seq<nat>, i: nat, owner: Option<seq<nat>>)
    requires Below(owner, at + [i])
    ensures owner.Some? ==> |at| < |owner.value| && at <= owner.value && owner.value[|at|] == i
  {
    if owner.Some? {
      var x := owner.value;
      assert x[..|at| + 1] == at + [i];
      assert x[|at|] == x[..|at| + 1][|at|];
      assert x[..|at|] == x[..|at| + 1][..|at|];
    }
  }

  /** The help list and the parser agree on the owner of a short option exactly when the first
      argp in preorder that lists it also has getopt recognize it. */
  lemma {:induction false} OwnersAgree(a: Argp, at: seq<nat>, cluster: Option<Cluster>, key: int)
    requires Plain(key)
    ensures Bounds(a, at, key, HelpOwner(a, at, cluster, key), ParseOwner(a, at, key))
    ensures HelpOwner(a, at, cluster, key) == ParseOwner(a, at, key) <==> Agrees(a, key)
    decreases a, 1
  {
    OwnersSplit(a, at, cluster, key);
    OwnersAgreeAll(a.children, at, 0, cluster, key);
  }

  lemma {:induction false} OwnersAgreeAll(cs: seq<Child>, at: seq<nat>, i: nat, cluster: Option<Cluster>, key: int)
    requires Plain(key)
    ensures BoundsAll(cs, at, i, key, FirstOwner(PreorderAll(cs, at, i, cluster), key), ShortOwner(ParsedAll(cs, at, i), key))
    ensures FirstOwner(PreorderAll(cs, at, i, cluster), key) == ShortOwner(ParsedAll(cs, at, i), key) <==> AgreesInAll(cs, key)
    decreases cs, 0
  {
    if cs != [] {
      assert cs decreases to cs[0];
      var c, cc := cs[0].argp, ChildCluster(cs[0], i, at, cluster);
      OwnersAgree(c, at + [i], cc, key);
      OwnersAgreeAll(cs[1..], at, i + 1, cluster, key);
      OwnersSplitAll(cs, at, i, cluster, key);
      ChildBounds(at, i, HelpOwner(c, at + [i], cc, key));
      ChildBounds(at, i, ParseOwner(c, at + [i], key));
    }
  }

  // ----- Consequences -----

  /** An option that the help output shows under the argp of its entry is parsed by that argp
      exactly when the tree agrees on its key. */
  lemma HelpTellsTheParser(a: Argp, h: Hol, i: nat, j: nat)
    requires Lists(h, TreeEntries(a, [], None)) && i < |h.entries| && j < |h.entries[i].opts|
    requires FirstUse(EntryKeys(h.entries), |EntryKeys(h.entries[..i])| + j) && Plain(h.entries[i].opts[j].key)
    ensures ParseOwner(a, [], h.entries[i].opts[j].key) == Some(h.entries[i].argp) <==> Agrees(a, h.entries[i].opts[j].key)
  {
    ListedInPreorder(h, a, [], None);
    RecognizedOwner(h, Preorder(a, [], None), i, j);
    OwnersAgree(a, [], None, h.entries[i].opts[j].key);
  }

  /** No short option is an alias of a documentation entry. */
  predicate NoDocAliases(a: Argp) {
    && (forall i | 0 <= i < |OptionsOrNone(a)| :: OptionsOrNone(a)[i].IsShort() ==> !RealAt(OptionsOrNone(a), i).doc)
    && forall c | c in a.children :: NoDocAliases(c.argp)
  }

  lemma {:induction false} ListedIsParsed(opts: seq<Opt>, n: nat, i: nat)
    requires i < n <= |opts| && opts[i].IsShort() && !RealAt(opts, i).doc
    ensures opts[i].key in ShortTexts(opts, n)
  {
    if i < n - 1 {
      ListedIsParsed(opts, n - 1, i);
    }
  }

  /** Without such aliases the help list and the parser agree on every short option. */
  lemma {:induction false} TidyTreesAgree(a: Argp, key: int)
    requires NoDocAliases(a) && Plain(key)
    ensures Agrees(a, key)
    decreases a, 1
  {
    if OwnListed(a, key) {
      var i :| 0 <= i < |OptionsOrNone(a)| && KeyOf(OptionsOrNone(a)[i]) == key;
      ListedIsParsed(OptionsOrNone(a), |OptionsOrNone(a)|, i);
    } else {
      TidyChildrenAgree(a.children, key);
    }
  }

  lemma {:induction false} TidyChildrenAgree(cs: seq<Child>, key: int)
    requires (forall c | c in cs :: NoDocAliases(c.argp)) && Plain(key)
    ensures AgreesInAll(cs, key)
    decreases cs, 0
  {
    if cs != [] {
      assert cs decreases to cs[0];
      TidyTreesAgree(cs[0].argp, key);
      TidyChildrenAgree(cs[1..], key);
    }
  }

  const NOTE := Opt(Some([110]), 0, false, false, false, false, true, true, 0)
  const ALIAS := Opt(None, 97, false, false, false, true, false, false, 0)
  const PLAIN := Opt(None, 97, false, false, false, false, false, false, 0)

  lemma AliasIsSilent()
    ensures ShortTexts([NOTE, ALIAS], 2) == []
  {
    assert RealAt([NOTE, ALIAS], 1) == NOTE;
    assert ShortTexts([NOTE, ALIAS], 1) == [];
  }

  lemma PlainSpeaks()
    ensures ShortTexts([PLAIN], 1) == [97]
  {
    assert ShortTexts([PLAIN], 0) == [];
  }

  /** A short alias of a documentation entry hides its child's option in the help output, while
      the parser still calls the child. */
  lemma DocAliasDisagrees()
    ensures var tree := Argp(Some([NOTE, ALIAS]), true, None, [Child(Argp(Some([PLAIN]), true, None, []), 0, false)]);
            HelpOwner(tree, [], None, 97) == Some([]) && ParseOwner(tree, [], 97) == Some([0])
  {
    var leaf := Argp(Some([PLAIN]), true, None, []);
    var cs := [Child(leaf, 0, false)];
    var tree := Argp(Some([NOTE, ALIAS]), true, None, cs);
    AliasIsSilent();
    PlainSpeaks();
    OwnersSplit(tree, [], None, 97);
    assert KeyOf(OptionsOrNone(tree)[1]) == 97;
    OwnersSplitAll(cs, [], 0, None, 97);
    assert [] + [0] == [0];
    OwnersSplit(leaf, [0], None, 97);
  }
}
