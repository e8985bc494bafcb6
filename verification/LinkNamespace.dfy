/** The link-time namespace checker: symbol tables built from the `readelf` listing and the
    breadth-first worklist over "defined in" and "strongly undefined in". */
module LinkNamespace {

  datatype Binding = Global | Weak

  /** One line of the listing: (file, symbol, binding, defined). */
  datatype Listed = Listed(file: string, name: string, bind: Binding, defined: bool)

  /** The relations between objects and symbols that the worklist follows. */
  datatype Graph = Graph(
    defines: (string, string) -> bool,  // object, symbol: a strong or weak definition
    seen: (string, string) -> bool,     // any mention except a weak definition
    needs: (string, string) -> bool)    // a strong undefined reference

  function GraphOf(recs: seq<Listed>): Graph {
    Graph((f, s) => exists r | r in recs :: r.file == f && r.name == s && r.defined,
          (f, s) => exists r | r in recs :: r.file == f && r.name == s && (r.bind.Global? || !r.defined),
          (f, s) => exists r | r in recs :: r.file == f && r.name == s && r.bind.Global? && !r.defined)
  }

  // ----- The three dictionaries -----

  type Index = map<string, seq<string>>

  function Get(m: Index, k: string): seq<string> {
    if k in m then m[k] else []
  }

  datatype Tables = Tables(seenSyms: Index, strongUndef: Index, symObjs: Index) {
    ghost predicate Represents(g: Graph) {
      && (forall f, s :: s in Get(seenSyms, f) <==> g.seen(f, s))
      && (forall f, s :: s in Get(strongUndef, f) <==> g.needs(f, s))
      && (forall f, s :: f in Get(symObjs, s) <==> g.defines(f, s))
    }
  }

  function Append(m: Index, k: string, v: string): (r: Index)
    ensures forall j, x :: x in Get(r, j) <==> x in Get(m, j) || (j == k && x == v)
  {
    m[k := Get(m, k) + [v]]
  }

  /** H is G with the facts stated by the line R. */
  ghost predicate Extended(g: Graph, h: Graph, r: Listed) {
    && (forall f, s :: h.defines(f, s) <==> g.defines(f, s) || (r.file == f && r.name == s && r.defined))
    && (forall f, s :: h.seen(f, s) <==> g.seen(f, s) || (r.file == f && r.name == s && (r.bind.Global? || !r.defined)))
    && (forall f, s :: h.needs(f, s) <==> g.needs(f, s) || (r.file == f && r.name == s && r.bind.Global? && !r.defined))
  }

  lemma GraphAppend(recs: seq<Listed>, r: Listed)
    ensures Extended(GraphOf(recs), GraphOf(recs + [r]), r)
  {
    assert forall x :: x in recs + [r] <==> x in recs || x == r;
  }

  /** The loop body of the table construction, for one line of the listing. */
  method AddLine(t: Tables, r: Listed, ghost g: Graph, ghost h: Graph) returns (t': Tables)
    requires t.Represents(g) && Extended(g, h, r)
    ensures t'.Represents(h)
  {
    t' := t;
    if r.defined {
      t' := t'.(symObjs := Append(t'.symObjs, r.name, r.file));
    }
    if r.bind.Global? || !r.defined {
      t' := t'.(seenSyms := Append(t'.seenSyms, r.file, r.name));
    }
    if r.bind.Global? && !r.defined {
      t' := t'.(strongUndef := Append(t'.strongUndef, r.file, r.name));
    }
  }

  method BuildTables(recs: seq<Listed>) returns (t: Tables)
    ensures t.Represents(GraphOf(recs))
  {
    t := Tables(map[], map[], map[]);
    for i := 0 to |recs|
      invariant t.Represents(GraphOf(recs[..i]))
    {
      assert recs[..i + 1] == recs[..i] + [recs[i]];
      GraphAppend(recs[..i], recs[i]);
      t := AddLine(t, recs[i], GraphOf(recs[..i]), GraphOf(recs[..i + 1]));
    }
    assert recs[..|recs|] == recs;
  }

  // ----- Provenance chains -----

  /** `[initial] s` and `... -> [file] s`. */
  datatype Chain = Initial(sym: string) | Via(prev: Chain, file: string, sym: string) {
    function Length(): nat { if Initial? then 0 else prev.Length() + 1 }
  }

  /** The objects a chain goes through. */
  function FilesOf(c: Chain): seq<string> { if c.Initial? then [] else FilesOf(c.prev) + [c.file] }

  lemma {:induction false} LengthIsFiles(c: Chain)
    ensures c.Length() == |FilesOf(c)|
  {
    if c.Via? {
      LengthIsFiles(c.prev);
    }
  }

  /** Every symbol of the chain is strongly undefined where it is brought in. */
  ghost predicate Needed(g: Graph, init: set<string>, c: Chain) {
    match c
    case Initial(s) => s in init
    case Via(p, f, s) => Needed(g, init, p) && g.defines(f, p.sym) && g.needs(f, s)
  }

  /** As `Needed`, except that the last symbol only has to be visible in its object. */
  ghost predicate BroughtIn(g: Graph, init: set<string>, c: Chain) {
    match c
    case Initial(s) => s in init
    case Via(p, f, s) => Needed(g, init, p) && g.defines(f, p.sym) && g.seen(f, s)
  }

  /** FILE defines the last symbol of the needed chain P. */
  ghost predicate Pulled(g: Graph, init: set<string>, file: string, p: Chain) {
    Needed(g, init, p) && g.defines(file, p.sym)
  }

  type Where = map<string, Chain>

  datatype State = State(filesSeen: set<string>, seenWhere: Where, allUndef: Where)

  /** What holds of every recorded chain, whichever symbols were processed so far. */
  ghost predicate Sound(g: Graph, init: set<string>, d: nat, st: State) {
    && (forall s | s in st.allUndef :: st.allUndef[s].sym == s && Needed(g, init, st.allUndef[s]) && st.allUndef[s].Length() <= d)
    && (forall s | s in st.seenWhere :: st.seenWhere[s].sym == s && BroughtIn(g, init, st.seenWhere[s]) && st.seenWhere[s].Length() <= d)
    && (forall f | f in st.filesSeen :: exists p :: Pulled(g, init, f, p) && p.Length() < d)
  }

  /** Chains of up to D steps are recorded, at most as long as themselves. */
  ghost predicate Complete(g: Graph, init: set<string>, d: nat, st: State) {
    && (forall c :: Needed(g, init, c) && c.Length() <= d ==> c.sym in st.allUndef && st.allUndef[c.sym].Length() <= c.Length())
    && (forall c :: BroughtIn(g, init, c) && c.Length() <= d ==> c.sym in st.seenWhere && st.seenWhere[c.sym].Length() <= c.Length())
    && (forall f, p :: Pulled(g, init, f, p) && p.Length() < d ==> f in st.filesSeen)
  }

  /** CURRENT holds exactly the symbols first needed after D steps, with their chains. */
  ghost predicate Frontier(d: nat, st: State, current: Where) {
    && (forall s :: s in current <==> s in st.allUndef && st.allUndef[s].Length() == d)
    && (forall s | s in current :: current[s] == st.allUndef[s])
  }

  /** Everything a visited object mentions has been recorded. */
  ghost predicate Closed(g: Graph, st: State) {
    && (forall f, s :: f in st.filesSeen && g.seen(f, s) ==> s in st.seenWhere)
    && (forall f, s :: f in st.filesSeen && g.needs(f, s) ==> s in st.allUndef)
  }

  ghost predicate Extends(m: Where, n: Where) {
    forall s | s in m :: s in n && n[s] == m[s]
  }

  ghost predicate Grows(a: State, b: State) {
    a.filesSeen <= b.filesSeen && Extends(a.seenWhere, b.seenWhere) && Extends(a.allUndef, b.allUndef)
  }

  ghost predicate FilesVisited(g: Graph, st: State, sym: string) {
    forall f :: g.defines(f, sym) ==> f in st.filesSeen
  }

  ghost predicate LevelInvariant(g: Graph, init: set<string>, d: nat, st: State, newUndef: Where) {
    Sound(g, init, d + 1, st) && Closed(g, st) && Frontier(d + 1, st, newUndef)
  }

  method RecordSeen(seenWhere: Where, cu: Chain, file: string, syms: seq<string>) returns (r: Where)
    ensures Extends(seenWhere, r)
    ensures forall s :: s in r <==> s in seenWhere || s in syms
    ensures forall s | s in r && s !in seenWhere :: r[s] == Via(cu, file, s)
  {
    r := seenWhere;
    for i := 0 to |syms|
      invariant Extends(seenWhere, r)
      invariant forall s :: s in r <==> s in seenWhere || s in syms[..i]
      invariant forall s | s in r && s !in seenWhere :: r[s] == Via(cu, file, s)
    {
      assert syms[..i + 1] == syms[..i] + [syms[i]];
      if syms[i] !in r {
        r := r[syms[i] := Via(cu, file, syms[i])];
      }
    }
  }

  method RecordUndef(allUndef: Where, newUndef: Where, cu: Chain, file: string, syms: seq<string>)
    returns (all: Where, new_: Where)
    requires newUndef.Keys <= allUndef.Keys
    ensures Extends(allUndef, all) && Extends(newUndef, new_)
    ensures forall s :: s in all <==> s in allUndef || s in syms
    ensures forall s | s in all && s !in allUndef :: all[s] == Via(cu, file, s)
    ensures forall s :: s in new_ <==> s in newUndef || (s in all && s !in allUndef)
    ensures forall s | s in new_ && s !in newUndef :: new_[s] == all[s]
  {
    all, new_ := allUndef, newUndef;
    for i := 0 to |syms|
      invariant Extends(allUndef, all) && Extends(newUndef, new_)
      invariant forall s :: s in all <==> s in allUndef || s in syms[..i]
      invariant forall s | s in all && s !in allUndef :: all[s] == Via(cu, file, s)
      invariant forall s :: s in new_ <==> s in newUndef || (s in all && s !in allUndef)
      invariant forall s | s in new_ && s !in newUndef :: new_[s] == all[s]
    {
      assert syms[..i + 1] == syms[..i] + [syms[i]];
      if syms[i] !in all {
        var c := Via(cu, file, syms[i]);
        all, new_ := all[syms[i] := c], new_[syms[i] := c];
      }
    }
  }

  /** The body of `for file in sym_objs[sym]` for an object not visited before. */
  method VisitFile(t: Tables, st: State, newUndef: Where, cu: Chain, file: string,
                   ghost g: Graph, ghost init: set<string>, ghost d: nat)
    returns (st': State, new': Where)
    requires t.Represents(g) && LevelInvariant(g, init, d, st, newUndef)
    requires Pulled(g, init, file, cu) && cu.Length() == d
    ensures LevelInvariant(g, init, d, st', new')
    ensures Grows(st, st') && st'.filesSeen == st.filesSeen + {file}
  {
    var sw := RecordSeen(st.seenWhere, cu, file, Get(t.seenSyms, file));
    var all, n := RecordUndef(st.allUndef, newUndef, cu, file, Get(t.strongUndef, file));
    st', new' := State(st.filesSeen + {file}, sw, all), n;
    NewChains(g, init, cu, file);
  }

  lemma NewChains(g: Graph, init: set<string>, cu: Chain, file: string)
    requires Pulled(g, init, file, cu)
    ensures forall s | g.seen(file, s) :: BroughtIn(g, init, Via(cu, file, s)) && Via(cu, file, s).Length() == cu.Length() + 1
    ensures forall s | g.needs(file, s) :: Needed(g, init, Via(cu, file, s)) && Via(cu, file, s).Length() == cu.Length() + 1
  {}

  method VisitSymbol(t: Tables, st: State, newUndef: Where, cu: Chain,
                     ghost g: Graph, ghost init: set<string>, ghost d: nat)
    returns (st': State, new': Where)
    requires t.Represents(g) && LevelInvariant(g, init, d, st, newUndef)
    requires Needed(g, init, cu) && cu.Length() == d
    ensures LevelInvariant(g, init, d, st', new')
    ensures Grows(st, st') && FilesVisited(g, st', cu.sym)
  {
    st', new' := st, newUndef;
    var files := Get(t.symObjs, cu.sym);
    for i := 0 to |files|
      invariant LevelInvariant(g, init, d, st', new') && Grows(st, st')
      invariant forall f | f in files[..i] :: f in st'.filesSeen
    {
      assert files[..i + 1] == files[..i] + [files[i]];
      if files[i] !in st'.filesSeen {
        assert g.defines(files[i], cu.sym);
        st', new' := VisitFile(t, st', new', cu, files[i], g, init, d);
      }
    }
  }

  /** One round of the worklist; the result does not depend on the order of `current`. */
  method VisitSymbols(t: Tables, st: State, current: Where,
                      ghost g: Graph, ghost init: set<string>, ghost d: nat)
    returns (st': State, new': Where)
    requires t.Represents(g) && LevelInvariant(g, init, d, st, map[])
    requires forall s | s in current :: current[s].sym == s && Needed(g, init, current[s]) && current[s].Length() == d
    ensures LevelInvariant(g, init, d, st', new') && Grows(st, st')
    ensures forall s | s in current :: FilesVisited(g, st', s)
  {
    st', new' := st, map[];
    var todo := current.Keys;
    while todo != {}
      invariant todo <= current.Keys
      invariant LevelInvariant(g, init, d, st', new') && Grows(st, st')
      invariant forall s | s in current && s !in todo :: FilesVisited(g, st', s)
    {
      var sym :| sym in todo;
      todo := todo - {sym};
      ghost var before := st';
      st', new' := VisitSymbol(t, st', new', current[sym], g, init, d);
      VisitedStays(g, before, st', current.Keys - todo - {sym});
    }
  }

  lemma VisitedStays(g: Graph, st: State, st': State, syms: set<string>)
    requires Grows(st, st') && forall s | s in syms :: FilesVisited(g, st, s)
    ensures forall s | s in syms :: FilesVisited(g, st', s)
  {}

  method VisitLevel(t: Tables, st: State, current: Where,
                    ghost g: Graph, ghost init: set<string>, ghost d: nat)
    returns (st': State, new': Where)
    requires t.Represents(g) && Sound(g, init, d, st) && Complete(g, init, d, st)
    requires Closed(g, st) && Frontier(d, st, current)
    ensures LevelInvariant(g, init, d, st', new') && Grows(st, st')
    ensures Complete(g, init, d + 1, st')
  {
    LevelStarts(g, init, d, st);
    st', new' := VisitSymbols(t, st, current, g, init, d);
    LevelComplete(g, init, d, st, st');
  }

  /** What is known once every symbol of the frontier has been processed. */
  ghost predicate LevelDone(g: Graph, init: set<string>, d: nat, st: State, st': State) {
    && Sound(g, init, d, st) && Complete(g, init, d, st)
    && Sound(g, init, d + 1, st') && Closed(g, st') && Grows(st, st')
    && forall s | s in st.allUndef && st.allUndef[s].Length() == d :: FilesVisited(g, st', s)
  }

  lemma FileReached(g: Graph, init: set<string>, d: nat, st: State, st': State, f: string, p: Chain)
    requires LevelDone(g, init, d, st, st')
    requires Pulled(g, init, f, p) && p.Length() <= d
    ensures f in st'.filesSeen
  {
    var q := st.allUndef[p.sym];
    if q.Length() < d {
      assert Pulled(g, init, f, q);
    } else {
      assert FilesVisited(g, st', p.sym);
    }
  }

  lemma NeededReached(g: Graph, init: set<string>, d: nat, st: State, st': State, c: Chain)
    requires LevelDone(g, init, d, st, st')
    requires Needed(g, init, c) && c.Length() <= d + 1
    ensures c.sym in st'.allUndef && st'.allUndef[c.sym].Length() <= c.Length()
  {
    if c.Length() == d + 1 {
      FileReached(g, init, d, st, st', c.file, c.prev);
    }
  }

  lemma BroughtInReached(g: Graph, init: set<string>, d: nat, st: State, st': State, c: Chain)
    requires LevelDone(g, init, d, st, st')
    requires BroughtIn(g, init, c) && c.Length() <= d + 1
    ensures c.sym in st'.seenWhere && st'.seenWhere[c.sym].Length() <= c.Length()
  {
    if c.Length() == d + 1 {
      FileReached(g, init, d, st, st', c.file, c.prev);
    }
  }

  lemma LevelComplete(g: Graph, init: set<string>, d: nat, st: State, st': State)
    requires LevelDone(g, init, d, st, st')
    ensures Complete(g, init, d + 1, st')
  {
    forall c | Needed(g, init, c) && c.Length() <= d + 1
      ensures c.sym in st'.allUndef && st'.allUndef[c.sym].Length() <= c.Length()
    {
      NeededReached(g, init, d, st, st', c);
    }
    forall c | BroughtIn(g, init, c) && c.Length() <= d + 1
      ensures c.sym in st'.seenWhere && st'.seenWhere[c.sym].Length() <= c.Length()
    {
      BroughtInReached(g, init, d, st, st', c);
    }
    forall f, p | Pulled(g, init, f, p) && p.Length() < d + 1
      ensures f in st'.filesSeen
    {
      FileReached(g, init, d, st, st', f, p);
    }
  }

  lemma LevelStarts(g: Graph, init: set<string>, d: nat, st: State)
    requires Sound(g, init, d, st) && Closed(g, st)
    ensures LevelInvariant(g, init, d, st, map[])
  {}

  // ----- The whole worklist -----

  /** With an empty frontier no chain, however long, leads anywhere new. */
  lemma {:induction false} NothingBeyond(g: Graph, init: set<string>, d: nat, st: State, c: Chain)
    requires Fixpoint(g, init, d, st)
    requires Needed(g, init, c)
    ensures c.sym in st.allUndef && st.allUndef[c.sym].Length() <= c.Length()
    decreases c
  {
    if c.Via? {
      NothingBeyond(g, init, d, st, c.prev);
      var q := st.allUndef[c.prev.sym];
      assert q.Length() < d;
      assert Needed(g, init, Via(q, c.file, c.sym));
    }
  }

  /** The result of the worklist: the least closure, with shortest provenance. */
  ghost predicate Explains(g: Graph, init: set<string>, st: State) {
    && (forall f :: f in st.filesSeen <==> exists p :: Pulled(g, init, f, p))
    && (forall s :: s in st.seenWhere <==> exists c :: BroughtIn(g, init, c) && c.sym == s)
    && (forall s | s in st.seenWhere :: Shortest(g, init, st.seenWhere[s], s))
  }

  ghost predicate Shortest(g: Graph, init: set<string>, c: Chain, s: string) {
    && BroughtIn(g, init, c) && c.sym == s
    && forall e :: BroughtIn(g, init, e) && e.sym == s ==> c.Length() <= e.Length()
  }

  ghost predicate Fixpoint(g: Graph, init: set<string>, d: nat, st: State) {
    Sound(g, init, d, st) && Complete(g, init, d, st) && Frontier(d, st, map[])
  }

  lemma EveryFileSeen(g: Graph, init: set<string>, d: nat, st: State, f: string, p: Chain)
    requires Fixpoint(g, init, d, st) && Pulled(g, init, f, p)
    ensures f in st.filesSeen
  {
    NothingBeyond(g, init, d, st, p);
    assert Pulled(g, init, f, st.allUndef[p.sym]);
  }

  lemma EverySymbolSeen(g: Graph, init: set<string>, d: nat, st: State, c: Chain)
    requires Fixpoint(g, init, d, st) && BroughtIn(g, init, c)
    ensures c.sym in st.seenWhere && st.seenWhere[c.sym].Length() <= c.Length()
  {
    if c.Via? {
      NothingBeyond(g, init, d, st, c.prev);
      assert BroughtIn(g, init, Via(st.allUndef[c.prev.sym], c.file, c.sym));
    }
  }

  lemma FixpointExplains(g: Graph, init: set<string>, d: nat, st: State)
    requires Fixpoint(g, init, d, st)
    ensures Explains(g, init, st)
  {
    forall f, p | Pulled(g, init, f, p)
      ensures f in st.filesSeen
    {
      EveryFileSeen(g, init, d, st, f, p);
    }
    forall c | BroughtIn(g, init, c)
      ensures c.sym in st.seenWhere && st.seenWhere[c.sym].Length() <= c.Length()
    {
      EverySymbolSeen(g, init, d, st, c);
    }
    forall s | s in st.seenWhere
      ensures Shortest(g, init, st.seenWhere[s], s)
    {}
  }

  ghost function Names(t: Tables, init: set<string>): set<string> {
    init + set f, s | f in t.strongUndef && s in t.strongUndef[f] :: s
  }

  lemma NeededNames(t: Tables, g: Graph, init: set<string>, d: nat, st: State)
    requires t.Represents(g) && Sound(g, init, d, st)
    ensures st.allUndef.Keys <= Names(t, init)
  {
    forall s | s in st.allUndef
      ensures s in Names(t, init)
    {
      var c := st.allUndef[s];
      if c.Via? {
        assert s in Get(t.strongUndef, c.file);
      }
    }
  }

  lemma StartsSound(g: Graph, init: set<string>, st: State)
    requires st.filesSeen == {} && st.seenWhere == st.allUndef == map s | s in init :: Initial(s)
    ensures Sound(g, init, 0, st) && Complete(g, init, 0, st) && Closed(g, st) && Frontier(0, st, st.allUndef)
  {}

  /** A round that leaves work to do has recorded a new symbol. */
  lemma RoundProgresses(g: Graph, init: set<string>, d: nat, st: State, st': State, current: Where)
    requires Sound(g, init, d, st) && Grows(st, st') && Frontier(d + 1, st', current)
    ensures st.allUndef.Keys <= st'.allUndef.Keys
    ensures current != map[] ==> st.allUndef.Keys < st'.allUndef.Keys
  {
    if current != map[] {
      var s :| s in current;
      assert s in st'.allUndef.Keys && s !in st.allUndef.Keys;
    }
  }

  method Explore(t: Tables, init: set<string>, ghost g: Graph) returns (st: State)
    requires t.Represents(g)
    ensures Explains(g, init, st)
  {
    var start := map s | s in init :: Initial(s);
    st := State({}, start, start);
    StartsSound(g, init, st);
    var current := start;
    ghost var d := 0;
    ghost var names := Names(t, init);
    while current != map[]
      invariant Sound(g, init, d, st) && Complete(g, init, d, st)
      invariant Closed(g, st) && Frontier(d, st, current)
      decreases |names - st.allUndef.Keys|, if current == map[] then 0 else 1
    {
      ghost var before := st;
      st, current := VisitLevel(t, st, current, g, init, d);
      RoundProgresses(g, init, d, before, st, current);
      d := d + 1;
      NeededNames(t, g, init, d, st);
      Shrinks(names, before.allUndef.Keys, st.allUndef.Keys);
    }
    FixpointExplains(g, init, d, st);
  }

  lemma Shrinks(all: set<string>, a: set<string>, b: set<string>)
    requires a <= b <= all
    ensures |all - b| <= |all - a| && (a < b ==> |all - b| < |all - a|)
  {
    assert all - a == (all - b) + (b - a);
    if a < b {
      var x :| x in b && x !in a;
      assert x in b - a;
    }
  }

  // ----- The verdict -----

  predicate Reserved(stdsyms: set<string>, s: string) {
    (s != "" && s[0] == '_') || s in stdsyms
  }

  method Report(seenWhere: Where, stdsyms: set<string>) returns (report: Where, ret: int)
    ensures forall s :: s in report <==> s in seenWhere && !Reserved(stdsyms, s)
    ensures Extends(report, seenWhere)
    ensures ret == if report == map[] then 0 else 1
  {
    report, ret := map[], 0;
    var todo := seenWhere.Keys;
    while todo != {}
      invariant todo <= seenWhere.Keys
      invariant forall s :: s in report <==> s in seenWhere && s !in todo && !Reserved(stdsyms, s)
      invariant Extends(report, seenWhere)
      invariant ret == if report == map[] then 0 else 1
    {
      var sym :| sym in todo;
      todo := todo - {sym};
      if !Reserved(stdsyms, sym) {
        report, ret := report[sym := seenWhere[sym]], 1;
      }
    }
  }

  /** A chain that ends in a symbol outside the reserved names: it does not begin with an
      underscore and is no standard symbol. */
  ghost predicate Offends(g: Graph, init: set<string>, stdsyms: set<string>, c: Chain) {
    BroughtIn(g, init, c) && !("_" <= c.sym) && c.sym !in stdsyms
  }

  /** The report has a shortest explanation for exactly the offending symbols. */
  ghost predicate Reported(g: Graph, init: set<string>, stdsyms: set<string>, report: Where) {
    && (forall c :: Offends(g, init, stdsyms, c) ==> c.sym in report)
    && (forall s | s in report :: Offends(g, init, stdsyms, report[s]) && Shortest(g, init, report[s], s))
  }

  /** The exit status is 1 exactly when some use of the header can bring in a symbol that is
      not reserved, and every such symbol is reported with a shortest explanation. */
  method Check(listing: seq<Listed>, undefined: set<string>, stdsyms: set<string>)
    returns (report: Where, ret: int)
    ensures Reported(GraphOf(listing), undefined, stdsyms, report)
    ensures ret == if exists c :: Offends(GraphOf(listing), undefined, stdsyms, c) then 1 else 0
  {
    ghost var g := GraphOf(listing);
    var t := BuildTables(listing);
    var st := Explore(t, undefined, g);
    report, ret := Report(st.seenWhere, stdsyms);
    Verdict(g, undefined, stdsyms, st, report, ret);
  }

  lemma Verdict(g: Graph, init: set<string>, stdsyms: set<string>, st: State, report: Where, ret: int)
    requires Explains(g, init, st)
    requires forall s :: s in report <==> s in st.seenWhere && !Reserved(stdsyms, s)
    requires Extends(report, st.seenWhere)
    requires ret == if report == map[] then 0 else 1
    ensures Reported(g, init, stdsyms, report)
    ensures ret == if exists c :: Offends(g, init, stdsyms, c) then 1 else 0
  {
    if report != map[] {
      var s :| s in report;
      assert BroughtIn(g, init, report[s]) && report[s].sym == s;
    }
  }

  /** What each kind of line says: a definition defines its symbol, a strong mention or an
      undefined one shows it, and only a strong undefined one needs it. */
  lemma LineMeans(r: Listed, f: string, s: string)
    ensures var g, here := GraphOf([r]), f == r.file && s == r.name;
            && (r.defined && r.bind.Weak? ==> (g.defines(f, s) <==> here) && !g.seen(f, s) && !g.needs(f, s))
            && (r.defined && r.bind.Global? ==> (g.defines(f, s) <==> here) && (g.seen(f, s) <==> here) && !g.needs(f, s))
            && (!r.defined && r.bind.Weak? ==> !g.defines(f, s) && (g.seen(f, s) <==> here) && !g.needs(f, s))
            && (!r.defined && r.bind.Global? ==> !g.defines(f, s) && (g.seen(f, s) <==> here) && (g.needs(f, s) <==> here))
  {
    assert r in [r];
  }
}
