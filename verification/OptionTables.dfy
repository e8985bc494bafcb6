/** The getopt tables of one option list: what `convert_options` writes for each option. */
module OptionTables {
  import opened Wrappers
  import opened ArgpTypes
  import opened PackedKeys

  const COLON := 58

  datatype ArgKind = NoArgument | RequiredArgument | OptionalArgument

  /** `struct option` of getopt.h; an argp table never uses FLAG.  VAL is given by the user key
      and the group it is packed from. */
  datatype LongOpt = LongOpt(name: CStr, hasArg: ArgKind, key: int, group: nat) {
    function Val(): int { Pack(key, group) }
  }

  /** The option whose argument and flags option I uses: the most recent one that is no alias. */
  function RealAt(opts: seq<Opt>, i: nat): Opt
    requires i < |opts|
  {
    if i == 0 || !opts[i].alias then opts[i] else RealAt(opts, i - 1)
  }

  function KindOf(source: Opt): ArgKind {
    if !source.hasArg then NoArgument else if source.argOptional then OptionalArgument else RequiredArgument
  }

  function Colons(kind: ArgKind): seq<int> {
    match kind
    case NoArgument => []
    case RequiredArgument => [COLON]
    case OptionalArgument => [COLON, COLON]
  }

  /** What getopt's short string gets for an option. */
  function ShortText(opt: Opt, source: Opt): seq<int> {
    if source.doc || !opt.IsShort() then [] else [opt.key] + Colons(KindOf(source))
  }

  /** The long option an option asks for, in group G. */
  function LongText(opt: Opt, source: Opt, g: nat): seq<LongOpt> {
    if source.doc || opt.name.None? then []
    else [LongOpt(opt.name.value, KindOf(source), LongKey(opt, source), g)]
  }

  function LongKey(opt: Opt, source: Opt): int { if opt.key != 0 then opt.key else source.key }

  function ShortTexts(opts: seq<Opt>, n: nat): seq<int>
    requires n <= |opts|
  {
    if n == 0 then [] else ShortTexts(opts, n - 1) + ShortText(opts[n - 1], RealAt(opts, n - 1))
  }

  function LongTexts(opts: seq<Opt>, n: nat, g: nat): seq<LongOpt>
    requires n <= |opts|
  {
    if n == 0 then [] else LongTexts(opts, n - 1, g) + LongText(opts[n - 1], RealAt(opts, n - 1), g)
  }

  // ----- The long option table keeps the first option of every name -----

  /** The first option of a given name. */
  function Lookup(longs: seq<LongOpt>, name: CStr): Option<LongOpt> {
    if longs == [] then None else if longs[0].name == name then Some(longs[0]) else Lookup(longs[1..], name)
  }

  ghost predicate DistinctNames(longs: seq<LongOpt>) {
    forall i, j | 0 <= i < j < |longs| :: longs[i].name != longs[j].name
  }

  lemma {:induction false} LookupAppend(longs: seq<LongOpt>, more: seq<LongOpt>, name: CStr)
    ensures Lookup(longs + more, name) == if Lookup(longs, name).Some? then Lookup(longs, name) else Lookup(more, name)
  {
    if longs == [] {
      assert longs + more == more;
    } else {
      assert (longs + more)[1..] == longs[1..] + more;
      LookupAppend(longs[1..], more, name);
    }
  }

  lemma {:induction false} LookupMembers(longs: seq<LongOpt>, name: CStr)
    ensures Lookup(longs, name).None? <==> forall i | 0 <= i < |longs| :: longs[i].name != name
  {
    if longs != [] {
      LookupMembers(longs[1..], name);
      assert forall i | 1 <= i < |longs| :: longs[i] == longs[1..][i - 1];
    }
  }

  /** LONGS holds one option for every name in ASKED: the one asked for first. */
  ghost predicate Table(longs: seq<LongOpt>, asked: seq<LongOpt>) {
    && DistinctNames(longs) && |longs| <= |asked|
    && forall name :: Lookup(longs, name) == Lookup(asked, name)
  }

  lemma TableGrows(longs: seq<LongOpt>, asked: seq<LongOpt>, l: LongOpt)
    requires Table(longs, asked)
    ensures Table(if Lookup(longs, l.name).None? then longs + [l] else longs, asked + [l])
  {
    LookupMembers(longs, l.name);
    forall name
      ensures Lookup(longs + [l], name) == Lookup(asked + [l], name)
      ensures Lookup(longs, l.name).Some? ==> Lookup(longs, name) == Lookup(asked + [l], name)
    {
      LookupAppend(longs, [l], name);
      LookupAppend(asked, [l], name);
    }
  }

  /** `find_long_option`. */
  method FindLongOption(longs: seq<LongOpt>, name: CStr) returns (i: int)
    ensures -1 <= i < |longs|
    ensures i == -1 <==> Lookup(longs, name).None?
    ensures i != -1 ==> Lookup(longs, name) == Some(longs[i])
  {
    i := 0;
    while i < |longs|
      invariant 0 <= i <= |longs| && Lookup(longs, name) == Lookup(longs[i..], name)
    {
      if longs[i].name == name {
        return;
      }
      assert longs[i..][1..] == longs[i + 1..];
      i := i + 1;
    }
    i := -1;
  }

  // ----- Lengths -----

  /** An option that takes all three characters `calc_sizes` sets aside for it. */
  predicate TakesThree(opts: seq<Opt>, i: nat)
    requires i < |opts|
  {
    !RealAt(opts, i).doc && opts[i].IsShort() && KindOf(RealAt(opts, i)) == OptionalArgument
  }

  lemma OneText(opt: Opt, source: Opt, g: nat)
    ensures |ShortText(opt, source)| <= 3 && |LongText(opt, source, g)| <= 1
    ensures |ShortText(opt, source)| == 3 <==> !source.doc && opt.IsShort() && KindOf(source) == OptionalArgument
  {}

  predicate AllTakeThree(opts: seq<Opt>, n: nat)
    requires n <= |opts|
  {
    n == 0 || (AllTakeThree(opts, n - 1) && TakesThree(opts, n - 1))
  }

  lemma {:induction false} TextLengths(opts: seq<Opt>, n: nat, g: nat)
    requires n <= |opts|
    ensures |ShortTexts(opts, n)| <= 3 * n && |LongTexts(opts, n, g)| <= n
    ensures |ShortTexts(opts, n)| == 3 * n <==> AllTakeThree(opts, n)
  {
    if n > 0 {
      TextLengths(opts, n - 1, g);
      OneText(opts[n - 1], RealAt(opts, n - 1), g);
    }
  }
}
