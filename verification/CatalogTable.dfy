/** The hash table of a message catalog: `write_out` chooses its size and fills it,
    `catgets` looks messages up in it. */
module CatalogTable {
  import opened Wrappers
  import opened Sequences

  type byte = x: int | 0 <= x < 256
  type u32 = x: int | 0 <= x < 0x1_0000_0000

  const INT_MAX := 0x7fff_ffff
  const UINT_MAX := 0xffff_ffff

  /** A message; SYMBOL is present when its number was assigned automatically. */
  datatype Message = Message(number: int, symbol: Option<string>, text: seq<byte>)

  /** A message set; NUMBER is already incremented by `find_set`, so it is never 0. */
  datatype MessageSet = MessageSet(number: int, messages: seq<Message>)

  /** A message together with the number of its set. */
  datatype Entry = Entry(set_: int, number: int, text: seq<byte>)

  function FlatSet(s: MessageSet): (es: seq<Entry>)
    ensures |es| == |s.messages|
    ensures forall j | 0 <= j < |es| :: es[j] == Entry(s.number, s.messages[j].number, s.messages[j].text)
  {
    seq(|s.messages|, j requires 0 <= j < |s.messages| => Entry(s.number, s.messages[j].number, s.messages[j].text))
  }

  /** All messages in the order in which the two nested list walks meet them. */
  function Flat(sets: seq<MessageSet>): seq<Entry> {
    if sets == [] then [] else Flat(sets[..|sets| - 1]) + FlatSet(sets[|sets| - 1])
  }

  lemma FlatNext(sets: seq<MessageSet>, i: nat)
    requires i < |sets|
    ensures Flat(sets[..i + 1]) == Flat(sets[..i]) + FlatSet(sets[i])
  {
    assert sets[..i + 1][..i] == sets[..i];
  }

  lemma {:induction false} FlatPrefix(sets: seq<MessageSet>, i: nat)
    requires i <= |sets|
    ensures Flat(sets[..i]) <= Flat(sets)
    decreases |sets| - i
  {
    if i < |sets| {
      FlatNext(sets, i);
      FlatPrefix(sets, i + 1);
    } else {
      assert sets[..i] == sets;
    }
  }

  // ----- The hash function -----

  /** A product of two `int`s as the machine computes it, then converted to `size_t`. */
  function Product(a: int, b: int): nat {
    var p := (a * b + 0x8000_0000) % 0x1_0000_0000 - 0x8000_0000;
    if p < 0 then p + 0x1_0000_0000_0000_0000 else p
  }

  /** The hash is the product itself while that fits an `int`, agrees with it modulo 2^32 always,
      and is otherwise a sign-extended 32-bit number. */
  lemma ProductWraps(a: int, b: int)
    ensures Product(a, b) % 0x1_0000_0000 == (a * b) % 0x1_0000_0000
    ensures 0 <= a * b <= INT_MAX ==> Product(a, b) == a * b
    ensures Product(a, b) <= INT_MAX || 0xffff_ffff_8000_0000 <= Product(a, b) <= 0xffff_ffff_ffff_ffff
  {
    WrapOf(a * b);
  }

  lemma WrapOf(x: int)
    ensures var p := (x + 0x8000_0000) % 0x1_0000_0000 - 0x8000_0000;
            && p % 0x1_0000_0000 == x % 0x1_0000_0000 && -INT_MAX - 1 <= p <= INT_MAX && (0 <= x <= INT_MAX ==> p == x)
            && (p < 0 ==> (p + 0x1_0000_0000_0000_0000) % 0x1_0000_0000 == x % 0x1_0000_0000)
  {}

  /** Position of a message in a plane. */
  type Hasher = Entry -> nat

  /** `(number * set) % size` of the writer. */
  function HashAt(size: nat): (f: Hasher)
    requires size > 0
    ensures forall e :: f(e) < size
  {
    (e: Entry) => Product(e.number, e.set_) % size
  }

  /** Indices of the entries that fall into plane position H, in list order. */
  function Bucket(es: seq<Entry>, f: Hasher, h: nat): (b: seq<nat>)
    ensures forall k | 0 <= k < |b| :: b[k] < |es| && f(es[b[k]]) == h
  {
    if es == [] then []
    else
      var n := |es| - 1;
      Bucket(es[..n], f, h) + if f(es[n]) == h then [n] else []
  }

  function Max(a: nat, b: nat): nat { if a < b then b else a }

  /** The depth a table needs under the given hash. */
  function Depth(es: seq<Entry>, f: Hasher): (d: nat)
    ensures d >= 1
  {
    if es == [] then 1
    else Max(Depth(es[..|es| - 1], f), |Bucket(es, f, f(es[|es| - 1]))|)
  }

  lemma BucketNext(es: seq<Entry>, e: Entry, f: Hasher, h: nat)
    ensures Bucket(es + [e], f, h) == Bucket(es, f, h) + if f(e) == h then [|es|] else []
  {
    assert (es + [e])[..|es|] == es;
  }

  lemma DepthNext(es: seq<Entry>, e: Entry, f: Hasher)
    ensures Depth(es + [e], f) == Max(Depth(es, f), |Bucket(es + [e], f, f(e))|)
  {
    assert (es + [e])[..|es|] == es;
  }

  lemma {:induction false} BucketGrows(es: seq<Entry>, more: seq<Entry>, f: Hasher, h: nat)
    ensures Bucket(es, f, h) <= Bucket(es + more, f, h)
  {
    if more == [] {
      assert es + more == es;
    } else {
      var n := |more| - 1;
      BucketGrows(es, more[..n], f, h);
      assert es + more == (es + more[..n]) + [more[n]];
      BucketNext(es + more[..n], more[n], f, h);
    }
  }

  lemma {:induction false} DepthGrows(es: seq<Entry>, more: seq<Entry>, f: Hasher)
    ensures Depth(es, f) <= Depth(es + more, f)
  {
    if more == [] {
      assert es + more == es;
    } else {
      var n := |more| - 1;
      DepthGrows(es, more[..n], f);
      assert more == more[..n] + [more[n]];
      Associate(es, more[..n], [more[n]]);
      DepthNext(es + more[..n], more[n], f);
    }
  }

  /** `Depth` is the true maximum bucket count (and at least 1). */
  lemma {:induction false} DepthIsMaximum(es: seq<Entry>, f: Hasher)
    ensures forall h :: |Bucket(es, f, h)| <= Depth(es, f)
    ensures Depth(es, f) == 1 || exists h :: |Bucket(es, f, h)| == Depth(es, f)
  {
    if es != [] {
      var n := |es| - 1;
      DepthIsMaximum(es[..n], f);
      assert es == es[..n] + [es[n]];
      forall h: nat
        ensures |Bucket(es, f, h)| <= Depth(es, f)
      {
        BucketNext(es[..n], es[n], f, h);
      }
      var last := f(es[n]);
      if Depth(es, f) == |Bucket(es, f, last)| {
        assert exists h :: |Bucket(es, f, h)| == Depth(es, f);
      } else if Depth(es, f) != 1 {
        var g :| |Bucket(es[..n], f, g)| == Depth(es[..n], f);
        BucketNext(es[..n], es[n], f, g);
        assert |Bucket(es, f, g)| == Depth(es, f);
      }
    }
  }

  // ----- Sizing -----

  lemma Times(a: nat, b: nat, c: nat)
    requires a <= b
    ensures a * c <= b * c
  {}

  /** What the counters say while the lists are walked: exact until the early exit was taken. */
  ghost predicate Counts(deep: seq<nat>, depth: nat, es: seq<Entry>, f: Hasher, broken: bool) {
    && (forall h | 0 <= h < |deep| :: deep[h] <= |Bucket(es, f, h)|)
    && 1 <= depth <= Depth(es, f)
    && (!broken ==> depth == Depth(es, f) && forall h | 0 <= h < |deep| :: deep[h] == |Bucket(es, f, h)|)
  }

  lemma LoadNext(es: seq<Entry>, e: Entry, f: Hasher, h: nat)
    ensures |Bucket(es + [e], f, h)| == |Bucket(es, f, h)| + if f(e) == h then 1 else 0
  {
    BucketNext(es, e, f, h);
  }

  lemma CountsNext(deep: seq<nat>, depth: nat, es: seq<Entry>, f: Hasher, broken: bool, e: Entry)
    requires Counts(deep, depth, es, f, broken) && f(e) < |deep|
    ensures var n := deep[f(e)] + 1;
            Counts(deep[f(e) := n], Max(depth, n), es + [e], f, broken)
  {
    forall h: nat
      ensures |Bucket(es + [e], f, h)| == |Bucket(es, f, h)| + if f(e) == h then 1 else 0
    {
      LoadNext(es, e, f, h);
    }
    DepthNext(es, e, f);
  }

  lemma CountsSkip(deep: seq<nat>, depth: nat, es: seq<Entry>, f: Hasher, more: seq<Entry>)
    requires Counts(deep, depth, es, f, true)
    ensures Counts(deep, depth, es + more, f, true)
  {
    DepthGrows(es, more, f);
    forall h | 0 <= h < |deep|
      ensures deep[h] <= |Bucket(es + more, f, h)|
    {
      BucketGrows(es, more, f, h);
    }
  }

  /** `++deep[idx]` and the update of `act_depth`. */
  method CountMessage(deep: array<nat>, depth: nat, e: Entry, f: Hasher, ghost seen: seq<Entry>, ghost broken: bool)
    returns (depth': nat)
    requires f(e) < deep.Length && Counts(deep[..], depth, seen, f, broken)
    modifies deep
    ensures Counts(deep[..], depth', seen + [e], f, broken) && depth <= depth'
  {
    var idx := f(e);
    CountsNext(deep[..], depth, seen, f, broken, e);
    deep[idx] := deep[idx] + 1;
    depth' := if deep[idx] > depth then deep[idx] else depth;
  }

  lemma Advance<T>(seen: seq<T>, es: seq<T>, j: nat)
    requires j < |es|
    ensures (seen + [es[j]]) + es[j + 1..] == seen + es[j..]
  {}

  /** The inner loop over one set.  The early exit leaves the rest of the set uncounted. */
  method MeasureSet(s: MessageSet, size: nat, bestTotal: nat, deep: array<nat>, depth: nat,
                    f: Hasher, ghost done: seq<Entry>, ghost broken: bool)
    returns (depth': nat, ghost broken': bool)
    requires size == deep.Length && forall e :: f(e) < size
    requires Counts(deep[..], depth, done, f, broken)
    requires broken ==> depth * size > bestTotal
    modifies deep
    ensures Counts(deep[..], depth', done + FlatSet(s), f, broken')
    ensures broken' ==> depth' * size > bestTotal
  {
    ghost var es := FlatSet(s);
    ghost var seen := done;
    depth', broken' := depth, broken;
    var j := 0;
    while j < |s.messages|
      invariant 0 <= j <= |es| && seen + es[j..] == done + es
      invariant Counts(deep[..], depth', seen, f, broken')
      invariant broken' ==> depth' * size > bestTotal
    {
      var e := Entry(s.number, s.messages[j].number, s.messages[j].text);
      var d := CountMessage(deep, depth', e, f, seen, broken');
      Advance(seen, es, j);
      seen, j := seen + [e], j + 1;
      Times(depth', d, size);
      if d > depth' {
        depth' := d;
        if depth' * size > bestTotal {
          broken' := true;
          break;
        }
      }
    }
    if broken' {
      CountsSkip(deep[..], depth', seen, f, es[j..]);
      assert seen + es[j..] == done + es;
    } else {
      assert seen + es[j..] == seen;
    }
  }

  /** The two nested loops over `deep`: a candidate that survives has been measured exactly. */
  method MeasureDepth(sets: seq<MessageSet>, size: nat, bestTotal: nat) returns (depth: nat)
    requires size > 0
    ensures 1 <= depth <= Depth(Flat(sets), HashAt(size))
    ensures depth * size <= bestTotal ==> depth == Depth(Flat(sets), HashAt(size))
  {
    var f := HashAt(size);
    var deep := new nat[size](_ => 0);
    depth := 1;
    ghost var broken := false;
    ghost var done: seq<Entry> := [];
    var i := 0;
    while i < |sets|
      invariant 0 <= i <= |sets| && done == Flat(sets[..i])
      invariant Counts(deep[..], depth, done, f, broken)
      invariant broken ==> depth * size > bestTotal
    {
      FlatNext(sets, i);
      depth, broken := MeasureSet(sets[i], size, bestTotal, deep, depth, f, done, broken);
      done := done + FlatSet(sets[i]);
      i := i + 1;
    }
    assert sets[..|sets|] == sets;
  }

  /** Cells needed by a table of the given size. */
  function Cost(es: seq<Entry>, size: nat): (c: nat)
    requires size > 0
  {
    Depth(es, HashAt(size)) * size
  }

  /** The least size with at most five messages to a plane position, one to spare. */
  function StartSize(total: nat): (size: nat)
    ensures 5 * size > total && forall s: nat | 5 * s > total :: s >= size
  {
    1 + total / 5
  }

  /** No admissible size needs fewer cells, and no larger one as few. */
  ghost predicate Optimal(es: seq<Entry>, start: nat, size: nat, depth: nat) {
    && 0 < start <= size && depth == Depth(es, HashAt(size))
    && forall s: nat | s >= start :: Cost(es, size) <= Cost(es, s) && (Cost(es, s) == Cost(es, size) ==> s <= size)
  }

  /** So the table has the fewest cells of all tables deep enough for every bucket. */
  lemma OptimalIsLeast(es: seq<Entry>, start: nat, size: nat, depth: nat, s: nat, d: nat)
    requires Optimal(es, start, size, depth) && s >= start && d > 0
    requires forall h: nat :: |Bucket(es, HashAt(s), h)| <= d
    ensures size * depth <= s * d
  {
    DepthIsMaximum(es, HashAt(s));
    Times(Depth(es, HashAt(s)), d, s);
    assert Cost(es, size) <= Cost(es, s);
  }

  /** Some admissible size stays below the initial value UINT_MAX of `best_total`; a tie at
      UINT_MAX is lost when UINT_MAX itself, the mark for "nothing found", wins it. */
  ghost predicate Usable(es: seq<Entry>, start: nat)
    requires start > 0
  {
    exists s: nat | start <= s < UINT_MAX ::
      Cost(es, s) < UINT_MAX || (Cost(es, s) == UINT_MAX && Cost(es, UINT_MAX) > UINT_MAX)
  }

  /** What the search knows about the sizes START, ..., ACT - 1. */
  ghost predicate Searched(es: seq<Entry>, start: nat, act: nat, found: bool, total: nat, size: nat, depth: nat) {
    && 0 < start <= act
    && (found ==> start <= size < act && total == Cost(es, size) <= UINT_MAX && depth == Depth(es, HashAt(size))
                  && forall s: nat | start <= s < act :: total <= Cost(es, s) && (Cost(es, s) == total ==> s <= size))
    && (!found ==> total == size == UINT_MAX && forall s: nat | start <= s < act :: Cost(es, s) > UINT_MAX)
  }

  lemma CostAtLeastSize(es: seq<Entry>, size: nat)
    requires size > 0
    ensures Cost(es, size) >= size
  {
    Times(1, Depth(es, HashAt(size)), size);
  }

  lemma SearchStep(es: seq<Entry>, start: nat, act: nat, found: bool, total: nat, size: nat, depth: nat, measured: nat)
    requires Searched(es, start, act, found, total, size, depth) && act <= total <= UINT_MAX
    requires measured <= Depth(es, HashAt(act))
    requires measured * act <= total ==> measured == Depth(es, HashAt(act))
    ensures if measured * act <= total then Searched(es, start, act + 1, true, measured * act, act, measured)
            else Searched(es, start, act + 1, found, total, size, depth)
  {
    Times(measured, Depth(es, HashAt(act)), act);
    if measured * act > total {
      assert Cost(es, act) > total;
    }
  }

  lemma SearchEnds(es: seq<Entry>, start: nat, act: nat, found: bool, total: nat, size: nat, depth: nat)
    requires Searched(es, start, act, found, total, size, depth) && act > total
    ensures found ==> Optimal(es, start, size, depth)
    ensures Usable(es, start) <==> found && size != UINT_MAX
  {
    forall s: nat | s >= act
      ensures Cost(es, s) > total
    {
      CostAtLeastSize(es, s);
    }
    if found {
      CostAtLeastSize(es, size);
    }
    if Usable(es, start) {
      var s: nat :| start <= s < UINT_MAX && (Cost(es, s) < UINT_MAX || (Cost(es, s) == UINT_MAX && Cost(es, UINT_MAX) > UINT_MAX));
      assert found ==> Cost(es, size) <= Cost(es, s);
    }
    if found && size != UINT_MAX && Cost(es, size) == UINT_MAX && start <= UINT_MAX {
      CostAtLeastSize(es, UINT_MAX);
      assert UINT_MAX < act ==> Cost(es, UINT_MAX) != total;
    }
  }

  /** Sizing: the result is optimal exactly when `Usable` holds; otherwise it is 1 x 1. */
  method ChooseSize(sets: seq<MessageSet>, totalMessages: nat) returns (size: nat, depth: nat)
    ensures size > 0 && depth > 0
    ensures Optimal(Flat(sets), StartSize(totalMessages), size, depth) <==> Usable(Flat(sets), StartSize(totalMessages))
    ensures !Usable(Flat(sets), StartSize(totalMessages)) ==> size == depth == 1
  {
    ghost var es, start, found := Flat(sets), StartSize(totalMessages), false;
    var bestTotal: nat, bestSize: nat, bestDepth: nat := UINT_MAX, UINT_MAX, UINT_MAX;
    var act: nat := 1 + totalMessages / 5;
    while act <= bestTotal
      invariant Searched(es, start, act, found, bestTotal, bestSize, bestDepth) && bestTotal <= UINT_MAX
      decreases bestTotal + 1 - act
    {
      depth := MeasureDepth(sets, act, bestTotal);
      SearchStep(es, start, act, found, bestTotal, bestSize, bestDepth, depth);
      if depth * act <= bestTotal {
        bestTotal, bestSize, bestDepth := depth * act, act, depth;
        found := true;
      }
      act := act + 1;
    }
    SearchEnds(es, start, act, found, bestTotal, bestSize, bestDepth);
    if bestSize == UINT_MAX {
      bestSize, bestDepth := 1, 1;
      OneByOneIsUsable(es, start);
    }
    size, depth := bestSize, bestDepth;
  }

  lemma OneByOneIsUsable(es: seq<Entry>, start: nat)
    requires start > 0
    ensures Optimal(es, start, 1, 1) ==> Usable(es, start)
  {
    if Optimal(es, start, 1, 1) {
      assert Cost(es, 1) < UINT_MAX;
    }
  }

  lemma {:induction false} DepthAtMostLength(es: seq<Entry>, f: Hasher)
    ensures Depth(es, f) <= Max(1, |es|)
  {
    if es != [] {
      DepthAtMostLength(es[..|es| - 1], f);
      BucketAtMostLength(es, f, f(es[|es| - 1]));
    }
  }

  lemma {:induction false} BucketAtMostLength(es: seq<Entry>, f: Hasher, h: nat)
    ensures |Bucket(es, f, h)| <= |es|
  {
    if es != [] {
      BucketAtMostLength(es[..|es| - 1], f, h);
    }
  }

  /** Every catalog that is not astronomically large is sized optimally. */
  lemma OrdinaryCatalogsUsable(es: seq<Entry>, totalMessages: nat)
    requires Max(1, |es|) * StartSize(totalMessages) < UINT_MAX
    ensures Usable(es, StartSize(totalMessages))
  {
    var start := StartSize(totalMessages);
    DepthAtMostLength(es, HashAt(start));
    Times(Depth(es, HashAt(start)), Max(1, |es|), start);
    Times(1, Max(1, |es|), start);
    assert Cost(es, start) < UINT_MAX;
  }

  /** A count of messages so large that the search cannot begin: the table falls back to 1 x 1. */
  lemma HugeCountsUnusable(es: seq<Entry>, totalMessages: nat)
    requires totalMessages >= 5 * UINT_MAX
    ensures !Usable(es, StartSize(totalMessages))
  {}
}
