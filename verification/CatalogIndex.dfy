/** Filling the two-dimensional hash table of a catalog and looking messages up in it. */
module CatalogIndex {
  import opened Wrappers
  import opened CatalogTable

  // ----- Table geometry -----

  /** The cell group for plane position H at collision depth K. */
  function Slot(h: nat, k: nat, size: nat): nat { h + k * size }

  /** Number of cell groups of a table. */
  function Cells(size: nat, depth: nat): nat { size * depth }

  lemma SlotBound(h: nat, k: nat, size: nat, depth: nat)
    requires h < size && k < depth
    ensures Slot(h, k, size) < size * depth
  {
    Times(k + 1, depth, size);
  }

  lemma SlotNext(h: nat, k: nat, size: nat)
    ensures Slot(h, k + 1, size) == Slot(h, k, size) + size
  {}

  lemma SlotInjective(h: nat, k: nat, h': nat, k': nat, size: nat)
    requires h < size && h' < size && Slot(h, k, size) == Slot(h', k', size)
    ensures h == h' && k == k'
  {
    if k < k' {
      Times(k + 1, k', size);
    } else if k' < k {
      Times(k' + 1, k, size);
    }
  }

  // ----- The string pool -----

  /** All strings one after the other, each with its terminating NUL. */
  function Pool(es: seq<Entry>): seq<byte> {
    if es == [] then [] else Pool(es[..|es| - 1]) + es[|es| - 1].text + [0]
  }

  function Offset(es: seq<Entry>, i: nat): nat
    requires i <= |es|
  {
    |Pool(es[..i])|
  }

  ghost predicate Storable(e: Entry) {
    1 <= e.set_ <= INT_MAX && 0 <= e.number <= INT_MAX && 0 !in e.text
  }

  ghost predicate AllStorable(es: seq<Entry>) {
    && (forall i | 0 <= i < |es| :: Storable(es[i]))
    && |Pool(es)| <= UINT_MAX
  }

  // ----- Filling -----

  /** Cell group (H, K) holds the K-th entry of bucket H, or is marked free. */
  ghost predicate CellOk(t: seq<u32>, es: seq<Entry>, f: Hasher, size: nat, h: nat, k: nat) {
    var b, a := Bucket(es, f, h), 3 * Slot(h, k, size);
    && a + 2 < |t|
    && if k < |b| then t[a] == es[b[k]].set_ && t[a + 1] == es[b[k]].number && t[a + 2] == Offset(es, b[k])
       else t[a] == 0 && t[a + 1] == 0 && t[a + 2] == 0
  }

  ghost predicate Indexed(t: seq<u32>, es: seq<Entry>, f: Hasher, size: nat, depth: nat) {
    && |t| == 3 * (size * depth)
    && forall h: nat, k: nat | h < size && k < depth :: CellOk(t, es, f, size, h, k)
  }

  lemma OffsetStays(es: seq<Entry>, e: Entry, i: nat)
    requires i <= |es|
    ensures Offset(es + [e], i) == Offset(es, i)
  {
    assert (es + [e])[..i] == es[..i];
  }

  lemma OffsetLast(es: seq<Entry>, e: Entry)
    ensures Offset(es + [e], |es|) == |Pool(es)|
  {
    assert (es + [e])[..|es|] == es;
  }

  lemma CellKept(t: seq<u32>, t': seq<u32>, es: seq<Entry>, e: Entry, f: Hasher, size: nat, h: nat, k: nat)
    requires CellOk(t, es, f, size, h, k) && |t'| == |t|
    requires var a := 3 * Slot(h, k, size); t'[a] == t[a] && t'[a + 1] == t[a + 1] && t'[a + 2] == t[a + 2]
    requires f(e) != h || k != |Bucket(es, f, h)|
    ensures CellOk(t', es + [e], f, size, h, k)
  {
    var b, a := Bucket(es, f, h), 3 * Slot(h, k, size);
    BucketNext(es, e, f, h);
    if k < |b| {
      OffsetStays(es, e, b[k]);
    }
  }

  lemma CellAdded(t: seq<u32>, es: seq<Entry>, e: Entry, f: Hasher, size: nat)
    requires var a := 3 * Slot(f(e), |Bucket(es, f, f(e))|, size);
             a + 2 < |t| && t[a] == e.set_ && t[a + 1] == e.number && t[a + 2] == |Pool(es)|
    ensures CellOk(t, es + [e], f, size, f(e), |Bucket(es, f, f(e))|)
  {
    BucketNext(es, e, f, f(e));
    OffsetLast(es, e);
  }

  lemma PlacedOk(t: seq<u32>, t': seq<u32>, es: seq<Entry>, e: Entry, f: Hasher, size: nat, depth: nat, a: nat)
    requires Indexed(t, es, f, size, depth) && f(e) < size && |Bucket(es, f, f(e))| < depth
    requires a == 3 * Slot(f(e), |Bucket(es, f, f(e))|, size) && |t'| == |t| && a + 2 < |t|
    requires t'[a] == e.set_ && t'[a + 1] == e.number && t'[a + 2] == |Pool(es)|
    requires forall i | 0 <= i < |t| && (i < a || a + 2 < i) :: t'[i] == t[i]
    ensures Indexed(t', es + [e], f, size, depth)
  {
    forall h: nat, k: nat | h < size && k < depth
      ensures CellOk(t', es + [e], f, size, h, k)
    {
      assert CellOk(t, es, f, size, h, k);
      if h == f(e) && k == |Bucket(es, f, h)| {
        CellAdded(t', es, e, f, size);
      } else {
        if Slot(h, k, size) == Slot(f(e), |Bucket(es, f, f(e))|, size) {
          SlotInjective(h, k, f(e), |Bucket(es, f, f(e))|, size);
        }
        CellKept(t, t', es, e, f, size, h, k);
      }
    }
  }

  /** Collision probing: the first free cell group of the bucket, which lies inside the table. */
  method FindFree(table: array<u32>, h: nat, size: nat, depth: nat, f: Hasher, ghost es: seq<Entry>) returns (idx: nat)
    requires h < size && Indexed(table[..], es, f, size, depth) && |Bucket(es, f, h)| < depth
    requires forall i | 0 <= i < |es| :: Storable(es[i])
    ensures idx == 3 * Slot(h, |Bucket(es, f, h)|, size) && idx + 2 < table.Length
  {
    ghost var b, k: nat := Bucket(es, f, h), 0;
    idx := h * 3;
    assert CellOk(table[..], es, f, size, h, k);
    while table[idx] != 0
      invariant k <= |b| && idx == 3 * Slot(h, k, size) && CellOk(table[..], es, f, size, h, k)
      decreases |b| - k
    {
      SlotNext(h, k, size);
      k := k + 1;
      assert CellOk(table[..], es, f, size, h, k);
      idx := idx + size * 3;
    }
  }

  method Place(table: array<u32>, e: Entry, offset: u32, size: nat, depth: nat, f: Hasher, ghost es: seq<Entry>)
    requires f(e) < size && Indexed(table[..], es, f, size, depth) && |Bucket(es, f, f(e))| < depth
    requires Storable(e) && offset == |Pool(es)| && forall i | 0 <= i < |es| :: Storable(es[i])
    modifies table
    ensures Indexed(table[..], es + [e], f, size, depth)
  {
    ghost var before := table[..];
    var idx := FindFree(table, f(e), size, depth, f, es);
    table[idx] := e.set_;
    table[idx + 1] := e.number;
    table[idx + 2] := offset;
    PlacedOk(before, table[..], es, e, f, size, depth, idx);
  }

  lemma PoolNext(es: seq<Entry>, e: Entry)
    ensures Pool(es + [e]) == Pool(es) + e.text + [0]
  {
    assert (es + [e])[..|es|] == es;
  }

  lemma {:induction false} PoolPrefix(es: seq<Entry>, i: nat)
    requires i <= |es|
    ensures Pool(es[..i]) <= Pool(es)
    decreases |es| - i
  {
    if i < |es| {
      PoolPrefix(es, i + 1);
      assert es[..i + 1] == es[..i] + [es[i]];
      PoolNext(es[..i], es[i]);
    } else {
      assert es[..i] == es;
    }
  }

  /** Room for one more message: its bucket is not yet as long as the chosen depth. */
  lemma BucketHasRoom(all: seq<Entry>, n: nat, f: Hasher, depth: nat)
    requires n < |all| && Depth(all, f) <= depth
    ensures |Bucket(all[..n], f, f(all[n]))| < depth
  {
    var es, e := all[..n], all[n];
    assert all == (es + [e]) + all[n + 1..];
    DepthIsMaximum(all, f);
    BucketNext(es, e, f, f(e));
    BucketGrows(es + [e], all[n + 1..], f, f(e));
  }

  /** The first N messages of ALL have been stored. */
  ghost predicate Filled(t: seq<u32>, strings: seq<byte>, all: seq<Entry>, n: nat, f: Hasher, size: nat, depth: nat) {
    n <= |all| && strings == Pool(all[..n]) && Indexed(t, all[..n], f, size, depth)
  }

  ghost predicate Fits(all: seq<Entry>, f: Hasher, size: nat, depth: nat) {
    (forall e :: f(e) < size) && Depth(all, f) <= depth && AllStorable(all)
  }

  lemma ReadyToPlace(all: seq<Entry>, n: nat, f: Hasher, size: nat, depth: nat)
    requires Fits(all, f, size, depth) && n < |all|
    ensures f(all[n]) < size && |Bucket(all[..n], f, f(all[n]))| < depth
    ensures Storable(all[n]) && (forall i | 0 <= i < n :: Storable(all[..n][i])) && |Pool(all[..n])| <= UINT_MAX
  {
    PoolPrefix(all, n);
    BucketHasRoom(all, n, f, depth);
  }

  lemma FilledNext(t: seq<u32>, all: seq<Entry>, n: nat, f: Hasher, size: nat, depth: nat)
    requires n < |all| && Indexed(t, all[..n] + [all[n]], f, size, depth)
    ensures Filled(t, Pool(all[..n]) + all[n].text + [0], all, n + 1, f, size, depth)
  {
    PoolNext(all[..n], all[n]);
    assert all[..n + 1] == all[..n] + [all[n]];
  }

  method FillMessage(table: array<u32>, strings: seq<byte>, e: Entry, size: nat, depth: nat, f: Hasher,
                     ghost all: seq<Entry>, ghost n: nat)
    returns (strings': seq<byte>)
    requires Fits(all, f, size, depth) && Filled(table[..], strings, all, n, f, size, depth)
    requires n < |all| && e == all[n]
    modifies table
    ensures Filled(table[..], strings', all, n + 1, f, size, depth)
  {
    ReadyToPlace(all, n, f, size, depth);
    Place(table, e, |strings|, size, depth, f, all[..n]);
    FilledNext(table[..], all, n, f, size, depth);
    strings' := strings + e.text + [0];
  }

  method FillSet(table: array<u32>, strings: seq<byte>, s: MessageSet, size: nat, depth: nat, f: Hasher,
                 ghost all: seq<Entry>, ghost n: nat)
    returns (strings': seq<byte>, ghost n': nat)
    requires Fits(all, f, size, depth) && Filled(table[..], strings, all, n, f, size, depth)
    requires n + |s.messages| <= |all| && all[n..n + |s.messages|] == FlatSet(s)
    modifies table
    ensures n' == n + |s.messages| && Filled(table[..], strings', all, n', f, size, depth)
  {
    strings', n' := strings, n;
    var j := 0;
    while j < |s.messages|
      invariant 0 <= j <= |s.messages| && n' == n + j && Filled(table[..], strings', all, n', f, size, depth)
    {
      var e := Entry(s.number, s.messages[j].number, s.messages[j].text);
      assert e == FlatSet(s)[j] == all[n..n + |s.messages|][j];
      strings' := FillMessage(table, strings', e, size, depth, f, all, n');
      j, n' := j + 1, n' + 1;
    }
  }

  lemma EmptyTable(t: seq<u32>, f: Hasher, size: nat, depth: nat)
    requires |t| == 3 * (size * depth) && forall i | 0 <= i < |t| :: t[i] == 0
    ensures Indexed(t, [], f, size, depth)
  {
    forall h: nat, k: nat | h < size && k < depth
      ensures CellOk(t, [], f, size, h, k)
    {
      SlotBound(h, k, size, depth);
    }
  }

  /** Filling the table: every message gets the next cell group of its bucket. */
  method FillSets(table: array<u32>, sets: seq<MessageSet>, size: nat, depth: nat, f: Hasher, ghost all: seq<Entry>)
    returns (strings: seq<byte>)
    requires all == Flat(sets) && Fits(all, f, size, depth) && Filled(table[..], [], all, 0, f, size, depth)
    modifies table
    ensures Filled(table[..], strings, all, |all|, f, size, depth)
  {
    strings := [];
    ghost var n := 0;
    var i := 0;
    while i < |sets|
      invariant 0 <= i <= |sets| && n == |Flat(sets[..i])|
      invariant Filled(table[..], strings, all, n, f, size, depth)
    {
      SetInFlat(sets, i);
      strings, n := FillSet(table, strings, sets[i], size, depth, f, all, n);
      i := i + 1;
    }
    assert sets[..i] == sets;
  }

  lemma FillEnds(t: seq<u32>, strings: seq<byte>, all: seq<Entry>, n: nat, f: Hasher, size: nat, depth: nat)
    requires Filled(t, strings, all, n, f, size, depth) && n == |all|
    ensures strings == Pool(all) && Indexed(t, all, f, size, depth)
  {
    assert all[..n] == all;
  }

  lemma FillStarts(t: seq<u32>, all: seq<Entry>, f: Hasher, size: nat, depth: nat)
    requires |t| == 3 * (size * depth) && forall i | 0 <= i < |t| :: t[i] == 0
    ensures Filled(t, [], all, 0, f, size, depth)
  {
    EmptyTable(t, f, size, depth);
    assert all[..0] == [];
  }

  method Fill(sets: seq<MessageSet>, size: nat, depth: nat) returns (table: array<u32>, strings: seq<byte>)
    requires size > 0 && Depth(Flat(sets), HashAt(size)) <= depth && AllStorable(Flat(sets))
    ensures fresh(table) && strings == Pool(Flat(sets))
    ensures Indexed(table[..], Flat(sets), HashAt(size), size, depth)
  {
    table := new u32[3 * (size * depth)](_ => 0);
    FillStarts(table[..], Flat(sets), HashAt(size), size, depth);
    strings := FillSets(table, sets, size, depth, HashAt(size), Flat(sets));
    FillEnds(table[..], strings, Flat(sets), |Flat(sets)|, HashAt(size), size, depth);
  }

  lemma SetInFlat(sets: seq<MessageSet>, i: nat)
    requires i < |sets|
    ensures var n, m, all := |Flat(sets[..i])|, |sets[i].messages|, Flat(sets);
            n + m <= |all| && all[n..n + m] == FlatSet(sets[i]) && |Flat(sets[..i + 1])| == n + m
  {
    FlatNext(sets, i);
    FlatPrefix(sets, i + 1);
  }

  // ----- Looking a message up -----

  /** A loaded catalog. */
  datatype Info = Info(size: nat, depth: nat, table: seq<u32>, strings: seq<byte>) {
    predicate Valid() {
      size > 0 && depth > 0 && |table| == 3 * (size * depth)
    }
  }

  /** The cell groups of plane position H from depth K on. */
  function Probe(c: Info, h: nat, k: nat, set_: int, message: int): Option<nat>
    requires c.Valid() && h < c.size && k <= c.depth
    decreases c.depth - k
  {
    if k == c.depth then None
    else
      SlotBound(h, k, c.size, c.depth);
      var a := 3 * Slot(h, k, c.size);
      if c.table[a] == set_ && c.table[a + 1] == message then Some(c.table[a + 2])
      else Probe(c, h, k + 1, set_, message)
  }

  /** Cell group I of the table belongs to the message. */
  predicate Cell(c: Info, i: nat, set_: int, message: int) {
    3 * i + 2 < |c.table| && c.table[3 * i] == set_ && c.table[3 * i + 1] == message
  }

  predicate CellOf(c: Info, h: nat, k: nat, set_: int, message: int) { Cell(c, Slot(h, k, c.size), set_, message) }

  /** R is the offset in the first cell group of plane position H, from depth K on, that belongs
      to the message; None if none does. */
  ghost predicate FirstMatch(c: Info, h: nat, k: nat, set_: int, message: int, r: Option<nat>) {
    match r
    case None => forall j: nat | k <= j < c.depth :: !CellOf(c, h, j, set_, message)
    case Some(x) =>
      exists j: nat | k <= j < c.depth :: CellOf(c, h, j, set_, message) && x == c.table[3 * Slot(h, j, c.size) + 2]
                                          && forall i: nat | k <= i < j :: !CellOf(c, h, i, set_, message)
  }

  lemma {:induction false} ProbeIsFirst(c: Info, h: nat, k: nat, set_: int, message: int)
    requires c.Valid() && h < c.size && k <= c.depth
    ensures FirstMatch(c, h, k, set_, message, Probe(c, h, k, set_, message))
    decreases c.depth - k
  {
    if k < c.depth {
      SlotBound(h, k, c.size, c.depth);
      if !CellOf(c, h, k, set_, message) {
        ProbeIsFirst(c, h, k + 1, set_, message);
      }
    }
  }

  /** `++set` on a 32-bit `int`. */
  function Increment(x: int): int { if x == INT_MAX then -INT_MAX - 1 else x + 1 }

  /** `catgets`: the offset of the message found, or None for the caller's default. */
  method Catgets(catalog: Option<Info>, set_: int, message: int) returns (r: Option<nat>)
    requires catalog.Some? ==> catalog.value.Valid()
    ensures r == Answer(catalog, set_, message)
    ensures catalog == None || set_ < 0 || set_ == INT_MAX || message < 0 ==> r == None
    ensures catalog.Some? && 0 <= set_ < INT_MAX && 0 <= message ==>
              FirstMatch(catalog.value, Product(set_ + 1, message) % catalog.value.size, 0, set_ + 1, message, r)
  {
    if catalog == None || Increment(set_) <= 0 || message < 0 {
      return None;
    }
    var c, s := catalog.value, Increment(set_);
    var h := Product(s, message) % c.size;
    ProbeIsFirst(c, h, 0, s, message);
    var idx := h * 3;
    var cnt := 0;
    while true
      invariant 0 <= cnt < c.depth && idx == 3 * Slot(h, cnt, c.size)
      invariant Probe(c, h, cnt, s, message) == Probe(c, h, 0, s, message)
      decreases c.depth - cnt
    {
      SlotBound(h, cnt, c.size, c.depth);
      if c.table[idx] == s && c.table[idx + 1] == message {
        return Some(c.table[idx + 2]);
      }
      idx := idx + c.size * 3;
      cnt := cnt + 1;
      if !(cnt < c.depth) {
        return None;
      }
    }
  }

  function Answer(catalog: Option<Info>, set_: int, message: int): Option<nat>
    requires catalog.Some? ==> catalog.value.Valid()
  {
    if catalog == None || Increment(set_) <= 0 || message < 0 then None
    else
      var c := catalog.value;
      Probe(c, Product(Increment(set_), message) % c.size, 0, Increment(set_), message)
  }

  // ----- The table against the map it speeds up -----

  type Key = (int, int)

  /** The plain map from (set, message) to string. */
  function Contents(es: seq<Entry>): map<Key, seq<byte>> {
    if es == [] then map[]
    else
      var e := es[|es| - 1];
      Contents(es[..|es| - 1])[(e.set_, e.number) := e.text]
  }

  ghost predicate DistinctKeys(es: seq<Entry>) {
    forall i, j | 0 <= i < j < |es| :: es[i].set_ != es[j].set_ || es[i].number != es[j].number
  }

  lemma {:induction false} ContentsHas(es: seq<Entry>, i: nat)
    requires i < |es| && DistinctKeys(es)
    ensures (es[i].set_, es[i].number) in Contents(es)
    ensures Contents(es)[(es[i].set_, es[i].number)] == es[i].text
  {
    var n := |es| - 1;
    if i < n {
      ContentsHas(es[..n], i);
    }
  }

  lemma {:induction false} ContentsOnly(es: seq<Entry>, key: Key)
    requires key in Contents(es)
    ensures exists i | 0 <= i < |es| :: (es[i].set_, es[i].number) == key
  {
    var n := |es| - 1;
    if (es[n].set_, es[n].number) != key {
      ContentsOnly(es[..n], key);
      var i :| 0 <= i < n && (es[..n][i].set_, es[..n][i].number) == key;
      assert es[i] == es[..n][i];
    }
  }

  /** Entry I sits somewhere in the bucket of its hash. */
  lemma {:induction false} InItsBucket(es: seq<Entry>, f: Hasher, i: nat)
    requires i < |es|
    ensures i in Bucket(es, f, f(es[i]))
  {
    var n := |es| - 1;
    if i < n {
      InItsBucket(es[..n], f, i);
    }
  }

  /** The C string that starts at the given place. */
  function CString(strings: seq<byte>, at: nat): seq<byte>
    requires at <= |strings|
    decreases |strings| - at
  {
    if at == |strings| || strings[at] == 0 then [] else [strings[at]] + CString(strings, at + 1)
  }

  lemma {:induction false} CStringIs(strings: seq<byte>, at: nat, text: seq<byte>)
    requires at + |text| < |strings| && strings[at..at + |text|] == text && strings[at + |text|] == 0 && 0 !in text
    ensures CString(strings, at) == text
    decreases text
  {
    if text != [] {
      assert strings[at] == text[0];
      CStringIs(strings, at + 1, text[1..]);
    }
  }

  lemma PooledString(es: seq<Entry>, i: nat)
    requires i < |es| && 0 !in es[i].text
    ensures Offset(es, i) < |Pool(es)| && CString(Pool(es), Offset(es, i)) == es[i].text
  {
    assert es[..i + 1] == es[..i] + [es[i]];
    PoolNext(es[..i], es[i]);
    PoolPrefix(es, i + 1);
    var at, text := Offset(es, i), es[i].text;
    assert Pool(es)[at..at + |text|] == Pool(es[..i + 1])[at..at + |text|];
    CStringIs(Pool(es), at, text);
  }

  lemma {:induction false} ProbeFinds(c: Info, es: seq<Entry>, f: Hasher, k: nat, j: nat)
    requires c.Valid() && Indexed(c.table, es, f, c.size, c.depth) && DistinctKeys(es)
    requires forall i | 0 <= i < |es| :: Storable(es[i])
    requires j < |es| && f(es[j]) < c.size
    requires k <= |Bucket(es, f, f(es[j]))| <= c.depth && j in Bucket(es, f, f(es[j]))[k..]
    ensures Probe(c, f(es[j]), k, es[j].set_, es[j].number) == Some(Offset(es, j))
    decreases c.depth - k
  {
    var h := f(es[j]);
    var b := Bucket(es, f, h);
    assert CellOk(c.table, es, f, c.size, h, k);
    if b[k] != j {
      assert j in b[k + 1..];
      ProbeFinds(c, es, f, k + 1, j);
    }
  }

  lemma {:induction false} ProbeMisses(c: Info, es: seq<Entry>, f: Hasher, h: nat, k: nat, set_: int, message: int)
    requires c.Valid() && Indexed(c.table, es, f, c.size, c.depth) && h < c.size && k <= c.depth
    requires set_ > 0 && forall i | 0 <= i < |es| :: es[i].set_ != set_ || es[i].number != message
    ensures Probe(c, h, k, set_, message) == None
    decreases c.depth - k
  {
    if k < c.depth {
      assert CellOk(c.table, es, f, c.size, h, k);
      ProbeMisses(c, es, f, h, k + 1, set_, message);
    }
  }

  /** C serves ES: every request is answered as the plain map answers it. */
  ghost predicate Serves(c: Info, es: seq<Entry>) {
    c.Valid() && forall set_: int, message: int | -INT_MAX - 1 <= set_ <= INT_MAX && -INT_MAX - 1 <= message <= INT_MAX ::
      var r := Answer(Some(c), set_, message);
      if (set_ + 1, message) in Contents(es)
      then r.Some? && r.value <= |c.strings| && CString(c.strings, r.value) == Contents(es)[(set_ + 1, message)]
      else r == None
  }

  lemma ServesPresent(c: Info, es: seq<Entry>, f: Hasher, key: Key) returns (i: nat)
    requires c.Valid() && Indexed(c.table, es, f, c.size, c.depth) && c.strings == Pool(es)
    requires AllStorable(es) && DistinctKeys(es) && Fits(es, f, c.size, c.depth) && key in Contents(es)
    ensures i < |es| && es[i].set_ == key.0 && es[i].number == key.1 && Contents(es)[key] == es[i].text
    ensures Probe(c, f(es[i]), 0, key.0, key.1) == Some(Offset(es, i))
    ensures Offset(es, i) < |c.strings| && CString(c.strings, Offset(es, i)) == es[i].text
  {
    ContentsOnly(es, key);
    i :| 0 <= i < |es| && (es[i].set_, es[i].number) == key;
    ContentsHas(es, i);
    InItsBucket(es, f, i);
    DepthIsMaximum(es, f);
    assert Bucket(es, f, f(es[i]))[0..] == Bucket(es, f, f(es[i]));
    ProbeFinds(c, es, f, 0, i);
    PooledString(es, i);
  }

  lemma ServesAbsent(c: Info, es: seq<Entry>, f: Hasher, h: nat, key: Key)
    requires c.Valid() && Indexed(c.table, es, f, c.size, c.depth) && DistinctKeys(es)
    requires key !in Contents(es) && key.0 > 0 && h < c.size
    ensures Probe(c, h, 0, key.0, key.1) == None
  {
    forall i | 0 <= i < |es|
      ensures es[i].set_ != key.0 || es[i].number != key.1
    {
      ContentsHas(es, i);
    }
    ProbeMisses(c, es, f, h, 0, key.0, key.1);
  }

  lemma ServesKey(c: Info, es: seq<Entry>, set_: int, message: int)
    requires c.Valid() && Indexed(c.table, es, HashAt(c.size), c.size, c.depth) && c.strings == Pool(es)
    requires AllStorable(es) && DistinctKeys(es) && Depth(es, HashAt(c.size)) <= c.depth
    requires -INT_MAX - 1 <= set_ <= INT_MAX && -INT_MAX - 1 <= message <= INT_MAX
    ensures var r := Answer(Some(c), set_, message);
            if (set_ + 1, message) in Contents(es)
            then r.Some? && r.value <= |c.strings| && CString(c.strings, r.value) == Contents(es)[(set_ + 1, message)]
            else r == None
  {
    var key := (set_ + 1, message);
    if key in Contents(es) {
      var i := ServesPresent(c, es, HashAt(c.size), key);
      assert Storable(es[i]);
      HashCommutes(es[i], c.size);
    } else if Increment(set_) > 0 && message >= 0 {
      ServesAbsent(c, es, HashAt(c.size), Product(Increment(set_), message) % c.size, key);
    }
  }

  lemma HashCommutes(e: Entry, size: nat)
    requires size > 0
    ensures HashAt(size)(e) == Product(e.set_, e.number) % size
  {
    assert e.number * e.set_ == e.set_ * e.number;
  }

  /** A filled table answers every request as the plain map does. */
  lemma FilledTableServes(c: Info, es: seq<Entry>)
    requires c.Valid() && Indexed(c.table, es, HashAt(c.size), c.size, c.depth) && c.strings == Pool(es)
    requires AllStorable(es) && DistinctKeys(es) && Depth(es, HashAt(c.size)) <= c.depth
    ensures Serves(c, es)
  {
    forall set_: int, message: int | -INT_MAX - 1 <= set_ <= INT_MAX && -INT_MAX - 1 <= message <= INT_MAX
      ensures var r := Answer(Some(c), set_, message);
              if (set_ + 1, message) in Contents(es)
              then r.Some? && r.value <= |c.strings| && CString(c.strings, r.value) == Contents(es)[(set_ + 1, message)]
              else r == None
    {
      ServesKey(c, es, set_, message);
    }
  }

  /** C is a written table for ES. */
  ghost predicate Written(c: Info, es: seq<Entry>, f: Hasher) {
    && c.size > 0 && Indexed(c.table, es, f, c.size, c.depth) && c.strings == Pool(es)
    && (forall e :: f(e) < c.size) && Depth(es, f) <= c.depth
    && DistinctKeys(es) && forall i | 0 <= i < |es| :: Storable(es[i])
  }
}
