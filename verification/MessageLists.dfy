/** Sorted message lists and the catalog as a map, at the level of values. */
module MessageLists {
  import opened Wrappers
  import opened CatalogTable
  import opened CatalogIndex

  ghost predicate Sorted(ms: seq<Message>) {
    forall i, j | 0 <= i < j < |ms| :: ms[i].number < ms[j].number
  }

  /** The text stored under a number. */
  ghost function Find(ms: seq<Message>, n: int): Option<seq<byte>> {
    if i :| 0 <= i < |ms| && ms[i].number == n then Some(ms[i].text) else None
  }

  function InsertAt(ms: seq<Message>, i: nat, m: Message): seq<Message>
    requires i <= |ms|
  {
    ms[..i] + [m] + ms[i..]
  }

  function RemoveAt(ms: seq<Message>, i: nat): seq<Message>
    requires i < |ms|
  {
    ms[..i] + ms[i + 1..]
  }

  lemma FindAt(ms: seq<Message>, i: nat)
    requires Sorted(ms) && i < |ms|
    ensures Find(ms, ms[i].number) == Some(ms[i].text)
  {}

  /** I is where a message numbered N belongs. */
  ghost predicate Splits(ms: seq<Message>, i: nat, n: int) {
    i <= |ms| && (forall j | 0 <= j < i :: ms[j].number < n) && (forall j | i <= j < |ms| :: n < ms[j].number)
  }

  lemma InsertKeepsOrder(ms: seq<Message>, i: nat, m: Message)
    requires Sorted(ms) && Splits(ms, i, m.number)
    ensures Sorted(InsertAt(ms, i, m))
  {
    var r := InsertAt(ms, i, m);
    forall a, b | 0 <= a < b < |r|
      ensures r[a].number < r[b].number
    {
      assert r[a] == if a < i then ms[a] else if a == i then m else ms[a - 1];
      assert r[b] == if b < i then ms[b] else if b == i then m else ms[b - 1];
    }
  }

  lemma InsertFinds(ms: seq<Message>, i: nat, m: Message, n: int)
    requires Sorted(ms) && Splits(ms, i, m.number)
    ensures Find(InsertAt(ms, i, m), n) == if n == m.number then Some(m.text) else Find(ms, n)
  {
    var r := InsertAt(ms, i, m);
    InsertKeepsOrder(ms, i, m);
    if n == m.number {
      assert r[i] == m;
      FindAt(r, i);
    } else if j :| 0 <= j < |ms| && ms[j].number == n {
      FindAt(ms, j);
      var k := if j < i then j else j + 1;
      assert r[k] == ms[j];
      FindAt(r, k);
    } else {
      forall k | 0 <= k < |r|
        ensures r[k].number != n
      {
        assert r[k] == if k < i then ms[k] else if k == i then m else ms[k - 1];
      }
    }
  }

  lemma RemoveKeepsOrder(ms: seq<Message>, i: nat)
    requires Sorted(ms) && i < |ms|
    ensures Sorted(RemoveAt(ms, i))
  {
    var r := RemoveAt(ms, i);
    forall a, b | 0 <= a < b < |r|
      ensures r[a].number < r[b].number
    {
      assert r[a] == (if a < i then ms[a] else ms[a + 1]) && r[b] == if b < i then ms[b] else ms[b + 1];
    }
  }

  lemma RemoveFinds(ms: seq<Message>, i: nat, n: int)
    requires Sorted(ms) && i < |ms|
    ensures Find(RemoveAt(ms, i), n) == if n == ms[i].number then None else Find(ms, n)
  {
    var r := RemoveAt(ms, i);
    RemoveKeepsOrder(ms, i);
    assert forall k | 0 <= k < |r| :: r[k] == if k < i then ms[k] else ms[k + 1];
    if n != ms[i].number {
      if j :| 0 <= j < |ms| && ms[j].number == n {
        FindAt(ms, j);
        var k := if j < i then j else j - 1;
        assert r[k] == ms[j];
        FindAt(r, k);
      }
    }
  }

  // ----- The catalog as a map -----

  ghost predicate WellFormed(sets: seq<MessageSet>) {
    && (forall i, j | 0 <= i < j < |sets| :: sets[i].number != sets[j].number)
    && (forall i | 0 <= i < |sets| :: Sorted(sets[i].messages))
  }

  ghost function Lookup(sets: seq<MessageSet>, key: Key): Option<seq<byte>> {
    if i :| 0 <= i < |sets| && sets[i].number == key.0 then Find(sets[i].messages, key.1) else None
  }

  lemma LookupAt(sets: seq<MessageSet>, i: nat, n: int)
    requires WellFormed(sets) && i < |sets|
    ensures Lookup(sets, (sets[i].number, n)) == Find(sets[i].messages, n)
  {}

  /** Replacing the messages of one set. */
  lemma LookupUpdated(sets: seq<MessageSet>, i: nat, s: MessageSet, key: Key)
    requires WellFormed(sets) && i < |sets| && s.number == sets[i].number && Sorted(s.messages)
    ensures WellFormed(sets[i := s])
    ensures Lookup(sets[i := s], key) == if key.0 == s.number then Find(s.messages, key.1) else Lookup(sets, key)
  {
    var r := sets[i := s];
    if key.0 == s.number {
      LookupAt(r, i, key.1);
    } else if j :| 0 <= j < |sets| && sets[j].number == key.0 {
      LookupAt(sets, j, key.1);
      LookupAt(r, j, key.1);
    }
  }

  /** A new empty set at the front changes no answer. */
  lemma LookupNewSet(sets: seq<MessageSet>, number: int, key: Key)
    requires WellFormed(sets) && forall i | 0 <= i < |sets| :: sets[i].number != number
    ensures WellFormed([MessageSet(number, [])] + sets)
    ensures Lookup([MessageSet(number, [])] + sets, key) == Lookup(sets, key)
  {
    var r := [MessageSet(number, [])] + sets;
    if key.0 == number {
      LookupAt(r, 0, key.1);
    } else if j :| 0 <= j < |sets| && sets[j].number == key.0 {
      LookupAt(sets, j, key.1);
      assert r[j + 1] == sets[j];
      LookupAt(r, j + 1, key.1);
    }
  }

  lemma {:induction false} FlatFrom(sets: seq<MessageSet>, p: nat) returns (i: nat, j: nat)
    requires p < |Flat(sets)|
    ensures i < |sets| && j < |sets[i].messages| && Flat(sets)[p] == FlatSet(sets[i])[j]
    decreases sets
  {
    var n := |sets| - 1;
    var base := Flat(sets[..n]);
    if p < |base| {
      i, j := FlatFrom(sets[..n], p);
    } else {
      i, j := n, p - |base|;
    }
  }

  lemma FlatHas(sets: seq<MessageSet>, i: nat, j: nat) returns (p: nat)
    requires i < |sets| && j < |sets[i].messages|
    ensures p < |Flat(sets)| && Flat(sets)[p] == FlatSet(sets[i])[j]
  {
    SetInFlat(sets, i);
    var n, m := |Flat(sets[..i])|, |sets[i].messages|;
    p := n + j;
    assert Flat(sets)[n..n + m][j] == Flat(sets)[p];
  }

  lemma {:induction false} WellFormedIsDistinct(sets: seq<MessageSet>)
    requires WellFormed(sets)
    ensures DistinctKeys(Flat(sets))
  {
    if sets != [] {
      var n := |sets| - 1;
      var base, last := Flat(sets[..n]), FlatSet(sets[n]);
      WellFormedIsDistinct(sets[..n]);
      forall p | 0 <= p < |base|
        ensures base[p].set_ != sets[n].number
      {
        var i, j := FlatFrom(sets[..n], p);
      }
    }
  }

  /** On well-formed lists, searching the lists is searching the flat map. */
  lemma LookupIsContents(sets: seq<MessageSet>, key: Key)
    requires WellFormed(sets)
    ensures Lookup(sets, key) == if key in Contents(Flat(sets)) then Some(Contents(Flat(sets))[key]) else None
  {
    WellFormedIsDistinct(sets);
    var es := Flat(sets);
    if key in Contents(es) {
      ContentsOnly(es, key);
      var p :| 0 <= p < |es| && (es[p].set_, es[p].number) == key;
      ContentsHas(es, p);
      var i, j := FlatFrom(sets, p);
      LookupAt(sets, i, key.1);
      FindAt(sets[i].messages, j);
    } else if i :| 0 <= i < |sets| && sets[i].number == key.0 {
      LookupAt(sets, i, key.1);
      forall j | 0 <= j < |sets[i].messages|
        ensures sets[i].messages[j].number != key.1
      {
        var p := FlatHas(sets, i, j);
        ContentsHas(es, p);
      }
    }
  }

  // ----- Merging an old catalog -----

  /** One slot of the old table. */
  datatype OldSlot = OldSlot(set_: nat, number: nat, text: seq<byte>)

  /** The answer for KEY after the slots have been read in order: an unknown message is added,
      an empty new message that meets its old version is removed, any other stays. */
  function MergeSlots(answer: Option<seq<byte>>, slots: seq<OldSlot>, key: Key): Option<seq<byte>> {
    if slots == [] then answer
    else
      var before, s := MergeSlots(answer, slots[..|slots| - 1], key), slots[|slots| - 1];
      if s.set_ == 0 || (s.set_, s.number) != key then before
      else if before.None? then Some(s.text)
      else if before.value == [] then None
      else before
  }

  /** The map an old table stands for. */
  function OldMap(slots: seq<OldSlot>): map<Key, seq<byte>> {
    if slots == [] then map[]
    else
      var rest, s := OldMap(slots[..|slots| - 1]), slots[|slots| - 1];
      if s.set_ == 0 then rest else rest[(s.set_, s.number) := s.text]
  }

  /** New overrides old; a new empty message deletes the old one and itself. */
  function Override(new_: map<Key, seq<byte>>, old_: map<Key, seq<byte>>, key: Key): Option<seq<byte>> {
    if key in new_ then (if key in old_ && new_[key] == [] then None else Some(new_[key]))
    else if key in old_ then Some(old_[key])
    else None
  }

  ghost predicate DistinctSlots(slots: seq<OldSlot>) {
    forall i, j | 0 <= i < j < |slots| :: slots[i].set_ == 0 || slots[i].set_ != slots[j].set_ || slots[i].number != slots[j].number
  }

  lemma {:induction false} OldMapFrom(slots: seq<OldSlot>, key: Key)
    requires key in OldMap(slots)
    ensures exists i | 0 <= i < |slots| :: slots[i].set_ != 0 && (slots[i].set_, slots[i].number) == key
  {
    var n := |slots| - 1;
    if key in OldMap(slots[..n]) {
      OldMapFrom(slots[..n], key);
      var i :| 0 <= i < n && slots[..n][i].set_ != 0 && (slots[..n][i].set_, slots[..n][i].number) == key;
      assert slots[i] == slots[..n][i];
    }
  }

  /** For a table with distinct keys, the merge is the override of the old map by the new one. */
  lemma {:induction false} MergeIsOverride(new_: map<Key, seq<byte>>, slots: seq<OldSlot>, key: Key)
    requires DistinctSlots(slots)
    ensures MergeSlots(if key in new_ then Some(new_[key]) else None, slots, key) == Override(new_, OldMap(slots), key)
  {
    if slots != [] {
      var n := |slots| - 1;
      MergeIsOverride(new_, slots[..n], key);
      if slots[n].set_ != 0 && (slots[n].set_, slots[n].number) == key && key in OldMap(slots[..n]) {
        OldMapFrom(slots[..n], key);
      }
    }
  }

  /** What one old message does to the answer for its key. */
  function MergeText(answer: Option<seq<byte>>, text: seq<byte>): Option<seq<byte>> {
    if answer.None? then Some(text) else if answer.value == [] then None else answer
  }

  predicate IsFor(s: OldSlot, key: Key) { s.set_ != 0 && (s.set_, s.number) == key }

  /** The slot of a key decides, and without one nothing changes. */
  lemma {:induction false} MergeOnce(answer: Option<seq<byte>>, slots: seq<OldSlot>, key: Key)
    requires DistinctSlots(slots)
    ensures (forall i | 0 <= i < |slots| :: !IsFor(slots[i], key)) ==> MergeSlots(answer, slots, key) == answer
    ensures forall i | 0 <= i < |slots| && IsFor(slots[i], key) :: MergeSlots(answer, slots, key) == MergeText(answer, slots[i].text)
  {
    if slots != [] {
      var n := |slots| - 1;
      MergeOnce(answer, slots[..n], key);
      assert forall i | 0 <= i < n :: slots[i] == slots[..n][i];
    }
  }

  /** Slots with distinct keys may be read in any order. */
  lemma AnyOrder(answer: Option<seq<byte>>, slots: seq<OldSlot>, slots': seq<OldSlot>, key: Key)
    requires DistinctSlots(slots) && DistinctSlots(slots') && multiset(slots) == multiset(slots')
    ensures MergeSlots(answer, slots, key) == MergeSlots(answer, slots', key)
  {
    MergeOnce(answer, slots, key);
    MergeOnce(answer, slots', key);
    if i :| 0 <= i < |slots| && IsFor(slots[i], key) {
      assert slots[i] in multiset(slots);
      assert slots[i] in slots';
    } else {
      forall j | 0 <= j < |slots'|
        ensures !IsFor(slots'[j], key)
      {
        assert slots'[j] in multiset(slots');
        assert slots'[j] in slots;
      }
    }
  }
}
