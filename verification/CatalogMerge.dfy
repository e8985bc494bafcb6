/** Reading a written table back: the slots stand for exactly the map that was written. */
module CatalogMerge {
  import opened Wrappers
  import opened CatalogTable
  import opened CatalogIndex
  import opened CatalogFile
  import opened MessageLists
  import opened CatalogSets

  lemma {:induction false} BucketIncreases(es: seq<Entry>, f: Hasher, h: nat)
    ensures forall i, j | 0 <= i < j < |Bucket(es, f, h)| :: Bucket(es, f, h)[i] < Bucket(es, f, h)[j]
  {
    if es != [] {
      BucketIncreases(es[..|es| - 1], f, h);
    }
  }

  /** The entry stored in slot I, if any. */
  ghost function EntryAt(c: Info, es: seq<Entry>, f: Hasher, i: nat): Option<nat>
    requires c.size > 0
  {
    BucketAt(es, f, i % c.size, i / c.size)
  }

  ghost function BucketAt(es: seq<Entry>, f: Hasher, h: nat, k: nat): Option<nat> {
    var b := Bucket(es, f, h);
    if k < |b| then Some(b[k]) else None
  }

  /** Cell group I of a written table, at depth K of plane position H. */
  ghost predicate Stored(t: seq<u32>, es: seq<Entry>, b: seq<nat>, k: nat, i: nat) {
    && 3 * i + 2 < |t|
    && if k < |b| then b[k] < |es| && t[3 * i] == es[b[k]].set_ > 0 && t[3 * i + 1] == es[b[k]].number && t[3 * i + 2] == Offset(es, b[k])
       else t[3 * i] == 0
  }

  lemma CellHolds(t: seq<u32>, es: seq<Entry>, f: Hasher, size: nat, h: nat, k: nat, i: nat)
    requires CellOk(t, es, f, size, h, k) && Slot(h, k, size) == i && forall j | 0 <= j < |es| :: Storable(es[j])
    ensures Stored(t, es, Bucket(es, f, h), k, i)
  {
    if k < |Bucket(es, f, h)| {
      assert Storable(es[Bucket(es, f, h)[k]]);
    }
  }

  lemma SlotHolds(c: Info, es: seq<Entry>, f: Hasher, i: nat)
    requires Written(c, es, f) && i < Cells(c.size, c.depth)
    ensures 3 * i + 2 < |c.table|
    ensures var e := EntryAt(c, es, f, i);
            if e.None? then c.table[3 * i] == 0
            else e.value < |es| && c.table[3 * i] == es[e.value].set_ > 0 && c.table[3 * i + 1] == es[e.value].number
                 && c.table[3 * i + 2] == Offset(es, e.value)
  {
    SlotOf(i, c.size, c.depth);
    SlotHoldsAt(c.table, es, f, c.size, c.depth, i, i % c.size, i / c.size, EntryAt(c, es, f, i));
  }

  lemma SlotHoldsAt(t: seq<u32>, es: seq<Entry>, f: Hasher, size: nat, depth: nat, i: nat, h: nat, k: nat, e: Option<nat>)
    requires Indexed(t, es, f, size, depth) && h < size && k < depth && Slot(h, k, size) == i
    requires forall j | 0 <= j < |es| :: Storable(es[j])
    requires var b := Bucket(es, f, h); e == if k < |b| then Some(b[k]) else None
    ensures 3 * i + 2 < |t|
    ensures if e.None? then t[3 * i] == 0
            else e.value < |es| && t[3 * i] == es[e.value].set_ > 0 && t[3 * i + 1] == es[e.value].number
                 && t[3 * i + 2] == Offset(es, e.value)
  {
    SlotStored(t, es, f, size, depth, h, k, i);
    StoredEntry(t, es, Bucket(es, f, h), k, i, e);
  }

  lemma SlotStored(t: seq<u32>, es: seq<Entry>, f: Hasher, size: nat, depth: nat, h: nat, k: nat, i: nat)
    requires Indexed(t, es, f, size, depth) && h < size && k < depth && Slot(h, k, size) == i
    requires forall j | 0 <= j < |es| :: Storable(es[j])
    ensures Stored(t, es, Bucket(es, f, h), k, i)
  {
    CellHolds(t, es, f, size, h, k, i);
  }

  lemma StoredEntry(t: seq<u32>, es: seq<Entry>, b: seq<nat>, k: nat, i: nat, e: Option<nat>)
    requires Stored(t, es, b, k, i) && e == if k < |b| then Some(b[k]) else None
    ensures if e.None? then t[3 * i] == 0
            else e.value < |es| && t[3 * i] == es[e.value].set_ > 0 && t[3 * i + 1] == es[e.value].number
                 && t[3 * i + 2] == Offset(es, e.value)
  {}

  lemma WrittenIsReadable(c: Info, es: seq<Entry>, f: Hasher)
    requires Written(c, es, f)
    ensures Readable(c)
  {
    forall i: nat | i < Cells(c.size, c.depth) && c.table[3 * i] != 0
      ensures c.table[3 * i + 2] <= |c.strings|
    {
      SlotHolds(c, es, f, i);
      var j := EntryAt(c, es, f, i).value;
      assert Storable(es[j]);
      PooledString(es, j);
    }
  }

  lemma SlotText(c: Info, es: seq<Entry>, f: Hasher, i: nat)
    requires Written(c, es, f) && Readable(c) && i < Cells(c.size, c.depth)
    ensures var e := EntryAt(c, es, f, i);
            if e.None? then SlotAt(c, i).set_ == 0
            else e.value < |es| && es[e.value].set_ > 0 && es[e.value].number >= 0 &&
                 SlotAt(c, i) == OldSlot(es[e.value].set_, es[e.value].number, es[e.value].text)
  {
    SlotHolds(c, es, f, i);
    var e := EntryAt(c, es, f, i);
    if e.Some? {
      assert Storable(es[e.value]);
      PooledString(es, e.value);
    }
  }

  lemma BucketsInjective(es: seq<Entry>, f: Hasher, h: nat, k: nat, h': nat, k': nat)
    requires k < |Bucket(es, f, h)| && k' < |Bucket(es, f, h')| && Bucket(es, f, h)[k] == Bucket(es, f, h')[k']
    ensures h == h' && k == k'
  {
    assert h == f(es[Bucket(es, f, h)[k]]) == h';
    BucketIncreases(es, f, h);
  }

  /** Different slots hold different entries. */
  lemma EntryAtInjective(c: Info, es: seq<Entry>, f: Hasher, i: nat, j: nat)
    requires c.size > 0 && EntryAt(c, es, f, i).Some? && EntryAt(c, es, f, i) == EntryAt(c, es, f, j)
    ensures i == j
  {
    EntryPlaces(es, f, i % c.size, i / c.size, j % c.size, j / c.size);
    SameSlot(i, j, c.size);
  }

  lemma EntryPlaces(es: seq<Entry>, f: Hasher, h: nat, k: nat, h': nat, k': nat)
    requires BucketAt(es, f, h, k).Some? && BucketAt(es, f, h, k) == BucketAt(es, f, h', k')
    ensures h == h' && k == k'
  {
    BucketsInjective(es, f, h, k, h', k');
  }

  lemma SameSlot(i: nat, j: nat, size: nat)
    requires size > 0 && i % size == j % size && i / size == j / size
    ensures i == j
  {
    assert i == i / size * size + i % size;
    assert j == j / size * size + j % size;
  }

  lemma WrittenSlotsDistinct(c: Info, es: seq<Entry>, f: Hasher)
    requires Written(c, es, f) && Readable(c)
    ensures DistinctSlots(Slots(c, Cells(c.size, c.depth)))
  {
    var slots := Slots(c, Cells(c.size, c.depth));
    forall i, j | 0 <= i < j < |slots| && slots[i].set_ != 0
      ensures slots[i].set_ != slots[j].set_ || slots[i].number != slots[j].number
    {
      SlotText(c, es, f, i);
      SlotText(c, es, f, j);
      var a, b := EntryAt(c, es, f, i), EntryAt(c, es, f, j);
      if b.Some? && a == b {
        EntryAtInjective(c, es, f, i, j);
      }
    }
  }

  /** Every entry sits in some slot. */
  lemma EntryHasSlot(c: Info, es: seq<Entry>, f: Hasher, j: nat) returns (i: nat)
    requires Written(c, es, f) && j < |es|
    ensures i < Cells(c.size, c.depth) && EntryAt(c, es, f, i) == Some(j)
  {
    var h := f(es[j]);
    InItsBucket(es, f, j);
    var k :| 0 <= k < |Bucket(es, f, h)| && Bucket(es, f, h)[k] == j;
    DepthIsMaximum(es, f);
    SlotBound(h, k, c.size, c.depth);
    i := Slot(h, k, c.size);
    SlotParts(h, k, c.size);
  }

  lemma SlotParts(h: nat, k: nat, size: nat)
    requires h < size
    ensures Slot(h, k, size) % size == h && Slot(h, k, size) / size == k
  {
    Times(k, k + 1, size);
    SlotOf(Slot(h, k, size), size, k + 1);
    SlotInjective(h, k, Slot(h, k, size) % size, Slot(h, k, size) / size, size);
  }

  lemma {:induction false} OldMapHas(slots: seq<OldSlot>, i: nat)
    requires i < |slots| && slots[i].set_ != 0 && DistinctSlots(slots)
    ensures var key := (slots[i].set_, slots[i].number);
            key in OldMap(slots) && OldMap(slots)[key] == slots[i].text
  {
    var n := |slots| - 1;
    if i < n {
      OldMapHas(slots[..n], i);
    }
  }

  /** A written table, read back as an old catalog, stands for the map that was written. */
  lemma WrittenOldMap(c: Info, es: seq<Entry>, f: Hasher)
    requires Written(c, es, f) && Readable(c)
    ensures OldMap(Slots(c, Cells(c.size, c.depth))) == Contents(es)
  {
    var slots := Slots(c, Cells(c.size, c.depth));
    WrittenSlotsDistinct(c, es, f);
    forall key | key in OldMap(slots)
      ensures key in Contents(es) && Contents(es)[key] == OldMap(slots)[key]
    {
      OldMapFrom(slots, key);
      var i :| 0 <= i < |slots| && slots[i].set_ != 0 && (slots[i].set_, slots[i].number) == key;
      OldMapHas(slots, i);
      SlotText(c, es, f, i);
      ContentsHas(es, EntryAt(c, es, f, i).value);
    }
    forall key | key in Contents(es)
      ensures key in OldMap(slots)
    {
      ContentsOnly(es, key);
      var j :| 0 <= j < |es| && (es[j].set_, es[j].number) == key;
      var i := EntryHasSlot(c, es, f, j);
      SlotText(c, es, f, i);
      OldMapHas(slots, i);
    }
  }

  /** Merging a written catalog into any catalog: new overrides old, a new empty message
      deletes; merging into an empty catalog restores the written map. */
  lemma MergeOfWritten(sets: seq<MessageSet>, c: Info, es: seq<Entry>, f: Hasher, key: Key)
    requires WellFormed(sets) && Written(c, es, f) && Readable(c)
    ensures var merged := MergeSlots(Lookup(sets, key), Slots(c, Cells(c.size, c.depth)), key);
            && merged == Override(Contents(Flat(sets)), Contents(es), key)
            && (sets == [] ==> merged == if key in Contents(es) then Some(Contents(es)[key]) else None)
  {
    LookupIsContents(sets, key);
    WrittenSlotsDistinct(c, es, f);
    WrittenOldMap(c, es, f);
    MergeIsOverride(Contents(Flat(sets)), Slots(c, Cells(c.size, c.depth)), key);
  }

  /** What becomes of a message: a new text wins, an empty new text deletes an old one, and old
      messages without a new text stay. */
  predicate MergedKey(answer: Option<seq<byte>>, new_: map<Key, seq<byte>>, old_: map<Key, seq<byte>>, key: Key) {
    && (key in new_ && new_[key] != [] ==> answer == Some(new_[key]))
    && (key in new_ && new_[key] == [] && key in old_ ==> answer == None)
    && (key in new_ && new_[key] == [] && key !in old_ ==> answer == Some([]))
    && (key !in new_ && key in old_ ==> answer == Some(old_[key]))
    && (key !in new_ && key !in old_ ==> answer == None)
  }

  ghost predicate MergedAs(sets: seq<MessageSet>, new_: map<Key, seq<byte>>, old_: map<Key, seq<byte>>) {
    forall key :: MergedKey(Lookup(sets, key), new_, old_, key)
  }

  /** `gencat` on the output of `gencat`: the catalog SETS is written on a machine of order W and
      merged into TARGET on a machine of order R.  A catalog without messages does not open. */
  method MergeOutput(target: Catalog, sets: seq<MessageSet>, totalMessages: nat, w: Order, r: Order) returns (isOpen: bool)
    requires target.Valid() && WellFormed(sets) && AllStorable(Flat(sets)) && Usable(Flat(sets), StartSize(totalMessages))
    modifies target, target.allSets
    ensures target.Valid() && (isOpen <==> Flat(sets) != [])
    ensures MergedAs(target.View(), Contents(Flat(old(target.View()))), Contents(Flat(sets)))
  {
    ghost var es, before := Flat(sets), target.View();
    WellFormedIsDistinct(sets);
    var file := WriteOut(sets, totalMessages, w);
    var outcome := OpenCatalog(file, r);
    isOpen := outcome.Opened?;
    if isOpen {
      ghost var f := HashAt(outcome.info.size);
      WrittenIsReadable(outcome.info, es, f);
      target.ReadOld(outcome.info);
      forall key
        ensures MergedKey(Lookup(target.View(), key), Contents(Flat(before)), Contents(es), key)
      {
        MergeOfWritten(before, outcome.info, es, f, key);
      }
    } else {
      forall key
        ensures MergedKey(Lookup(before, key), Contents(Flat(before)), Contents(es), key)
      {
        LookupIsContents(before, key);
      }
    }
  }

  /** Writing a catalog and reading it into an empty one restores every answer. */
  method Reread(sets: seq<MessageSet>, totalMessages: nat, w: Order, r: Order) returns (c: Catalog)
    requires WellFormed(sets) && AllStorable(Flat(sets)) && Usable(Flat(sets), StartSize(totalMessages))
    ensures fresh(c) && c.Valid() && forall key :: Lookup(c.View(), key) == Lookup(sets, key)
  {
    c := new Catalog();
    var isOpen := MergeOutput(c, sets, totalMessages, w, r);
    forall key
      ensures Lookup(c.View(), key) == Lookup(sets, key)
    {
      LookupIsContents(sets, key);
      assert Contents(Flat([])) == map[];
    }
  }
}
