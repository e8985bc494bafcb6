/** The set lists of `gencat`: `find_set` and the merge of an existing catalog by `read_old`. */
module CatalogSets {
  import opened Wrappers
  import opened CatalogTable
  import opened CatalogIndex
  import opened MessageLists
  import opened MessageNumbering
  import opened NumberingLaws

  class SetList {
    const number: int
    var messages: seq<Message>
    var lastMessage: int

    constructor (number: int)
      ensures this.number == number && messages == [] && lastMessage == 0 && Valid()
    {
      this.number := number;
      messages := [];
      lastMessage := 0;
    }

    ghost function State(): Numbering
      reads this
    {
      Numbering(SetOf(messages), lastMessage)
    }

    ghost predicate Valid()
      reads this
    {
      ListConsistent(messages, lastMessage)
    }

    method IndexOf(n: int) returns (i: nat)
      ensures i <= |messages| && (forall j | 0 <= j < i :: messages[j].number != n)
      ensures i < |messages| ==> messages[i].number == n
    {
      i := 0;
      while i < |messages|
        invariant 0 <= i <= |messages| && forall j | 0 <= j < i :: messages[j].number != n
      {
        if messages[i].number == n {
          break;
        }
        i := i + 1;
      }
    }

    /** A symbolic message in the way of a user's number gets the next number and goes last. */
    method Evict(i: nat)
      requires Valid() && i < |messages| && messages[i].symbol.Some?
      modifies this
      ensures Valid() && State() == Clear(old(State()), old(messages)[i].number)
    {
      Evicted(messages, lastMessage, i);
      lastMessage := lastMessage + 1;
      var m := Message(lastMessage, messages[i].symbol, messages[i].text);
      if i + 1 < |messages| {
        messages := messages[..i] + messages[i + 1..] + [m];
      } else {
        messages := messages[..i] + [m];
      }
      assert messages == RemoveAt(old(messages), i) + [m];
    }

    /** The place before the first message with a higher number. */
    method FindHigher(n: int) returns (i: nat)
      requires Sorted(messages) && forall x | x in messages :: x.number != n
      ensures Splits(messages, i, n)
    {
      i := 0;
      if messages != [] && messages[0].number <= n {
        i := 1;
        while i < |messages|
          invariant 1 <= i <= |messages| && forall j | 0 <= j < i :: messages[j].number < n
        {
          if messages[i].number > n {
            break;
          }
          i := i + 1;
        }
      }
    }

    method Insert(m: Message)
      requires Valid() && 1 <= m.number <= lastMessage
      requires forall x | x in messages :: x.number != m.number && (m.symbol.Some? ==> x.symbol != m.symbol)
      modifies this`messages
      ensures Valid() && SetOf(messages) == old(SetOf(messages)) + {m}
    {
      var i := FindHigher(m.number);
      Inserted(messages, lastMessage, i, m);
      messages := InsertAt(messages, i, m);
    }

    /** A line that starts with a number. */
    method AddNumbered(n: nat, text: Option<seq<byte>>)
      requires Valid()
      modifies this
      ensures Valid() && State() == Step(old(State()), Numbered(n, text))
    {
      ghost var s := State();
      var i := IndexOf(n);
      if i < |messages| {
        assert messages[i] in s.messages;
        if messages[i].symbol.None? {
          return;
        }
        Evict(i);
      } else {
        NothingInTheWay(messages, lastMessage, n);
      }
      if n == 0 {
        return;
      }
      NumberFree(s, n);
      Place(n, text);
    }

    /** A message under a number that is free. */
    method Place(n: nat, text: Option<seq<byte>>)
      requires Valid() && 1 <= n && forall x | x in messages :: x.number != n
      modifies this
      ensures Valid()
      ensures State() == Numbering(old(State()).messages + Added(text, n, None), if n > old(lastMessage) then n else old(lastMessage))
    {
      if n > lastMessage {
        lastMessage := n;
      }
      if text.Some? {
        Insert(Message(n, None, text.value));
      }
    }

    method HasSymbol(sym: string) returns (found: bool)
      ensures found <==> exists m | m in SetOf(messages) :: m.symbol == Some(sym)
    {
      var i := 0;
      while i < |messages|
        invariant 0 <= i <= |messages| && forall j | 0 <= j < i :: messages[j].symbol != Some(sym)
      {
        if messages[i].symbol == Some(sym) {
          assert messages[i] in SetOf(messages);
          return true;
        }
        i := i + 1;
      }
      found := false;
    }

    /** A line that starts with an identifier. */
    method AddSymbolic(sym: string, text: Option<seq<byte>>)
      requires Valid()
      modifies this
      ensures Valid() && State() == Step(old(State()), Symbolic(sym, text))
    {
      var known := HasSymbol(sym);
      if known {
        return;
      }
      SymbolFree(messages, lastMessage, sym);
      lastMessage := lastMessage + 1;
      if text.Some? {
        Insert(Message(lastMessage, Some(sym), text.value));
      }
    }

    method AddLine(line: Line)
      requires Valid()
      modifies this
      ensures Valid() && State() == Step(old(State()), line)
    {
      match line
      case Numbered(n, text) => AddNumbered(n, text);
      case Symbolic(sym, text) => AddSymbolic(sym, text);
    }

    /** The lines of one set, in order: the list stays strictly increasing throughout and ends as
        the run of the lines. */
    method AddLines(lines: seq<Line>)
      requires Valid() && State() == Run([])
      modifies this
      ensures Valid() && State() == Run(lines) && FirstTexts(SetOf(messages), lines)
    {
      var i := 0;
      while i < |lines|
        invariant 0 <= i <= |lines| && Valid() && State() == Run(lines[..i])
      {
        RunNext(lines, i);
        AddLine(lines[i]);
        i := i + 1;
      }
      assert lines[..i] == lines;
      RunHoldsFirstTexts(lines);
    }

    /** The place of a message number in the sorted list. */
    method FindPlace(n: int) returns (i: nat)
      requires Sorted(messages)
      ensures i <= |messages| && (forall j | 0 <= j < i :: messages[j].number < n) && (i < |messages| ==> n <= messages[i].number)
    {
      i := 0;
      while i < |messages|
        invariant 0 <= i <= |messages| && forall j | 0 <= j < i :: messages[j].number < n
      {
        if messages[i].number >= n {
          break;
        }
        i := i + 1;
      }
    }

    /** Insert a message that is not there yet, drop an empty one that meets its old version. */
    method Apply(slot: OldSlot) returns (i: nat, added: bool)
      requires Sorted(messages)
      modifies this`messages
      ensures SlotApplied(old(messages), i, slot, messages) && (added <==> Find(old(messages), slot.number).None?)
    {
      i := FindPlace(slot.number);
      added := i == |messages| || messages[i].number > slot.number;
      if added {
        messages := InsertAt(messages, i, Message(slot.number, None, slot.text));
      } else if messages[i].text == [] {
        messages := RemoveAt(messages, i);
      }
    }
  }

  lemma RunNext(lines: seq<Line>, i: nat)
    requires i < |lines|
    ensures Run(lines[..i + 1]) == Step(Run(lines[..i]), lines[i])
  {
    assert lines[..i + 1][..i] == lines[..i];
  }

  lemma Inserted(ms: seq<Message>, last: int, i: nat, m: Message)
    requires ListConsistent(ms, last) && Splits(ms, i, m.number) && 1 <= m.number <= last
    requires forall x | x in ms :: x.number != m.number && (m.symbol.Some? ==> x.symbol != m.symbol)
    ensures ListConsistent(InsertAt(ms, i, m), last) && SetOf(InsertAt(ms, i, m)) == SetOf(ms) + {m}
  {
    AddConsistent(Numbering(SetOf(ms), last), m, last);
    InsertKeepsOrder(ms, i, m);
    SetOfInsert(ms, i, m);
  }

  /** A new symbol may get the number after the last. */
  lemma SymbolFree(ms: seq<Message>, last: int, sym: string)
    requires ListConsistent(ms, last) && !exists m | m in SetOf(ms) :: m.symbol == Some(sym)
    ensures ListConsistent(ms, last + 1) && forall x | x in ms :: x.number != last + 1 && x.symbol != Some(sym)
  {
    forall x | x in ms
      ensures x.number != last + 1 && x.symbol != Some(sym)
    {
      assert x in SetOf(ms);
    }
  }

  lemma NothingInTheWay(ms: seq<Message>, last: int, n: int)
    requires forall j | 0 <= j < |ms| :: ms[j].number != n
    ensures Clear(Numbering(SetOf(ms), last), n) == Numbering(SetOf(ms), last)
  {
    assert InTheWay(SetOf(ms), n) == {};
  }

  lemma NumberFree(s: Numbering, n: int)
    requires Consistent(s) && 1 <= n && forall m | m in s.messages :: m.number != n || m.symbol.Some?
    ensures forall x | x in Clear(s, n).messages :: x.number != n
  {
    ClearConsistent(s, n);
  }

  /** Every occupied slot of a loaded table has its string inside the string area. */
  ghost predicate Readable(c: Info) {
    && |c.table| == 3 * Cells(c.size, c.depth)
    && forall i: nat | i < Cells(c.size, c.depth) && c.table[3 * i] != 0 :: c.table[3 * i + 2] <= |c.strings|
  }

  function SlotAt(c: Info, i: nat): OldSlot
    requires Readable(c) && i < Cells(c.size, c.depth)
  {
    if c.table[3 * i] == 0 then OldSlot(0, 0, [])
    else OldSlot(c.table[3 * i], c.table[3 * i + 1], CString(c.strings, c.table[3 * i + 2]))
  }

  /** The first N slots of a loaded table. */
  function Slots(c: Info, n: nat): (slots: seq<OldSlot>)
    requires Readable(c) && n <= Cells(c.size, c.depth)
    ensures |slots| == n && forall i | 0 <= i < n :: slots[i] == SlotAt(c, i)
  {
    seq(n, i requires 0 <= i < n => SlotAt(c, i))
  }

  lemma MergeNext(answer: Option<seq<byte>>, slots: seq<OldSlot>, slot: OldSlot, key: Key)
    ensures MergeSlots(answer, slots + [slot], key) == MergeSlots(MergeSlots(answer, slots, key), [slot], key)
  {
    assert (slots + [slot])[..|slots|] == slots;
    var mid := MergeSlots(answer, slots, key);
    assert [slot][..0] == [];
    assert MergeSlots(mid, [slot][..0], key) == mid;
  }

  /** What one slot does to the list of its set. */
  ghost predicate SlotApplied(ms: seq<Message>, i: nat, slot: OldSlot, ms': seq<Message>) {
    && Sorted(ms) && i <= |ms| && (forall j | 0 <= j < i :: ms[j].number < slot.number)
    && (i < |ms| ==> slot.number <= ms[i].number)
    && ms' == if i == |ms| || ms[i].number > slot.number then InsertAt(ms, i, Message(slot.number, None, slot.text))
              else if ms[i].text == [] then RemoveAt(ms, i)
              else ms
  }

  lemma SlotFinds(ms: seq<Message>, i: nat, slot: OldSlot, ms': seq<Message>, n: int)
    requires SlotApplied(ms, i, slot, ms')
    ensures Sorted(ms')
    ensures Find(ms', n) == if n != slot.number then Find(ms, n)
                            else if Find(ms, n).None? then Some(slot.text)
                            else if Find(ms, n).value == [] then None
                            else Find(ms, n)
  {
    if i == |ms| || ms[i].number > slot.number {
      var m := Message(slot.number, None, slot.text);
      InsertKeepsOrder(ms, i, m);
      InsertFinds(ms, i, m, n);
    } else {
      FindAt(ms, i);
      RemoveKeepsOrder(ms, i);
      RemoveFinds(ms, i, n);
    }
  }

  lemma MergedOne(before: seq<MessageSet>, k: nat, slot: OldSlot, i: nat, ms': seq<Message>, key: Key)
    requires WellFormed(before) && k < |before| && before[k].number == slot.set_ != 0
    requires SlotApplied(before[k].messages, i, slot, ms')
    ensures var after := before[k := MessageSet(slot.set_, ms')];
            WellFormed(after) && Lookup(after, key) == MergeSlots(Lookup(before, key), [slot], key)
  {
    var answer := Lookup(before, key);
    SlotFinds(before[k].messages, i, slot, ms', key.1);
    LookupUpdated(before, k, MessageSet(slot.set_, ms'), key);
    if key.0 == slot.set_ {
      LookupAt(before, k, key.1);
    }
    assert [slot][..0] == [];
    assert MergeSlots(answer, [slot][..0], key) == answer;
  }

  lemma MergedAll(before: seq<MessageSet>, k: nat, slot: OldSlot, i: nat, ms': seq<Message>)
    requires WellFormed(before) && k < |before| && before[k].number == slot.set_ != 0
    requires SlotApplied(before[k].messages, i, slot, ms')
    ensures var after := before[k := MessageSet(slot.set_, ms')];
            WellFormed(after) && Merged(before, after, [slot])
  {
    var after := before[k := MessageSet(slot.set_, ms')];
    MergedOne(before, k, slot, i, ms', (0, 0));
    forall key
      ensures Lookup(after, key) == MergeSlots(Lookup(before, key), [slot], key)
    {
      MergedOne(before, k, slot, i, ms', key);
    }
  }

  lemma NewSetChangesNothing(sets: seq<MessageSet>, number: int)
    requires WellFormed(sets) && forall i | 0 <= i < |sets| :: sets[i].number != number
    ensures var r := [MessageSet(number, [])] + sets; WellFormed(r) && forall key :: Lookup(r, key) == Lookup(sets, key)
  {
    var r := [MessageSet(number, [])] + sets;
    LookupNewSet(sets, number, (0, 0));
    forall key
      ensures Lookup(r, key) == Lookup(sets, key)
    {
      LookupNewSet(sets, number, key);
    }
  }

  ghost function ViewOf(sets: seq<SetList>): (v: seq<MessageSet>)
    reads sets
    ensures |v| == |sets|
    ensures forall i | 0 <= i < |v| :: v[i] == MessageSet(sets[i].number, sets[i].messages)
  {
    seq(|sets|, i requires 0 <= i < |sets| reads sets => MessageSet(sets[i].number, sets[i].messages))
  }

  class Catalog {
    var allSets: seq<SetList>
    var totalMessages: nat

    constructor ()
      ensures Valid() && allSets == [] && totalMessages == 0
    {
      allSets, totalMessages := [], 0;
    }

    ghost predicate Valid()
      reads `allSets, allSets
    {
      WellFormed(View())
    }

    ghost function View(): seq<MessageSet>
      reads `allSets, allSets
    {
      ViewOf(allSets)
    }

    /** The set with the given number (incremented, so that 0 can mark a free slot), created
        at the front of the list when it does not exist yet. */
    method FindSet(number: int) returns (s: SetList)
      requires Valid()
      modifies `allSets
      ensures Valid() && s in allSets && s.number == number + 1
      ensures (s in old(allSets) && allSets == old(allSets)) || (fresh(s) && allSets == [s] + old(allSets))
      ensures SameLookups(old(View()), View())
    {
      var i := 0;
      while i < |allSets|
        invariant 0 <= i <= |allSets| && forall j | 0 <= j < i :: allSets[j].number != number + 1
      {
        if allSets[i].number == number + 1 {
          return allSets[i];
        }
        i := i + 1;
      }
      ghost var before := View();
      s := new SetList(number + 1);
      allSets := [s] + allSets;
      assert View() == [MessageSet(number + 1, [])] + before;
      NewSetChangesNothing(before, number + 1);
    }

    /** One occupied slot of the old catalog. */
    method MergeSlot(s: SetList, slot: OldSlot) returns (added: bool)
      requires Valid() && s in allSets && s.number == slot.set_ != 0
      modifies s`messages
      ensures Valid() && (added <==> Lookup(old(View()), (slot.set_, slot.number)).None?)
      ensures Merged(old(View()), View(), [slot])
    {
      ghost var before := View();
      ghost var k :| 0 <= k < |allSets| && allSets[k] == s;
      LookupAt(before, k, slot.number);
      var i;
      i, added := s.Apply(slot);
      MergedAll(before, k, slot, i, s.messages);
      assert View() == before[k := MessageSet(slot.set_, s.messages)];
    }

    /** The set of a slot; LASTSET remembers the one before. */
    method SetFor(slot: OldSlot, s: SetList?, lastSet: int) returns (s': SetList, lastSet': int)
      requires Valid() && slot.set_ > 0 && (lastSet >= 0 ==> s != null && s in allSets && s.number == lastSet + 1)
      modifies `allSets
      ensures Valid() && s' in allSets && s'.number == slot.set_ == lastSet' + 1
      ensures (s' in old(allSets) && allSets == old(allSets)) || (fresh(s') && allSets == [s'] + old(allSets))
      ensures SameLookups(old(View()), View())
    {
      if slot.set_ - 1 != lastSet {
        lastSet' := slot.set_ - 1;
        s' := FindSet(slot.set_ - 1);
      } else {
        s', lastSet' := s, lastSet;
      }
    }

    /** What `read_old` knows after the slots SLOTS: S is the set of the last one. */
    ghost predicate ReadSoFar(start: seq<MessageSet>, total: nat, slots: seq<OldSlot>, s: SetList?, lastSet: int)
      reads this, allSets, s
    {
      && Valid() && Merged(start, View(), slots) && totalMessages == total + Additions(start, slots)
      && (lastSet >= 0 ==> s != null && s in allSets && s.number == lastSet + 1)
    }

    /** One occupied slot of the old catalog; MINE are the sets that may change. */
    method ReadMessage(slot: OldSlot, s: SetList?, lastSet: int, ghost mine: set<SetList>) returns (s': SetList, lastSet': int)
      requires Valid() && slot.set_ > 0 && (lastSet >= 0 ==> s != null && s in allSets && s.number == lastSet + 1)
      requires forall x | x in allSets :: x in mine
      modifies this, mine
      ensures Valid() && Merged(old(View()), View(), [slot]) && totalMessages == old(totalMessages) + NewSlot(old(View()), slot)
      ensures s' in allSets && s'.number == lastSet' + 1 && forall x | x in allSets :: x in mine || fresh(x)
    {
      ghost var before := View();
      s', lastSet' := SetFor(slot, s, lastSet);
      ghost var mid := View();
      var added := MergeSlot(s', slot);
      SameAnswers(before, mid, View(), slot);
      totalMessages := totalMessages + if added then 1 else 0;
    }

    method ReadSlot(slot: OldSlot, s: SetList?, lastSet: int, ghost start: seq<MessageSet>, ghost total: nat, ghost slots: seq<OldSlot>,
                    ghost mine: set<SetList>)
      returns (s': SetList?, lastSet': int)
      requires slot.set_ >= 0 && ReadSoFar(start, total, slots, s, lastSet) && forall x | x in allSets :: x in mine
      modifies this, mine
      ensures ReadSoFar(start, total, slots + [slot], s', lastSet') && forall x | x in allSets :: x in mine || fresh(x)
    {
      ghost var before := View();
      s', lastSet' := s, lastSet;
      if slot.set_ != 0 {
        s', lastSet' := ReadMessage(slot, s, lastSet, mine);
      }
      SlotRead(start, before, View(), slots, slot);
    }

    /** `read_old`: every answer is what reading the slots in order makes of the old answer, and
        the messages inserted are counted. */
    method ReadOld(c: Info)
      requires Valid() && Readable(c)
      modifies this, allSets
      ensures Valid() && totalMessages == old(totalMessages) + Additions(old(View()), Slots(c, Cells(c.size, c.depth)))
      ensures forall key :: Lookup(View(), key) == MergeSlots(Lookup(old(View()), key), Slots(c, Cells(c.size, c.depth)), key)
    {
      ghost var start, total := View(), totalMessages;
      var s: SetList? := null;
      var lastSet := -1;
      var cnt := 0;
      var cells := Cells(c.size, c.depth);
      while cnt < cells
        invariant 0 <= cnt <= cells && ReadSoFar(start, total, Slots(c, cnt), s, lastSet)
        invariant forall x | x in allSets :: x in old(allSets) || fresh(x)
      {
        s, lastSet := ReadSlot(SlotAt(c, cnt), s, lastSet, start, total, Slots(c, cnt), set x | x in allSets);
        SlotsNext(c, cnt);
        cnt := cnt + 1;
      }
    }
  }

  /** 1 for an occupied slot whose key has no answer yet. */
  ghost function NewSlot(sets: seq<MessageSet>, s: OldSlot): nat {
    if s.set_ != 0 && Lookup(sets, (s.set_, s.number)).None? then 1 else 0
  }

  lemma SlotsNext(c: Info, n: nat)
    requires Readable(c) && n < Cells(c.size, c.depth)
    ensures Slots(c, n + 1) == Slots(c, n) + [SlotAt(c, n)]
  {}

  ghost predicate SameLookups(before: seq<MessageSet>, after: seq<MessageSet>) {
    forall key :: Lookup(after, key) == Lookup(before, key)
  }

  lemma SameAnswers(before: seq<MessageSet>, mid: seq<MessageSet>, now: seq<MessageSet>, slot: OldSlot)
    requires SameLookups(before, mid) && Merged(mid, now, [slot])
    ensures Merged(before, now, [slot]) && NewSlot(mid, slot) == NewSlot(before, slot)
  {}

  lemma SlotRead(start: seq<MessageSet>, before: seq<MessageSet>, now: seq<MessageSet>, slots: seq<OldSlot>, slot: OldSlot)
    requires Merged(start, before, slots)
    requires if slot.set_ == 0 then now == before else Merged(before, now, [slot])
    ensures Merged(start, now, slots + [slot])
    ensures Additions(start, slots + [slot]) == Additions(start, slots) + NewSlot(before, slot)
  {
    MergedNext(start, before, now, slots, slot);
    assert (slots + [slot])[..|slots|] == slots;
    assert Lookup(before, (slot.set_, slot.number)) == MergeSlots(Lookup(start, (slot.set_, slot.number)), slots, (slot.set_, slot.number));
  }

  /** How many of the slots are not answered when their turn comes. */
  ghost function Additions(start: seq<MessageSet>, slots: seq<OldSlot>): nat {
    if slots == [] then 0
    else
      var before, s := slots[..|slots| - 1], slots[|slots| - 1];
      Additions(start, before) + if s.set_ != 0 && MergeSlots(Lookup(start, (s.set_, s.number)), before, (s.set_, s.number)).None? then 1 else 0
  }

  ghost predicate Merged(start: seq<MessageSet>, now: seq<MessageSet>, slots: seq<OldSlot>) {
    forall key :: Lookup(now, key) == MergeSlots(Lookup(start, key), slots, key)
  }

  lemma MergedNext(start: seq<MessageSet>, before: seq<MessageSet>, now: seq<MessageSet>, slots: seq<OldSlot>, slot: OldSlot)
    requires Merged(start, before, slots)
    requires if slot.set_ == 0 then now == before else Merged(before, now, [slot])
    ensures Merged(start, now, slots + [slot])
  {
    forall key
      ensures Lookup(now, key) == MergeSlots(Lookup(start, key), slots + [slot], key)
    {
      MergeNext(Lookup(start, key), slots, slot, key);
      var mid := MergeSlots(Lookup(start, key), slots, key);
      assert [slot][..0] == [];
      assert MergeSlots(mid, [slot][..0], key) == mid;
    }
  }
}
