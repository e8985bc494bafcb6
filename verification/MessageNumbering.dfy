/** Numbering of the messages of one set by the lines of an input file. */
module MessageNumbering {
  import opened Wrappers
  import opened CatalogTable
  import opened MessageLists

  /** A message line; TEXT is None when its characters cannot be converted. */
  datatype Line =
    | Numbered(number: nat, text: Option<seq<byte>>)
    | Symbolic(symbol: string, text: Option<seq<byte>>)

  /** A set as a collection of messages, with the highest number handed out so far. */
  datatype Numbering = Numbering(messages: set<Message>, last: int)

  function Added(text: Option<seq<byte>>, number: int, symbol: Option<string>): set<Message> {
    if text.None? then {} else {Message(number, symbol, text.value)}
  }

  /** The auto-numbered message in the way of number N, if any. */
  function InTheWay(ms: set<Message>, n: int): set<Message> {
    set m | m in ms && m.number == n && m.symbol.Some?
  }

  function Moved(ms: set<Message>, n: int): set<Message> {
    set m | m in ms :: Message(n, m.symbol, m.text)
  }

  /** Clearing the way for number N. */
  function Clear(s: Numbering, n: int): Numbering {
    var evicted := InTheWay(s.messages, n);
    Numbering(s.messages - evicted + Moved(evicted, s.last + 1), if evicted == {} then s.last else s.last + 1)
  }

  /** Effect of one line: a number given by the user is honoured unless the user gave it
      before; an auto-numbered message in its way moves to a fresh number. */
  function Step(s: Numbering, line: Line): Numbering {
    match line
    case Numbered(n, text) =>
      if n == 0 || exists m | m in s.messages :: m.number == n && m.symbol.None? then s
      else
        var c := Clear(s, n);
        Numbering(c.messages + Added(text, n, None), if n > c.last then n else c.last)
    case Symbolic(sym, text) =>
      if exists m | m in s.messages :: m.symbol == Some(sym) then s
      else Numbering(s.messages + Added(text, s.last + 1, Some(sym)), s.last + 1)
  }

  /** Numbers and symbols identify messages, and no number exceeds the last one. */
  ghost predicate Consistent(s: Numbering) {
    && s.last >= 0
    && (forall m | m in s.messages :: 1 <= m.number <= s.last)
    && (forall a, b | a in s.messages && b in s.messages && a.number == b.number :: a == b)
    && (forall a, b | a in s.messages && b in s.messages && a.symbol.Some? && a.symbol == b.symbol :: a == b)
  }

  function Run(lines: seq<Line>): Numbering {
    if lines == [] then Numbering({}, 0) else Step(Run(lines[..|lines| - 1]), lines[|lines| - 1])
  }

  lemma AddConsistent(s: Numbering, m: Message, last: int)
    requires Consistent(s) && 1 <= m.number <= last && s.last <= last
    requires forall x | x in s.messages :: x.number != m.number && (m.symbol.Some? ==> x.symbol != m.symbol)
    ensures Consistent(Numbering(s.messages + {m}, last))
  {}

  lemma MoveConsistent(s: Numbering, m: Message)
    requires Consistent(s) && m in s.messages
    ensures Consistent(Numbering(s.messages - {m} + {Message(s.last + 1, m.symbol, m.text)}, s.last + 1))
  {
    var rest := Numbering(s.messages - {m}, s.last);
    assert Consistent(rest);
    AddConsistent(rest, Message(s.last + 1, m.symbol, m.text), s.last + 1);
  }

  /** At most one message is in the way. */
  lemma OneInTheWay(s: Numbering, n: int, m: Message)
    requires Consistent(s) && m in InTheWay(s.messages, n)
    ensures InTheWay(s.messages, n) == {m} && Moved({m}, s.last + 1) == {Message(s.last + 1, m.symbol, m.text)}
  {}

  lemma ClearConsistent(s: Numbering, n: int)
    requires Consistent(s) && 1 <= n
    requires forall m | m in s.messages :: m.number != n || m.symbol.Some?
    ensures Consistent(Clear(s, n)) && forall x | x in Clear(s, n).messages :: x.number != n
  {
    if m :| m in InTheWay(s.messages, n) {
      OneInTheWay(s, n, m);
      MoveConsistent(s, m);
    } else {
      assert Clear(s, n).messages == s.messages;
      forall x | x in s.messages
        ensures x.number != n
      {
        assert x !in InTheWay(s.messages, n);
      }
    }
  }

  lemma NumberedConsistent(s: Numbering, n: nat, text: Option<seq<byte>>)
    requires Consistent(s) && 1 <= n
    requires forall m | m in s.messages :: m.number != n || m.symbol.Some?
    ensures var c := Clear(s, n); Consistent(Numbering(c.messages + Added(text, n, None), if n > c.last then n else c.last))
  {
    ClearConsistent(s, n);
    var c := Clear(s, n);
    var last := if n > c.last then n else c.last;
    if text.Some? {
      AddConsistent(c, Message(n, None, text.value), last);
    } else {
      assert c.messages + Added(text, n, None) == c.messages;
    }
  }

  lemma SymbolicConsistent(s: Numbering, sym: string, text: Option<seq<byte>>)
    requires Consistent(s) && forall m | m in s.messages :: m.symbol != Some(sym)
    ensures Consistent(Numbering(s.messages + Added(text, s.last + 1, Some(sym)), s.last + 1))
  {
    if text.Some? {
      AddConsistent(s, Message(s.last + 1, Some(sym), text.value), s.last + 1);
    } else {
      assert s.messages + Added(text, s.last + 1, Some(sym)) == s.messages;
    }
  }

  lemma StepConsistent(s: Numbering, line: Line)
    requires Consistent(s)
    ensures Consistent(Step(s, line))
  {
    match line
    case Numbered(n, text) =>
      if n > 0 && forall m | m in s.messages :: m.number != n || m.symbol.Some? {
        NumberedConsistent(s, n, text);
      }
    case Symbolic(sym, text) =>
      if forall m | m in s.messages :: m.symbol != Some(sym) {
        SymbolicConsistent(s, sym, text);
      }
  }

  /** For every sequence of lines the numbering stays consistent. */
  lemma {:induction false} RunConsistent(lines: seq<Line>)
    ensures Consistent(Run(lines))
  {
    if lines != [] {
      RunConsistent(lines[..|lines| - 1]);
      StepConsistent(Run(lines[..|lines| - 1]), lines[|lines| - 1]);
    }
  }

  /** A message the user numbered. */
  ghost predicate UserHas(s: Numbering, n: int, text: seq<byte>) {
    Message(n, None, text) in s.messages
  }

  ghost predicate SymbolHas(s: Numbering, sym: string, text: seq<byte>) {
    exists m | m in s.messages :: m.symbol == Some(sym) && m.text == text
  }

  /** No line loses a text: user numbers keep theirs, symbols keep theirs. */
  lemma StepKeepsUser(s: Numbering, line: Line, n: int, text: seq<byte>)
    requires UserHas(s, n, text)
    ensures UserHas(Step(s, line), n, text)
  {}

  lemma StepKeepsSymbol(s: Numbering, line: Line, sym: string, text: seq<byte>)
    requires SymbolHas(s, sym, text)
    ensures SymbolHas(Step(s, line), sym, text)
  {
    var t := Step(s, line);
    var m :| m in s.messages && m.symbol == Some(sym) && m.text == text;
    if m !in t.messages {
      assert line.Numbered? && m in InTheWay(s.messages, line.number);
      var moved := Message(s.last + 1, m.symbol, m.text);
      assert moved in Moved(InTheWay(s.messages, line.number), s.last + 1);
      assert moved in t.messages;
    }
  }

  /** Over every continuation of every run, what the user numbered or named keeps its text. */
  lemma {:induction false} RunKeeps(lines: seq<Line>, more: seq<Line>, n: int, sym: string, text: seq<byte>)
    ensures UserHas(Run(lines), n, text) ==> UserHas(Run(lines + more), n, text)
    ensures SymbolHas(Run(lines), sym, text) ==> SymbolHas(Run(lines + more), sym, text)
  {
    if more == [] {
      assert lines + more == lines;
    } else {
      var k := |more| - 1;
      var before := Run(lines + more[..k]);
      RunKeeps(lines, more[..k], n, sym, text);
      assert (lines + more)[..|lines| + k] == lines + more[..k];
      assert Run(lines + more) == Step(before, more[k]);
      if UserHas(before, n, text) {
        StepKeepsUser(before, more[k], n, text);
      }
      if SymbolHas(before, sym, text) {
        StepKeepsSymbol(before, more[k], sym, text);
      }
    }
  }

  // ----- Sorted lists as sets -----

  function SetOf(ms: seq<Message>): set<Message> { set m | m in ms }

  lemma SetOfInsert(ms: seq<Message>, i: nat, m: Message)
    requires i <= |ms|
    ensures SetOf(InsertAt(ms, i, m)) == SetOf(ms) + {m}
  {
    var r := InsertAt(ms, i, m);
    forall x | x in ms
      ensures x in r
    {
      var j :| 0 <= j < |ms| && ms[j] == x;
      assert r[if j < i then j else j + 1] == x;
    }
    assert r[i] == m;
  }

  lemma SetOfRemove(ms: seq<Message>, i: nat)
    requires Sorted(ms) && i < |ms|
    ensures SetOf(RemoveAt(ms, i)) == SetOf(ms) - {ms[i]}
  {
    var r := RemoveAt(ms, i);
    forall x | x in ms && x != ms[i]
      ensures x in r
    {
      var j :| 0 <= j < |ms| && ms[j] == x;
      assert r[if j < i then j else j - 1] == x;
    }
    forall x | x in r
      ensures x in ms && x != ms[i]
    {
      var j :| 0 <= j < |r| && r[j] == x;
      assert x == ms[if j < i then j else j + 1];
    }
  }

  ghost predicate ListConsistent(ms: seq<Message>, last: int) {
    Sorted(ms) && Consistent(Numbering(SetOf(ms), last))
  }

  lemma AppendKeepsOrder(ms: seq<Message>, m: Message)
    requires Sorted(ms) && forall x | x in ms :: x.number < m.number
    ensures Sorted(ms + [m]) && SetOf(ms + [m]) == SetOf(ms) + {m}
  {}

  lemma ClearOne(s: Numbering, m: Message)
    requires Consistent(s) && m in s.messages && m.symbol.Some?
    ensures Clear(s, m.number) == Numbering(s.messages - {m} + {Message(s.last + 1, m.symbol, m.text)}, s.last + 1)
    ensures Consistent(Clear(s, m.number))
  {
    assert m in InTheWay(s.messages, m.number);
    OneInTheWay(s, m.number, m);
    MoveConsistent(s, m);
  }

  lemma MovedToTail(ms: seq<Message>, i: nat, m: Message)
    requires Sorted(ms) && i < |ms| && forall x | x in SetOf(ms) :: x.number < m.number
    ensures Sorted(RemoveAt(ms, i) + [m]) && SetOf(RemoveAt(ms, i) + [m]) == SetOf(ms) - {ms[i]} + {m}
  {
    RemoveKeepsOrder(ms, i);
    SetOfRemove(ms, i);
    assert forall x | x in RemoveAt(ms, i) :: x in SetOf(RemoveAt(ms, i));
    AppendKeepsOrder(RemoveAt(ms, i), m);
  }

  /** Moving an auto-numbered message to a fresh number at the tail. */
  lemma Evicted(ms: seq<Message>, last: int, i: nat)
    requires ListConsistent(ms, last) && i < |ms| && ms[i].symbol.Some?
    ensures var r := RemoveAt(ms, i) + [Message(last + 1, ms[i].symbol, ms[i].text)];
            ListConsistent(r, last + 1) && Numbering(SetOf(r), last + 1) == Clear(Numbering(SetOf(ms), last), ms[i].number)
  {
    assert ms[i] in SetOf(ms);
    MovedToTail(ms, i, Message(last + 1, ms[i].symbol, ms[i].text));
    ClearOne(Numbering(SetOf(ms), last), ms[i]);
  }
}
