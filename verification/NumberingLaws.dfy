/** What a run of message lines leaves in a set, read off the lines alone: which texts survive
    under which numbers and symbols, and which numbers a single line hands out. */
module NumberingLaws {
  import opened Wrappers
  import opened CatalogTable
  import opened MessageNumbering

  // ----- One line -----

  ghost predicate UserNumber(s: Numbering, n: int) { exists m | m in s.messages :: m.number == n && m.symbol.None? }

  ghost predicate KnownSymbol(s: Numbering, sym: string) { exists m | m in s.messages :: m.symbol == Some(sym) }

  /** A line with a fresh number: its text is stored under it, the auto-numbered message that had
      the number gets the next unused one, and everything else stays. */
  lemma NumberedLine(s: Numbering, n: nat, text: Option<seq<byte>>, m: Message)
    requires Consistent(s) && n > 0 && !UserNumber(s, n)
    ensures var t := Step(s, Numbered(n, text));
            var moved := exists x | x in s.messages :: x.number == n;
            && t.last == Max(n, if moved then s.last + 1 else s.last)
            && (m in t.messages <==>
                || (m.number == n && m.symbol == None && Some(m.text) == text)
                || (m.number != n && m in s.messages)
                || (m.number == s.last + 1 && Message(n, m.symbol, m.text) in s.messages))
  {
    var t := Step(s, Numbered(n, text));
    var c := Clear(s, n);
    if x :| x in s.messages && x.number == n {
      assert x.symbol.Some?;
      ClearOne(s, x);
    } else {
      assert InTheWay(s.messages, n) == {};
      assert c.messages == s.messages;
    }
  }

  /** A line with a new symbol takes the next unused number. */
  lemma SymbolicLine(s: Numbering, sym: string, text: Option<seq<byte>>, m: Message)
    requires !KnownSymbol(s, sym)
    ensures var t := Step(s, Symbolic(sym, text));
            && t.last == s.last + 1
            && (m in t.messages <==>
                m in s.messages || (m.number == s.last + 1 && m.symbol == Some(sym) && Some(m.text) == text))
  {}

  /** Number 0, a number the user gave before and a symbol in use: the line changes nothing. */
  lemma RefusedLine(s: Numbering, line: Line)
    requires match line
             case Numbered(n, _) => n == 0 || UserNumber(s, n)
             case Symbolic(sym, _) => KnownSymbol(s, sym)
    ensures Step(s, line) == s
  {}

  // ----- Whole runs -----

  /** A line that gives number N, or symbol SYM, a text. */
  predicate Numbers(line: Line, n: int) { line.Numbered? && line.number == n && line.text.Some? }

  predicate Names(line: Line, sym: string) { line.Symbolic? && line.symbol == sym && line.text.Some? }

  /** The text of the first of the lines wanted. */
  function FirstText(lines: seq<Line>, wanted: Line -> bool): Option<seq<byte>> {
    if lines == [] then None
    else
      var k := |lines| - 1;
      var before := FirstText(lines[..k], wanted);
      if before.Some? then before else if wanted(lines[k]) then lines[k].text else None
  }

  lemma {:induction false} FirstTextIs(lines: seq<Line>, wanted: Line -> bool)
    requires forall l :: wanted(l) ==> l.text.Some?
    ensures FirstText(lines, wanted).None? ==> forall i: nat | i < |lines| :: !wanted(lines[i])
    ensures FirstText(lines, wanted).Some? ==>
              exists i: nat | i < |lines| ::
                wanted(lines[i]) && lines[i].text == FirstText(lines, wanted) && forall j: nat | j < i :: !wanted(lines[j])
  {
    if lines != [] {
      var k := |lines| - 1;
      FirstTextIs(lines[..k], wanted);
      if FirstText(lines[..k], wanted).None? && wanted(lines[k]) {
        assert forall j: nat | j < k :: lines[j] == lines[..k][j];
      }
    }
  }

  /** The text that the lines give number N, or symbol SYM, first. */
  function NumberText(lines: seq<Line>, n: int): Option<seq<byte>> { FirstText(lines, l => Numbers(l, n)) }

  function SymbolText(lines: seq<Line>, sym: string): Option<seq<byte>> { FirstText(lines, l => Names(l, sym)) }

  lemma NumberedStep(before: Numbering, line: Line, n: nat, text: seq<byte>)
    requires Consistent(before) && n > 0
    ensures UserHas(Step(before, line), n, text) <==>
            UserHas(before, n, text) || (!UserNumber(before, n) && line == Numbered(n, Some(text)))
  {
    var m := Message(n, None, text);
    match line {
      case Numbered(k, t) =>
        if k > 0 && !UserNumber(before, k) {
          NumberedLine(before, k, t, m);
          assert !(m.number == before.last + 1 && Message(k, None, text) in before.messages);
        }
      case Symbolic(sym, t) =>
        if !KnownSymbol(before, sym) {
          SymbolicLine(before, sym, t, m);
        }
    }
  }

  /** The user's number N ends with the text that the lines give it first, and only with that
      one. */
  lemma {:induction false} UserTexts(lines: seq<Line>, n: nat, text: seq<byte>)
    requires n > 0
    ensures UserHas(Run(lines), n, text) <==> NumberText(lines, n) == Some(text)
  {
    if lines != [] {
      var k := |lines| - 1;
      var before := Run(lines[..k]);
      RunConsistent(lines[..k]);
      UserTexts(lines[..k], n, text);
      NumberedStep(before, lines[k], n, text);
      if UserNumber(before, n) {
        var m :| m in before.messages && m.number == n && m.symbol.None?;
        UserTexts(lines[..k], n, m.text);
      } else if NumberText(lines[..k], n).Some? {
        UserTexts(lines[..k], n, NumberText(lines[..k], n).value);
      }
    }
  }

  lemma SymbolStep(before: Numbering, line: Line, sym: string, text: seq<byte>)
    requires Consistent(before)
    ensures SymbolHas(Step(before, line), sym, text) <==>
            SymbolHas(before, sym, text) || (!KnownSymbol(before, sym) && line == Symbolic(sym, Some(text)))
  {
    var t := Step(before, line);
    if SymbolHas(before, sym, text) {
      StepKeepsSymbol(before, line, sym, text);
    } else if !KnownSymbol(before, sym) && line == Symbolic(sym, Some(text)) {
      assert Message(before.last + 1, Some(sym), text) in t.messages;
    } else if SymbolHas(t, sym, text) {
      var m :| m in t.messages && m.symbol == Some(sym) && m.text == text;
      SymbolOrigin(before, line, m);
    }
  }

  /** A symbol found after a line was there before it, or is that of the line. */
  lemma SymbolOrigin(before: Numbering, line: Line, m: Message)
    requires Consistent(before) && m in Step(before, line).messages && m.symbol.Some?
    ensures SymbolHas(before, m.symbol.value, m.text) || line == Symbolic(m.symbol.value, Some(m.text))
    ensures line.Symbolic? && KnownSymbol(before, line.symbol) ==> SymbolHas(before, m.symbol.value, m.text)
  {
    match line {
      case Numbered(k, t) =>
        if k > 0 && !UserNumber(before, k) {
          NumberedLine(before, k, t, m);
        }
      case Symbolic(s, t) =>
        if !KnownSymbol(before, s) {
          SymbolicLine(before, s, t, m);
        }
    }
  }

  /** The same for symbols, whatever numbers they are moved to. */
  lemma {:induction false} SymbolTexts(lines: seq<Line>, sym: string, text: seq<byte>)
    ensures SymbolHas(Run(lines), sym, text) <==> SymbolText(lines, sym) == Some(text)
  {
    if lines != [] {
      var k := |lines| - 1;
      var before := Run(lines[..k]);
      RunConsistent(lines[..k]);
      SymbolTexts(lines[..k], sym, text);
      SymbolStep(before, lines[k], sym, text);
      if KnownSymbol(before, sym) {
        var m :| m in before.messages && m.symbol == Some(sym);
        SymbolTexts(lines[..k], sym, m.text);
      } else if SymbolText(lines[..k], sym).Some? {
        SymbolTexts(lines[..k], sym, SymbolText(lines[..k], sym).value);
      }
    }
  }

  /** The messages are exactly the first texts that the lines give to numbers and symbols. */
  ghost predicate FirstTexts(ms: set<Message>, lines: seq<Line>) {
    && (forall m | m in ms ::
          Some(m.text) == if m.symbol.None? then NumberText(lines, m.number) else SymbolText(lines, m.symbol.value))
    && (forall n: nat | n > 0 && NumberText(lines, n).Some? :: Message(n, None, NumberText(lines, n).value) in ms)
    && (forall sym | SymbolText(lines, sym).Some? :: exists m | m in ms :: m.symbol == Some(sym))
  }

  lemma RunHoldsFirstTexts(lines: seq<Line>)
    ensures FirstTexts(Run(lines).messages, lines)
  {
    var s := Run(lines);
    RunConsistent(lines);
    forall m | m in s.messages
      ensures Some(m.text) == if m.symbol.None? then NumberText(lines, m.number) else SymbolText(lines, m.symbol.value)
    {
      if m.symbol.None? {
        assert UserHas(s, m.number, m.text);
        UserTexts(lines, m.number, m.text);
      } else {
        SymbolTexts(lines, m.symbol.value, m.text);
      }
    }
    forall n: nat | n > 0 && NumberText(lines, n).Some?
      ensures Message(n, None, NumberText(lines, n).value) in s.messages
    {
      UserTexts(lines, n, NumberText(lines, n).value);
    }
    forall sym | SymbolText(lines, sym).Some?
      ensures exists m | m in s.messages :: m.symbol == Some(sym)
    {
      SymbolTexts(lines, sym, SymbolText(lines, sym).value);
    }
  }
}
