/** The escape language of message lines: a line is a sequence of characters, escapes and octal
    numbers, and what it normalizes to is what they stand for. */
module LineTokens {
  import opened Wrappers
  import opened NormalizeLine

  /** A character that stands for itself, the escape of a letter, of the quote or of the escape
      character, an octal number, and an escape character that escapes nothing. */
  datatype Token = Plain(c: int) | OfLetter(c: int, value: int) | OfChar(c: int) | Number(digits: seq<int>) | Lone

  predicate StandsFor(c: int, value: int) {
    || (c == 'n' as int && value == 10) || (c == 't' as int && value == 9) || (c == 'v' as int && value == 11)
    || (c == 'b' as int && value == 8) || (c == 'r' as int && value == 13) || (c == 'f' as int && value == 12)
  }

  /** The number that octal digits spell. */
  function Spelled(ds: seq<int>): int {
    if ds == [] then 0 else Spelled(ds[..|ds| - 1]) * 8 + (ds[|ds| - 1] - '0' as int)
  }

  function Written(t: Token, r: Rules): seq<int> {
    match t
    case Plain(c) => [c]
    case OfLetter(c, _) => [r.escape, c]
    case OfChar(c) => [r.escape, c]
    case Number(ds) => [r.escape] + ds
    case Lone => [r.escape]
  }

  function Meaning(t: Token, r: Rules): seq<int> {
    match t
    case Plain(c) => [c]
    case OfLetter(_, v) => [v]
    case OfChar(c) => [c]
    case Number(ds) => if r.convert(Spelled(ds)).Some? then [r.convert(Spelled(ds)).value] else []
    case Lone => []
  }

  function Render(ts: seq<Token>, r: Rules): seq<int> { if ts == [] then [] else Written(ts[0], r) + Render(ts[1..], r) }

  function MeaningOf(ts: seq<Token>, r: Rules): seq<int> { if ts == [] then [] else Meaning(ts[0], r) + MeaningOf(ts[1..], r) }

  /** Digits that are read as one number when NEXT follows: the value stays at most 31 until the
      last digit, and no further digit is taken. */
  ghost predicate OneNumber(ds: seq<int>, next: Option<int>) {
    && ds != [] && (forall i | 0 <= i < |ds| :: IsOctal(ds[i])) && (forall n: nat | 0 < n < |ds| :: Spelled(ds[..n]) <= 31)
    && (Spelled(ds) > 31 || next.None? || !IsOctal(next.value))
  }

  predicate IsLetter(c: int) { StandsFor(c, 10) || StandsFor(c, 9) || StandsFor(c, 11) || StandsFor(c, 8) || StandsFor(c, 13) || StandsFor(c, 12) }

  /** The character is one that an escape gives a meaning. */
  predicate Escapable(c: int, r: Rules) { (r.quote != 0 && c == r.quote) || IsLetter(c) || IsOctal(c) || c == r.escape }

  /** A token that is read as such when NEXT follows. */
  ghost predicate Readable(t: Token, r: Rules, next: Option<int>) {
    match t
    case Plain(c) => c != r.quote && c != r.escape
    case OfLetter(c, v) => StandsFor(c, v) && c != r.quote
    case OfChar(c) => (r.quote != 0 && c == r.quote) || (c == r.escape && !IsLetter(c) && !IsOctal(c))
    case Number(ds) => OneNumber(ds, next) && ds[0] != r.quote
    case Lone => next.None? || !Escapable(next.value, r)
  }

  /** What follows the tokens TS when END comes after the last of them. */
  function NextOf(ts: seq<Token>, r: Rules, end: Option<int>): Option<int> {
    if ts != [] && Written(ts[0], r) != [] then Some(Written(ts[0], r)[0]) else end
  }

  ghost predicate AllReadable(ts: seq<Token>, r: Rules, end: Option<int>) {
    ts == [] || (Readable(ts[0], r, NextOf(ts[1..], r, end)) && AllReadable(ts[1..], r, end))
  }

  /** The character at a position, if the line reaches it. */
  function At(s: seq<int>, j: nat): Option<int> { if j < |s| then Some(s[j]) else None }

  // ----- Numbers -----

  lemma {:induction false} OctalReads(s: seq<int>, i: nat, j: nat, ds: seq<int>, k: nat)
    requires i + |ds| == j <= |s| && s[i..j] == ds && 0 < k <= |ds|
    requires OneNumber(ds, At(s, j))
    ensures Spelled(ds[..k]) >= 0 && Octal(s, i + k, Spelled(ds[..k])) == (Spelled(ds), j)
    decreases |ds| - k
  {
    SpelledPositive(ds, k);
    if k == |ds| {
      assert ds[..k] == ds;
    } else {
      assert s[i + k] == s[i..j][k] == ds[k];
      assert ds[..k + 1][..k] == ds[..k];
      OctalReads(s, i, j, ds, k + 1);
    }
  }

  lemma {:induction false} SpelledPositive(ds: seq<int>, k: nat)
    requires k <= |ds| && forall i | 0 <= i < |ds| :: IsOctal(ds[i])
    ensures Spelled(ds[..k]) >= 0
  {
    if k > 0 {
      SpelledPositive(ds, k - 1);
      assert ds[..k][..k - 1] == ds[..k - 1];
    }
  }

  // ----- Lines -----

  lemma LetterMeans(c: int)
    ensures IsLetter(c) <==> Letter(c).Some?
    ensures Letter(c).Some? ==> StandsFor(c, Letter(c).value)
    ensures Letter(c).Some? ==> !IsOctal(c)
  {}

  /** The text after an escape character is read as the token says. */
  lemma {:induction false} EscapeReads(s: seq<int>, i: nat, t: Token, r: Rules, j: nat)
    requires !t.Plain? && i + |Written(t, r)| == j + 1 <= |s| + 1 && s[i..j] == Written(t, r)[1..] && r.escape != 0
    requires Readable(t, r, At(s, j))
    ensures Escape(s, i, r) == (Meaning(t, r), j)
  {
    match t {
      case OfLetter(c, v) =>
        assert s[i] == s[i..j][0] == c;
        LetterMeans(c);
      case OfChar(c) =>
        assert s[i] == s[i..j][0] == c;
        LetterMeans(c);
      case Number(ds) =>
        assert Written(t, r)[1..] == ds;
        assert s[i] == s[i..j][0] == ds[0];
        LetterMeans(ds[0]);
        OctalReads(s, i, j, ds, 1);
        assert ds[..1] == [ds[0]] && ds[..1][..0] == [];
        assert Spelled(ds[..1]) == ds[0] - '0' as int;
      case Lone =>
        if i < |s| {
          LetterMeans(s[i]);
        }
    }
  }

  lemma TwoSlices(s: seq<int>, i: nat, end: nat, a: seq<int>, b: seq<int>)
    requires i + |a| + |b| == end <= |s| && s[i..end] == a + b
    ensures s[i..i + |a|] == a && s[i + |a|..end] == b
  {
    assert s[i..i + |a|] == s[i..end][..|a|] && s[i + |a|..end] == s[i..end][|a|..];
  }

  /** The character after a token is the first of the next one, or the one after the last. */
  lemma NextIs(s: seq<int>, j: nat, ts: seq<Token>, r: Rules, end: nat)
    requires j + |Render(ts, r)| == end <= |s| && s[j..end] == Render(ts, r)
    ensures NextOf(ts, r, At(s, end)) == At(s, j)
  {
    if ts != [] {
      assert s[j] == s[j..end][0];
    }
  }

  /** Token T stands from position I to position J of the line S. */
  ghost predicate TokenAt(s: seq<int>, i: nat, t: Token, r: Rules, j: nat) {
    i + |Written(t, r)| == j <= |s| && s[i..j] == Written(t, r) && Readable(t, r, At(s, j))
  }

  /** Tokens TS stand from position I to position END, followed by a quote or the end. */
  ghost predicate TokensAt(s: seq<int>, i: nat, ts: seq<Token>, r: Rules, end: nat) {
    && i + |Render(ts, r)| == end <= |s| && s[i..end] == Render(ts, r) && (end == |s| || s[end] == r.quote)
    && AllReadable(ts, r, At(s, end))
  }

  lemma TokenRead(s: seq<int>, i: nat, t: Token, r: Rules, j: nat)
    requires r.escape != 0 && r.escape != r.quote && TokenAt(s, i, t, r, j)
    ensures Body(s, i, r) == Meaning(t, r) + Body(s, j, r) && Stop(s, i, r) == Stop(s, j, r)
  {
    assert s[i] == s[i..j][0] == Written(t, r)[0];
    if !t.Plain? {
      assert s[i + 1..j] == s[i..j][1..];
      EscapeReads(s, i + 1, t, r, j);
    }
  }

  lemma {:induction false} TokensSplit(s: seq<int>, i: nat, ts: seq<Token>, r: Rules, j: nat, end: nat)
    requires TokensAt(s, i, ts, r, end) && ts != [] && j == i + |Written(ts[0], r)|
    ensures TokenAt(s, i, ts[0], r, j) && TokensAt(s, j, ts[1..], r, end)
  {
    ReadableFirst(ts, r, At(s, end));
    TwoSlices(s, i, end, Written(ts[0], r), Render(ts[1..], r));
    NextIs(s, j, ts[1..], r, end);
  }

  lemma {:induction false} ReadableFirst(ts: seq<Token>, r: Rules, end: Option<int>)
    requires ts != []
    ensures AllReadable(ts, r, end) <==> Readable(ts[0], r, NextOf(ts[1..], r, end)) && AllReadable(ts[1..], r, end)
    ensures Render(ts, r) == Written(ts[0], r) + Render(ts[1..], r)
  {}

  lemma {:induction false} TokensRead(s: seq<int>, i: nat, ts: seq<Token>, r: Rules, end: nat)
    requires r.escape != 0 && r.escape != r.quote && TokensAt(s, i, ts, r, end)
    ensures Body(s, i, r) == MeaningOf(ts, r) && Stop(s, i, r) == end
    decreases ts
  {
    if ts != [] {
      var j := i + |Written(ts[0], r)|;
      TokensSplit(s, i, ts, r, j, end);
      TokenRead(s, i, ts[0], r, j);
      TokensRead(s, j, ts[1..], r, end);
    }
  }

  /** A line made of tokens, between quotes or not, normalizes to what its tokens stand for. */
  lemma {:induction false} LineMeans(ts: seq<Token>, r: Rules)
    requires r.escape != 0 && r.escape != r.quote
    ensures r.quote != 0 && AllReadable(ts, r, Some(r.quote)) ==>
              var line := [r.quote] + Render(ts, r) + [r.quote]; Normalized(line, r) == MeaningOf(ts, r) && !Unterminated(line, r)
    ensures r.quote != 0 && AllReadable(ts, r, None) ==>
              var line := [r.quote] + Render(ts, r); Normalized(line, r) == MeaningOf(ts, r) && Unterminated(line, r)
    ensures AllReadable(ts, r, None) && !IsQuoted(Render(ts, r), r) ==> Normalized(Render(ts, r), r) == MeaningOf(ts, r)
  {
    var text := Render(ts, r);
    if r.quote != 0 && AllReadable(ts, r, Some(r.quote)) {
      var line := [r.quote] + text + [r.quote];
      assert line[1..1 + |text|] == text;
      TokensRead(line, 1, ts, r, 1 + |text|);
    }
    if r.quote != 0 && AllReadable(ts, r, None) {
      var line := [r.quote] + text;
      assert line[1..1 + |text|] == text;
      TokensRead(line, 1, ts, r, 1 + |text|);
    }
    if AllReadable(ts, r, None) {
      assert text[0..|text|] == text;
      TokensRead(text, 0, ts, r, |text|);
    }
  }

  // ----- Every line is made of tokens -----

  /** The digits DS from position I on are the beginning of a number. */
  ghost predicate Begun(s: seq<int>, i: nat, ds: seq<int>) {
    && i + |ds| <= |s| && s[i..i + |ds|] == ds && ds != [] && (forall k | 0 <= k < |ds| :: IsOctal(ds[k]))
    && forall n: nat | 0 < n < |ds| :: Spelled(ds[..n]) <= 31
  }

  lemma {:induction false} BegunNext(s: seq<int>, i: nat, ds: seq<int>, c: int)
    requires Begun(s, i, ds) && i + |ds| < |s| && c == s[i + |ds|] && IsOctal(c) && Spelled(ds) <= 31
    ensures Begun(s, i, ds + [c]) && Spelled(ds + [c]) == Spelled(ds) * 8 + (c - '0' as int)
  {
    var es := ds + [c];
    assert es[..|ds|] == ds;
    assert s[i..i + |es|] == s[i..i + |ds|] + [c];
    forall n: nat | 0 < n < |es|
      ensures Spelled(es[..n]) <= 31
    {
      assert es[..n] == ds[..n];
    }
  }

  /** The digits DS at position I are read as one number. */
  ghost predicate NumberAt(s: seq<int>, i: nat, ds: seq<int>) {
    i + |ds| <= |s| && s[i..i + |ds|] == ds && OneNumber(ds, At(s, i + |ds|))
  }

  lemma {:induction false} BegunEnds(s: seq<int>, i: nat, ds: seq<int>)
    requires Begun(s, i, ds)
    requires i + |ds| == |s| || !IsOctal(s[i + |ds|]) || Spelled(ds) > 31
    ensures NumberAt(s, i, ds)
  {}

  lemma {:induction false} NumberEnds(s: seq<int>, i: nat, ds: seq<int>) returns (all: seq<int>)
    requires Begun(s, i, ds)
    ensures NumberAt(s, i, all) && all != [] && all[0] == ds[0]
    decreases |s| - |ds|
  {
    var j := i + |ds|;
    if j < |s| && IsOctal(s[j]) && Spelled(ds) <= 31 {
      BegunNext(s, i, ds, s[j]);
      all := NumberEnds(s, i, ds + [s[j]]);
    } else {
      BegunEnds(s, i, ds);
      all := ds;
    }
  }

  /** A token can be read wherever the text neither ends nor comes to a quote. */
  lemma TokenFound(s: seq<int>, i: nat, r: Rules) returns (t: Token, j: nat)
    requires r.escape != 0 && r.escape != r.quote && i < |s| && s[i] != r.quote
    ensures TokenAt(s, i, t, r, j) && i < j
  {
    if s[i] != r.escape {
      t, j := Plain(s[i]), i + 1;
    } else {
      t, j := EscapeFound(s, i, r);
    }
  }

  lemma {:induction false} EscapeFound(s: seq<int>, i: nat, r: Rules) returns (t: Token, j: nat)
    requires r.escape != 0 && r.escape != r.quote && i < |s| && s[i] == r.escape
    ensures TokenAt(s, i, t, r, j) && i < j
  {
    if i + 1 == |s| || !Escapable(s[i + 1], r) {
      t, j := Lone, i + 1;
    } else {
      var c := s[i + 1];
      if IsOctal(c) && c != r.quote {
        t, j := NumberFound(s, i, r);
      } else {
        t := CharFound(s, i, r, c);
        j := i + 2;
      }
    }
  }

  lemma {:induction false} CharFound(s: seq<int>, i: nat, r: Rules, c: int) returns (t: Token)
    requires r.escape != 0 && i + 1 < |s| && s[i] == r.escape && s[i + 1] == c && Escapable(c, r) && (IsOctal(c) ==> c == r.quote)
    ensures TokenAt(s, i, t, r, i + 2)
  {
    LetterMeans(c);
    assert s[i..i + 2] == [r.escape, c];
    t := if (r.quote != 0 && c == r.quote) || !IsLetter(c) then OfChar(c) else OfLetter(c, Letter(c).value);
  }

  lemma {:induction false} NumberFound(s: seq<int>, i: nat, r: Rules) returns (t: Token, j: nat)
    requires i + 1 < |s| && s[i] == r.escape && IsOctal(s[i + 1]) && s[i + 1] != r.quote
    ensures TokenAt(s, i, t, r, j) && i < j
  {
    var at := i + 1;
    assert s[at..at + 1] == [s[at]];
    var ds := NumberEnds(s, at, [s[at]]);
    t, j := Number(ds), at + |ds|;
    assert s[i..j] == [r.escape] + s[at..j];
  }

  lemma {:induction false} TokensJoin(s: seq<int>, i: nat, t: Token, ts: seq<Token>, r: Rules, j: nat, end: nat)
    requires TokenAt(s, i, t, r, j) && TokensAt(s, j, ts, r, end)
    ensures TokensAt(s, i, [t] + ts, r, end)
  {
    assert ([t] + ts)[1..] == ts;
    assert s[i..end] == s[i..j] + s[j..end];
    NextIs(s, j, ts, r, end);
  }

  /** Every line consists of tokens up to its first unescaped quote or its end. */
  lemma {:induction false} EveryLine(s: seq<int>, i: nat, r: Rules) returns (ts: seq<Token>, end: nat)
    requires r.escape != 0 && r.escape != r.quote && i <= |s|
    ensures TokensAt(s, i, ts, r, end)
    decreases |s| - i
  {
    if i == |s| || s[i] == r.quote {
      ts, end := [], i;
    } else {
      var t, j := TokenFound(s, i, r);
      ts, end := EveryLine(s, j, r);
      TokensJoin(s, i, t, ts, r, j, end);
      ts := [t] + ts;
    }
  }

  /** So every line has tokens, behind an opening quote if there is one, whose meaning it
      normalizes to; it lacks its closing quote exactly when they reach its end. */
  lemma NormalizedMeans(s: seq<int>, r: Rules) returns (ts: seq<Token>, end: nat)
    requires r.escape != 0 && r.escape != r.quote
    ensures TokensAt(s, if IsQuoted(s, r) then 1 else 0, ts, r, end) && Normalized(s, r) == MeaningOf(ts, r)
    ensures Unterminated(s, r) <==> IsQuoted(s, r) && end == |s|
  {
    var i := if IsQuoted(s, r) then 1 else 0;
    ts, end := EveryLine(s, i, r);
    TokensRead(s, i, ts, r, end);
  }
}
