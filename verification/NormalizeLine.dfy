/** In-place processing of quotes and escape sequences in a message line. */
module NormalizeLine {
  import opened Wrappers

  /** Conversion of one byte of the message codeset; None for an invalid one. */
  type Converter = int -> Option<int>

  /** The quote character (0 for none), the escape character and the codeset. */
  datatype Rules = Rules(quote: int, escape: int, convert: Converter)

  predicate IsOctal(c: int) { '0' as int <= c <= '7' as int }

  /** The character a one-letter escape stands for. */
  function Letter(c: int): Option<int> {
    if c == 'n' as int then Some(10)
    else if c == 't' as int then Some(9)
    else if c == 'v' as int then Some(11)
    else if c == 'b' as int then Some(8)
    else if c == 'r' as int then Some(13)
    else if c == 'f' as int then Some(12)
    else None
  }

  /** Reads octal digits from position I on while the value can still grow; a value of at most
      31 may be followed by any number of leading zeros. */
  function Octal(s: seq<int>, i: nat, value: nat): (nat, nat)
    requires i <= |s|
    ensures i <= Octal(s, i, value).1 <= |s|
    decreases |s| - i
  {
    if i < |s| && value <= 31 && IsOctal(s[i]) then Octal(s, i + 1, value * 8 + (s[i] - '0' as int))
    else (value, i)
  }

  /** What an escape whose next character is at I produces, and where reading goes on. */
  function Escape(s: seq<int>, i: nat, r: Rules): (seq<int>, nat)
    requires i <= |s|
    ensures i <= Escape(s, i, r).1 <= |s|
    ensures |Escape(s, i, r).0| <= Escape(s, i, r).1 - i
  {
    if i == |s| then ([], i)
    else if r.quote != 0 && s[i] == r.quote then ([s[i]], i + 1)
    else if Letter(s[i]).Some? then ([Letter(s[i]).value], i + 1)
    else if IsOctal(s[i]) then
      var (value, j) := Octal(s, i + 1, s[i] - '0' as int);
      (if r.convert(value).Some? then [r.convert(value).value] else [], j)
    else if s[i] == r.escape then ([s[i]], i + 1)
    else ([], i)
  }

  /** The rest of the text from position I on, up to an unescaped quote. */
  function Body(s: seq<int>, i: nat, r: Rules): (t: seq<int>)
    requires i <= |s|
    ensures |t| <= |s| - i
    decreases |s| - i
  {
    if i == |s| || s[i] == r.quote then []
    else if s[i] == r.escape then
      var (out, j) := Escape(s, i + 1, r);
      out + Body(s, j, r)
    else [s[i]] + Body(s, i + 1, r)
  }

  /** Where the reading stops. */
  function Stop(s: seq<int>, i: nat, r: Rules): (k: nat)
    requires i <= |s|
    ensures i <= k <= |s|
    decreases |s| - i
  {
    if i == |s| || s[i] == r.quote then i
    else if s[i] == r.escape then Stop(s, Escape(s, i + 1, r).1, r)
    else Stop(s, i + 1, r)
  }

  predicate IsQuoted(s: seq<int>, r: Rules) { r.quote != 0 && s != [] && s[0] == r.quote }

  function Normalized(s: seq<int>, r: Rules): seq<int> {
    Body(s, if IsQuoted(s, r) then 1 else 0, r)
  }

  predicate Unterminated(s: seq<int>, r: Rules) {
    IsQuoted(s, r) && Stop(s, 1, r) == |s|
  }

  // ----- Round trip -----

  /** Writes a text so that it can be read back: the quote and the escape are escaped. */
  function Protect(t: seq<int>, r: Rules): seq<int> {
    if t == [] then []
    else (if t[0] == r.escape || t[0] == r.quote then [r.escape, t[0]] else [t[0]]) + Protect(t[1..], r)
  }

  function Quoted(t: seq<int>, r: Rules): seq<int> {
    if r.quote == 0 then Protect(t, r) else [r.quote] + Protect(t, r) + [r.quote]
  }

  ghost predicate SaneRules(r: Rules) {
    r.escape != 0 && r.escape != r.quote && Letter(r.escape).None? && !IsOctal(r.escape)
  }

  /** Reading a protected text that stands at position I and is followed by a quote or the end. */
  lemma {:induction false} ProtectedReads(s: seq<int>, i: nat, t: seq<int>, r: Rules)
    requires SaneRules(r) && 0 !in t
    requires i + |Protect(t, r)| <= |s| && s[i..i + |Protect(t, r)|] == Protect(t, r)
    requires i + |Protect(t, r)| == |s| || s[i + |Protect(t, r)|] == r.quote
    ensures Body(s, i, r) == t && Stop(s, i, r) == i + |Protect(t, r)|
    decreases t
  {
    if t != [] {
      var p, rest := Protect(t, r), Protect(t[1..], r);
      var n := |p| - |rest|;
      assert p[n..] == rest;
      assert s[i] == s[i..i + |p|][0] == p[0];
      assert s[i + n..i + n + |rest|] == s[i..i + |p|][n..];
      if n == 2 {
        assert s[i + 1] == s[i..i + |p|][1] == p[1] == t[0];
      }
      ProtectedReads(s, i + n, t[1..], r);
    }
  }

  /** Every text without NUL can be written so that the line normalizes to it, under every
      quote and escape character that do not clash. */
  lemma QuotedRoundTrip(t: seq<int>, r: Rules)
    requires SaneRules(r) && 0 !in t
    ensures Normalized(Quoted(t, r), r) == t && !Unterminated(Quoted(t, r), r)
  {
    var p, s := Protect(t, r), Quoted(t, r);
    if r.quote == 0 {
      assert s[0..0 + |p|] == p;
      ProtectedReads(s, 0, t, r);
    } else {
      assert s[1..1 + |p|] == p;
      ProtectedReads(s, 1, t, r);
    }
  }

  // ----- The buffer -----

  /** The switch after an escape character: the character to store, if any, and the new place. */
  method ReadEscape(a: array<int>, rp: nat, r: Rules, ghost s: seq<int>) returns (out: Option<int>, rp': nat)
    requires rp <= |s| < a.Length && a[|s|] == 0 && r.escape != 0
    requires forall i | rp <= i < |s| :: a[i] == s[i] != 0
    ensures (if out.Some? then [out.value] else [], rp') == Escape(s, rp, r)
  {
    out, rp' := None, rp;
    if r.quote != 0 && a[rp] == r.quote {
      out, rp' := Some(a[rp]), rp + 1;
    } else if Letter(a[rp]).Some? {
      out, rp' := Letter(a[rp]), rp + 1;
    } else if IsOctal(a[rp]) {
      var number := a[rp] - '0' as int;
      rp' := rp + 1;
      while number <= 255 / 8 && IsOctal(a[rp'])
        invariant rp < rp' <= |s| && 0 <= number
        invariant Octal(s, rp', number) == Octal(s, rp + 1, s[rp] - '0' as int)
        decreases |s| - rp'
      {
        number := number * 8 + (a[rp'] - '0' as int);
        rp' := rp' + 1;
      }
      out := r.convert(number);
    } else if a[rp] == r.escape {
      out, rp' := Some(r.escape), rp + 1;
    }
  }

  /** What is written so far and what is still unread. */
  ghost predicate Progress(a: seq<int>, s: seq<int>, r: Rules, wp: nat, rp: nat) {
    && wp <= rp <= |s| < |a| && a[|s|] == 0
    && (forall i | rp <= i < |s| :: a[i] == s[i] != 0)
    && a[..wp] + Body(s, rp, r) == Normalized(s, r)
    && Stop(s, rp, r) == Stop(s, if IsQuoted(s, r) then 1 else 0, r)
  }

  lemma Written(a: seq<int>, wp: nat, out: int, body: seq<int>)
    requires wp < |a|
    ensures a[wp := out][..wp + 1] + body == a[..wp] + ([out] + body)
  {
    assert a[wp := out][..wp + 1] == a[..wp] + [out];
  }

  lemma ProgressStored(a: seq<int>, s: seq<int>, r: Rules, wp: nat, rp: nat, out: int, rp': nat)
    requires Progress(a, s, r, wp, rp) && rp < rp' <= |s|
    requires Body(s, rp, r) == [out] + Body(s, rp', r) && Stop(s, rp, r) == Stop(s, rp', r)
    ensures Progress(a[wp := out], s, r, wp + 1, rp')
  {
    Written(a, wp, out, Body(s, rp', r));
  }

  lemma ProgressSkipped(a: seq<int>, s: seq<int>, r: Rules, wp: nat, rp: nat, rp': nat)
    requires Progress(a, s, r, wp, rp) && rp < rp' <= |s|
    requires Body(s, rp, r) == Body(s, rp', r) && Stop(s, rp, r) == Stop(s, rp', r)
    ensures Progress(a, s, r, wp, rp')
  {}

  /** One pass of the loop. */
  method CopyOne(a: array<int>, wp: nat, rp: nat, r: Rules, ghost s: seq<int>) returns (wp': nat, rp': nat)
    requires Progress(a[..], s, r, wp, rp) && rp < |s| && s[rp] != r.quote && r.escape != 0
    modifies a
    ensures Progress(a[..], s, r, wp', rp') && rp < rp'
  {
    ghost var before := a[..];
    if a[rp] == r.escape {
      var out;
      out, rp' := ReadEscape(a, rp + 1, r, s);
      if out.Some? {
        ProgressStored(before, s, r, wp, rp, out.value, rp');
        a[wp] := out.value;
        wp' := wp + 1;
        assert a[..] == before[wp := out.value];
      } else {
        assert [] + Body(s, rp', r) == Body(s, rp', r);
        ProgressSkipped(before, s, r, wp, rp, rp');
        wp' := wp;
      }
    } else {
      ProgressStored(before, s, r, wp, rp, s[rp], rp + 1);
      a[wp] := a[rp];
      wp', rp' := wp + 1, rp + 1;
      assert a[..] == before[wp := s[rp]];
    }
  }

  /** The buffer is rewritten in place: the write position never passes the read position, and
      the NUL-terminated result is the normalized text. */
  method Normalize(a: array<int>, n: nat, r: Rules) returns (unterminated: bool)
    requires n < a.Length && a[n] == 0 && (forall i | 0 <= i < n :: a[i] != 0) && r.escape != 0
    modifies a
    ensures var t := Normalized(old(a[..n]), r); |t| <= n && a[..|t|] == t && a[|t|] == 0
    ensures unterminated <==> Unterminated(old(a[..n]), r)
  {
    ghost var s := a[..n];
    var rp, wp := 0, 0;
    var isQuoted := r.quote != 0 && a[rp] == r.quote;
    if isQuoted {
      rp := 1;
    }
    while a[rp] != 0
      invariant 0 <= wp && 0 <= rp && Progress(a[..], s, r, wp, rp)
      decreases n - rp
    {
      if a[rp] == r.quote {
        break;
      }
      wp, rp := CopyOne(a, wp, rp, r, s);
    }
    unterminated := isQuoted && a[rp] != r.quote;
    assert Body(s, rp, r) == [];
    assert a[..wp] == Normalized(s, r);
    a[wp] := 0;
  }
}
