/** Lexicographic comparison of integer sequences. */
module Lexicographic {

  function Sign(x: int): int { if x < 0 then -1 else if x > 0 then 1 else 0 }

  function LexCmp(a: seq<int>, b: seq<int>): int {
    if a == [] then (if b == [] then 0 else -1)
    else if b == [] then 1
    else if a[0] != b[0] then Sign(a[0] - b[0])
    else LexCmp(a[1..], b[1..])
  }

  lemma {:induction false} LexZero(a: seq<int>, b: seq<int>)
    ensures LexCmp(a, b) == 0 <==> a == b
  {
    if a != [] && b != [] {
      LexZero(a[1..], b[1..]);
      assert a == [a[0]] + a[1..] && b == [b[0]] + b[1..];
    }
  }

  lemma {:induction false} LexAntisymmetric(a: seq<int>, b: seq<int>)
    ensures LexCmp(a, b) == -LexCmp(b, a)
  {
    if a != [] && b != [] {
      LexAntisymmetric(a[1..], b[1..]);
    }
  }

  lemma {:induction false} LexTransitive(a: seq<int>, b: seq<int>, c: seq<int>)
    requires LexCmp(a, b) <= 0 && LexCmp(b, c) <= 0
    ensures LexCmp(a, c) <= 0
    ensures LexCmp(a, b) < 0 || LexCmp(b, c) < 0 ==> LexCmp(a, c) < 0
  {
    if a != [] && b != [] && c != [] && a[0] == b[0] == c[0] {
      LexTransitive(a[1..], b[1..], c[1..]);
    }
  }

  lemma LexHead(x: int, a: seq<int>, y: int, b: seq<int>)
    ensures LexCmp([x] + a, [y] + b) == if x != y then Sign(x - y) else LexCmp(a, b)
  {
    assert ([x] + a)[1..] == a && ([y] + b)[1..] == b;
  }

  /** Parts of equal length are compared one after the other. */
  lemma {:induction false} LexAppend(p: seq<int>, a: seq<int>, q: seq<int>, b: seq<int>)
    requires |p| == |q|
    ensures LexCmp(p + a, q + b) == if LexCmp(p, q) != 0 then LexCmp(p, q) else LexCmp(a, b)
  {
    if p == [] {
      assert p + a == a && q + b == b;
    } else {
      LexAppend(p[1..], a, q[1..], b);
      assert (p + a)[1..] == p[1..] + a && (q + b)[1..] == q[1..] + b;
    }
  }

  /** What lies between two sequences with a common prefix has that prefix. */
  lemma {:induction false} LexBetween(p: seq<int>, a: seq<int>, b: seq<int>, c: seq<int>)
    requires p <= a && p <= c && LexCmp(a, b) <= 0 && LexCmp(b, c) <= 0
    ensures p <= b
  {
    if p != [] {
      LexBetween(p[1..], a[1..], b[1..], c[1..]);
    }
  }
}
