/** Places in a tree of argps: the path of child numbers from the root, and the order in which a
    walk that visits parents before children meets them. */
module TreePlaces {
  import opened ArgpTypes

  predicate IsPlace(a: Argp, p: seq<nat>)
    decreases p
  {
    p == [] || (p[0] < |a.children| && IsPlace(a.children[p[0]].argp, p[1..]))
  }

  function ArgpAt(a: Argp, p: seq<nat>): Argp
    requires IsPlace(a, p)
    decreases p
  {
    if p == [] then a else ArgpAt(a.children[p[0]].argp, p[1..])
  }

  /** Place P is met before place Q. */
  predicate Before(p: seq<nat>, q: seq<nat>)
    decreases p
  {
    q != [] && (p == [] || p[0] < q[0] || (p[0] == q[0] && Before(p[1..], q[1..])))
  }

  /** Of two places, exactly one comes first. */
  lemma {:induction false} OneBefore(p: seq<nat>, q: seq<nat>)
    ensures Before(p, q) || Before(q, p) || p == q
    ensures !(Before(p, q) && (Before(q, p) || p == q))
    decreases p
  {
    if p != [] && q != [] && p[0] == q[0] {
      OneBefore(p[1..], q[1..]);
      assert p == [p[0]] + p[1..] && q == [q[0]] + q[1..];
    }
  }

  lemma {:induction false} BeforeBelow(at: seq<nat>, p: seq<nat>, q: seq<nat>)
    ensures Before(at + p, at + q) <==> Before(p, q)
  {
    if at == [] {
      assert at + p == p && at + q == q;
    } else {
      BeforeBelow(at[1..], p, q);
      assert (at + p)[1..] == at[1..] + p && (at + q)[1..] == at[1..] + q;
    }
  }

  lemma LowerChildBefore(at: seq<nat>, i: nat, p: seq<nat>, q: seq<nat>)
    requires q != [] && i < q[0]
    ensures Before(at + [i] + p, at + q)
  {
    assert at + [i] + p == at + ([i] + p);
    BeforeBelow(at, [i] + p, q);
  }
}
