/** Sequences of short keys (0 for an option without one) and the first uses among them. */
module FirstUses {

  /** The keys in the order of their first use. */
  function Firsts(ks: seq<int>): seq<int> {
    if ks == [] then []
    else
      var before, k := Firsts(ks[..|ks| - 1]), ks[|ks| - 1];
      if k != 0 && k !in before then before + [k] else before
  }

  /** Position P is the first to use its key. */
  ghost predicate FirstUse(ks: seq<int>, p: nat) {
    p < |ks| && ks[p] != 0 && ks[p] !in ks[..p]
  }

  lemma FirstsNext(ks: seq<int>, k: int)
    ensures Firsts(ks + [k]) == if k != 0 && k !in Firsts(ks) then Firsts(ks) + [k] else Firsts(ks)
  {
    assert (ks + [k])[..|ks|] == ks;
  }

  lemma {:induction false} FirstsMembers(ks: seq<int>, k: int)
    ensures k in Firsts(ks) <==> k != 0 && k in ks
  {
    if ks != [] {
      var n := |ks| - 1;
      FirstsMembers(ks[..n], k);
      FirstsMembers(ks[..n], ks[n]);
      assert ks == ks[..n] + [ks[n]];
    }
  }

  /** Each key is listed once. */
  lemma {:induction false} FirstsDistinct(ks: seq<int>)
    ensures forall i, j | 0 <= i < j < |Firsts(ks)| :: Firsts(ks)[i] != Firsts(ks)[j]
  {
    if ks != [] {
      FirstsDistinct(ks[..|ks| - 1]);
    }
  }

  lemma {:induction false} FirstsOfPrefix(a: seq<int>, b: seq<int>)
    requires a <= b
    ensures Firsts(a) <= Firsts(b)
    decreases |b| - |a|
  {
    if |a| < |b| {
      FirstsOfPrefix(a + [b[|a|]], b);
      FirstsNext(a, b[|a|]);
    } else {
      assert a == b;
    }
  }

  /** The test `*so == key` recognizes exactly the first uses, when the cursor stands behind the
      first uses of everything before. */
  lemma TestRecognizes(before: seq<int>, k: int, ks: seq<int>)
    requires before + [k] <= ks && k != 0
    ensures var so, packed := |Firsts(before)|, Firsts(ks);
            (so < |packed| && packed[so] == k) <==> k !in before
  {
    FirstsNext(before, k);
    FirstsOfPrefix(before + [k], ks);
    FirstsMembers(before, k);
    if k in before {
      FirstsDistinct(ks);
      var i :| 0 <= i < |Firsts(before)| && Firsts(before)[i] == k;
      assert Firsts(ks)[i] == k;
    }
  }

  /** One key of a second list B after a first list A: it is added when it is new to both. */
  lemma MergeNext(a: seq<int>, b: seq<int>, k: int)
    ensures Firsts(a + (b + [k])) == if k != 0 && k !in b && k !in Firsts(a) then Firsts(a + b) + [k] else Firsts(a + b)
  {
    assert a + (b + [k]) == (a + b) + [k];
    FirstsNext(a + b, k);
    FirstsMembers(a + b, k);
    FirstsMembers(a, k);
  }

  lemma CountNext(b: seq<int>, k: int)
    ensures |Firsts(b + [k])| == |Firsts(b)| + if k != 0 && k !in b then 1 else 0
  {
    FirstsNext(b, k);
    FirstsMembers(b, k);
  }

  lemma PrefixNext(b: seq<int>, ks: seq<int>, k: nat, all: seq<int>)
    requires k < |ks| && b + ks <= all
    ensures b + ks[..k + 1] == (b + ks[..k]) + [ks[k]] && (b + ks[..k]) + [ks[k]] <= all
  {}
}
