/** Insertion sort as the specification of library sorting. */
module Sorting {

  predicate Ascending(s: seq<nat>) {
    forall i, j :: 0 <= i < j < |s| ==> s[i] <= s[j]
  }

  function Insert(x: nat, s: seq<nat>): (r: seq<nat>)
    ensures |r| == |s| + 1
  {
    if |s| == 0 || x <= s[0] then [x] + s else [s[0]] + Insert(x, s[1..])
  }

  function Sort(s: seq<nat>): (r: seq<nat>)
    ensures |r| == |s|
  {
    if |s| == 0 then [] else Insert(s[0], Sort(s[1..]))
  }

  lemma {:induction false} InsertFacts(x: nat, s: seq<nat>)
    requires Ascending(s)
    ensures Ascending(Insert(x, s)) && multiset(Insert(x, s)) == multiset(s) + multiset{x}
  {
    if |s| > 0 && x > s[0] {
      InsertFacts(x, s[1..]);
      assert s == [s[0]] + s[1..];
      PrependAscends(s[0], Insert(x, s[1..]), s[1..], x);
    }
  }

  lemma PrependAscends(a: nat, t: seq<nat>, s: seq<nat>, x: nat)
    requires Ascending(t) && multiset(t) == multiset(s) + multiset{x} && a <= x && forall i :: 0 <= i < |s| ==> a <= s[i]
    ensures Ascending([a] + t)
  {
    forall i | 0 <= i < |t| ensures a <= t[i] {
      assert t[i] in multiset(t);
    }
  }

  /** A sorted permutation. */
  lemma {:induction false} SortFacts(s: seq<nat>)
    ensures Ascending(Sort(s)) && multiset(Sort(s)) == multiset(s)
    ensures forall y :: y in Sort(s) <==> y in s
  {
    if |s| > 0 {
      SortFacts(s[1..]);
      InsertFacts(s[0], Sort(s[1..]));
      assert s == [s[0]] + s[1..];
    }
    forall y ensures y in Sort(s) <==> y in s {
      assert y in multiset(Sort(s)) <==> y in multiset(s);
    }
  }
}
