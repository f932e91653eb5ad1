/** The factor base of include/gnfs/factor_base/factor_base.hpp: its lists and lookup tables. */
module FactorBases {
  import opened NumberTheory
  import opened ByteEncoding

  const MAX_COUNT: nat := 0xFFFF_FFFF
  const PROJECTIVE_ROOT: U32 := 0xFFFF_FFFF

  datatype RationalPrime = RationalPrime(p: U32, logP: U32)
  datatype AlgebraicPrime = AlgebraicPrime(p: U32, r: U32, logP: U32, degree: U8)
  datatype Params = Params(rationalBound: U32, algebraicBound: U32, largePrimeBound: U64, logScale: U8)

  /** What a factor base contains, its lookup tables aside. */
  datatype Base = Base(params: Params, sieveCount: U64, sieveCountSet: bool,
                       rational: seq<RationalPrime>, algebraic: seq<AlgebraicPrime>)

  /** The sets of p and of (p, r) pairs in the lists. */
  function RationalKeys(s: seq<RationalPrime>): set<U32> {
    set i | 0 <= i < |s| :: s[i].p
  }

  function AlgebraicKeys(s: seq<AlgebraicPrime>): set<(U32, U32)> {
    set i | 0 <= i < |s| :: (s[i].p, s[i].r)
  }

  predicate RationalOk(s: seq<RationalPrime>) {
    && (forall i :: 0 <= i < |s| ==> IsPrime(s[i].p))
    && (forall i, j :: 0 <= i < j < |s| ==> s[i].p < s[j].p)
  }

  predicate EntryOk(a: AlgebraicPrime) {
    IsPrime(a.p) && (a.r == PROJECTIVE_ROOT || a.r < a.p) && a.degree != 0
  }

  predicate AlgebraicOk(s: seq<AlgebraicPrime>) {
    && (forall i :: 0 <= i < |s| ==> EntryOk(s[i]))
    && (forall i, j :: 0 <= i < j < |s| ==> (s[i].p, s[i].r) != (s[j].p, s[j].r))
  }

  /** Everything the loader insists on. */
  predicate Acceptable(b: Base) {
    && |b.rational| <= MAX_COUNT && |b.algebraic| <= MAX_COUNT
    && RationalOk(b.rational) && AlgebraicOk(b.algebraic)
    && b.sieveCount <= |b.algebraic|
    && (b.sieveCountSet || b.sieveCount == 0)
  }

  /** The packed 64-bit key of an algebraic entry. */
  function Key(p: U32, r: U32): U64 {
    p * 0x1_0000_0000 + r
  }

  lemma KeyInjective(p: U32, r: U32, p': U32, r': U32)
    requires Key(p, r) == Key(p', r')
    ensures p == p' && r == r'
  {
  }

  datatype Lookup = Missing | At(index: nat)

  class FactorBase {
    var params: Params
    var sieveCount: U64
    var sieveCountSet: bool
    var rational: seq<RationalPrime>
    var algebraic: seq<AlgebraicPrime>
    var ratIndex: map<U32, nat>
    var algIndex: map<U64, nat>

    function Contents(): Base
      reads this
    {
      Base(params, sieveCount, sieveCountSet, rational, algebraic)
    }

    /** The tables lead from a key to the last entry holding it. */
    ghost predicate Valid()
      reads this
    {
      && |rational| <= MAX_COUNT && |algebraic| <= MAX_COUNT
      && (sieveCountSet || sieveCount == 0)
      && RationalIndexed(rational, ratIndex)
      && AlgebraicIndexed(algebraic, algIndex)
    }

    constructor (params: Params)
      ensures Valid() && Contents() == Base(params, 0, false, [], [])
    {
      this.params := params;
      sieveCount, sieveCountSet := 0, false;
      rational, algebraic := [], [];
      ratIndex, algIndex := map[], map[];
    }

    method AddRational(p: U32, logP: U32) returns (ok: bool)
      requires Valid()
      modifies this
      ensures Valid()
      ensures ok <==> |old(rational)| < 0xFFFF_FFFF
      ensures Contents() == if ok then old(Contents()).(rational := old(rational) + [RationalPrime(p, logP)])
                            else old(Contents())
    {
      if |rational| >= MAX_COUNT {
        return false;
      }
      RationalIndexAdd(rational, ratIndex, RationalPrime(p, logP));
      ratIndex := ratIndex[p := |rational|];
      rational := rational + [RationalPrime(p, logP)];
      ok := true;
    }

    method AddAlgebraic(p: U32, r: U32, logP: U32, degree: U8) returns (ok: bool)
      requires Valid()
      modifies this
      ensures Valid()
      ensures ok <==> |old(algebraic)| < 0xFFFF_FFFF
      ensures Contents() == if ok then old(Contents()).(algebraic := old(algebraic) + [AlgebraicPrime(p, r, logP, degree)])
                            else old(Contents())
    {
      if |algebraic| >= MAX_COUNT {
        return false;
      }
      AlgebraicIndexAdd(algebraic, algIndex, AlgebraicPrime(p, r, logP, degree));
      algIndex := algIndex[Key(p, r) := |algebraic|];
      algebraic := algebraic + [AlgebraicPrime(p, r, logP, degree)];
      ok := true;
    }

    /** The historical setter, for which zero means unset. */
    method SetSieveCount(count: U64)
      requires Valid()
      modifies this
      ensures Valid() && Contents() == old(Contents()).(sieveCount := count, sieveCountSet := count != 0)
    {
      sieveCount, sieveCountSet := count, count != 0;
    }

    method SetSieveCountExplicit(count: U64)
      requires Valid()
      modifies this
      ensures Valid() && Contents() == old(Contents()).(sieveCount := count, sieveCountSet := true)
    {
      sieveCount, sieveCountSet := count, true;
    }

    /** Rebuilds both tables from the lists, whatever the tables held before. */
    method BuildIndex() returns (ok: bool)
      requires sieveCountSet || sieveCount == 0
      modifies this
      ensures ok <==> |rational| <= 0xFFFF_FFFF && |algebraic| <= 0xFFFF_FFFF
      ensures Contents() == old(Contents()) && (ok ==> Valid())
    {
      if |rational| > MAX_COUNT || |algebraic| > MAX_COUNT {
        return false;
      }
      ratIndex := IndexRational(rational);
      algIndex := IndexAlgebraic(algebraic);
      ok := true;
    }

    /** In a factor base the loader accepts, a lookup finds the one entry with that prime. */
    method FindRational(p: U32) returns (found: Lookup)
      requires Valid()
      ensures found.Missing? <==> p !in RationalKeys(rational)
      ensures found.At? ==> found.index < |rational| && rational[found.index].p == p
      ensures found.At? ==> forall i :: found.index < i < |rational| ==> rational[i].p != p
    {
      found := if p in ratIndex then At(ratIndex[p]) else Missing;
    }

    method FindAlgebraic(p: U32, r: U32) returns (found: Lookup)
      requires Valid()
      ensures found.Missing? <==> (p, r) !in AlgebraicKeys(algebraic)
      ensures found.At? ==> found.index < |algebraic|
      ensures found.At? ==> (algebraic[found.index].p, algebraic[found.index].r) == (p, r)
      ensures found.At? ==> forall i :: found.index < i < |algebraic| ==> (algebraic[i].p, algebraic[i].r) != (p, r)
    {
      forall p', r' | Key(p', r') == Key(p, r) ensures p' == p && r' == r {
        KeyInjective(p, r, p', r');
      }
      found := if Key(p, r) in algIndex then At(algIndex[Key(p, r)]) else Missing;
    }
  }

  method IndexRational(s: seq<RationalPrime>) returns (index: map<U32, nat>)
    ensures RationalIndexed(s, index)
  {
    hide RationalIndexed;
    index := map[];
    RationalIndexEmpty();
    for i := 0 to |s|
      invariant RationalIndexed(s[..i], index)
    {
      RationalIndexAdd(s[..i], index, s[i]);
      assert s[..i + 1] == s[..i] + [s[i]];
      index := index[s[i].p := i];
    }
    assert s[..|s|] == s;
  }

  method IndexAlgebraic(s: seq<AlgebraicPrime>) returns (index: map<U64, nat>)
    ensures AlgebraicIndexed(s, index)
  {
    hide AlgebraicIndexed;
    hide Key;
    index := map[];
    AlgebraicIndexEmpty();
    for i := 0 to |s|
      invariant AlgebraicIndexed(s[..i], index)
    {
      AlgebraicIndexAdd(s[..i], index, s[i]);
      assert s[..i + 1] == s[..i] + [s[i]];
      index := index[Key(s[i].p, s[i].r) := i];
    }
    assert s[..|s|] == s;
  }

  lemma RationalIndexEmpty()
    ensures RationalIndexed([], map[])
  {
  }

  lemma AlgebraicIndexEmpty()
    ensures AlgebraicIndexed([], map[])
  {
  }

  ghost predicate RationalIndexed(s: seq<RationalPrime>, index: map<U32, nat>) {
    && (forall p :: p in index ==> index[p] < |s| && s[index[p]].p == p)
    && (forall i :: 0 <= i < |s| ==> s[i].p in index && i <= index[s[i].p])
  }

  ghost predicate AlgebraicIndexed(s: seq<AlgebraicPrime>, index: map<U64, nat>) {
    && (forall k :: k in index ==> index[k] < |s| && Key(s[index[k]].p, s[index[k]].r) == k)
    && (forall i :: 0 <= i < |s| ==> Key(s[i].p, s[i].r) in index && i <= index[Key(s[i].p, s[i].r)])
  }

  lemma RationalIndexAdd(s: seq<RationalPrime>, index: map<U32, nat>, x: RationalPrime)
    requires RationalIndexed(s, index)
    ensures RationalIndexed(s + [x], index[x.p := |s|])
  {
  }

  lemma AlgebraicIndexAdd(s: seq<AlgebraicPrime>, index: map<U64, nat>, x: AlgebraicPrime)
    requires AlgebraicIndexed(s, index)
    ensures AlgebraicIndexed(s + [x], index[Key(x.p, x.r) := |s|])
  {
  }
}
