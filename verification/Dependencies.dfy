module Dependencies {
  /**
   What the finished scan delivers: the rows below the pivots are a basis of the left null
   space of M, and the number of pivots is its rank.
   */

  import opened GF2
  import opened Elimination

  function Min(a: nat, b: nat): nat {
    if a < b then a else b
  }

  /** The left halves of the first rows after the pivots. */
  function DependencyRows(s: Progress, m: nat, n: nat, cap: nat): (deps: Matrix)
    requires Shape(s, m, n)
    ensures Rect(deps, Min(cap, m - s.pivotRow), m)
  {
    seq(Min(cap, m - s.pivotRow), i requires 0 <= i < Min(cap, m - s.pivotRow) => s.aug[s.pivotRow + i][..m])
  }

  /**
   The list holds independent left-null vectors of a, as many as the cap and the nullity
   m - rank allow, and all of the left null space when the cap does not bite.
   */
  ghost predicate IsDependencyList(deps: Matrix, a: Matrix, m: nat, n: nat, cap: nat)
    requires Rect(a, m, n)
  {
    && Rect(deps, |deps|, m)
    && (forall i :: 0 <= i < |deps| ==> LeftNull(deps[i], a, n) && !IsZero(deps[i]))
    && Independent(deps, m)
    && (exists r: nat :: r <= m && r <= n && HasRank(a, n, r) && |deps| == Min(cap, m - r)
                         && (m - r <= cap ==> SpansLeftNull(deps, a, m, n)))
  }

  ghost predicate SpansLeftNull(deps: Matrix, a: Matrix, m: nat, n: nat)
    requires Rect(deps, |deps|, m) && Rect(a, m, n)
  {
    forall v: Vec :: |v| == m && LeftNull(v, a, n) ==> InSpan(v, deps, m)
  }

  // ---------- the finished matrix ----------

  predicate RightZero(row: Vec, m: nat, n: nat)
    requires |row| == m + n
  {
    forall j :: m <= j < m + n ==> !row[j]
  }

  ghost predicate RightZeroBelow(s: Progress, m: nat, n: nat)
    requires Shape(s, m, n)
  {
    forall i :: s.pivotRow <= i < m ==> RightZero(s.aug[i], m, n)
  }

  lemma LowerRightZero(s: Progress, m: nat, n: nat, pivots: seq<nat>)
    requires Shape(s, m, n) && Reduced(s, m, n, pivots) && !Scanning(s, m, n)
    ensures RightZeroBelow(s, m, n)
  {
  }

  lemma PivotRowNonzero(s: Progress, m: nat, n: nat, pivots: seq<nat>, i: nat)
    requires Shape(s, m, n) && Reduced(s, m, n, pivots) && i < s.pivotRow
    ensures !RightZero(s.aug[i], m, n)
  {
    assert s.aug[i][pivots[i]];
  }

  lemma LeftRowIsCombination(s: Progress, a: Matrix, m: nat, n: nat, i: nat)
    requires Shape(s, m, n) && Rect(a, m, n) && Tracks(s.aug, a, m, n) && i < m
    ensures Combine(s.aug[i][..m], a, n) == s.aug[i][m..]
  {
    hide Dot;
    var d := s.aug[i][..m];
    forall j | 0 <= j < n ensures Dot(d, a, j, m) == s.aug[i][m..][j] {
      DotSame(d, s.aug[i], a, a, j, j, m);
      assert s.aug[i][m + j] == Dot(s.aug[i], a, j, m);
    }
  }

  lemma LeftRowNonzero(aug: Matrix, m: nat, w: nat, i: nat)
    requires Rect(aug, m, w) && m <= w && LeftIndependent(aug, m) && i < m
    ensures !IsZero(aug[i][..m])
  {
    hide Dot;
    var d := aug[i][..m];
    var c := seq(m, k => k == i);
    forall j | 0 <= j < m ensures Dot(c, aug, j, m) == d[j] {
      DotUnit(c, aug, j, m, i);
    }
    assert LeftCombination(c, aug, m, d);
    assert c[i];
  }

  lemma DependenciesAreNull(s: Progress, a: Matrix, m: nat, n: nat, cap: nat, i: nat)
    requires Shape(s, m, n) && Rect(a, m, n) && Tracks(s.aug, a, m, n) && LeftIndependent(s.aug, m)
    requires RightZeroBelow(s, m, n) && i < |DependencyRows(s, m, n, cap)|
    ensures LeftNull(DependencyRows(s, m, n, cap)[i], a, n) && !IsZero(DependencyRows(s, m, n, cap)[i])
  {
    hide Dot;
    hide Tracks;
    hide LeftIndependent;
    var k := s.pivotRow + i;
    LeftRowIsCombination(s, a, m, n, k);
    LeftRowNonzero(s.aug, m, m + n, k);
    assert RightZero(s.aug[k], m, n);
    assert IsZero(s.aug[k][m..]);
  }

  /** Coefficients on the dependencies, moved to the rows they came from. */
  function Embed(c: Vec, p: nat, m: nat): (e: Vec)
    requires p + |c| <= m
    ensures |e| == m
  {
    seq(m, i => p <= i < p + |c| && c[i - p])
  }

  lemma EmbedCombination(s: Progress, m: nat, n: nat, cap: nat, c: Vec, j: nat)
    requires Shape(s, m, n) && |c| == |DependencyRows(s, m, n, cap)| && j < m
    ensures Dot(Embed(c, s.pivotRow, m), s.aug, j, m) == Dot(c, DependencyRows(s, m, n, cap), j, |c|)
  {
    hide Dot;
    var e, deps, p := Embed(c, s.pivotRow, m), DependencyRows(s, m, n, cap), s.pivotRow;
    DotTail(e, s.aug, j, p + |c|, m);
    DotShift(e, s.aug, c, deps, j, p, |c|);
  }

  lemma DependenciesIndependent(s: Progress, m: nat, n: nat, cap: nat)
    requires Shape(s, m, n) && LeftIndependent(s.aug, m)
    ensures Independent(DependencyRows(s, m, n, cap), m)
  {
    hide Dot;
    var deps, p := DependencyRows(s, m, n, cap), s.pivotRow;
    forall c: Vec | |c| == |deps| && IsZero(Combine(c, deps, m)) ensures IsZero(c) {
      var e := Embed(c, p, m);
      var zero := Combine(c, deps, m);
      forall j | 0 <= j < m ensures Dot(e, s.aug, j, m) == zero[j] {
        EmbedCombination(s, m, n, cap, c, j);
      }
      assert LeftCombination(e, s.aug, m, zero);
      EmbedZero(c, p, m);
    }
  }

  lemma EmbedZero(c: Vec, p: nat, m: nat)
    requires p + |c| <= m && IsZero(Embed(c, p, m))
    ensures IsZero(c)
  {
    forall i | 0 <= i < |c| ensures !c[i] {
      assert !Embed(c, p, m)[p + i];
    }
  }

  /** The right halves combine like the vectors their left halves combine to. */
  lemma RightCombination(s: Progress, a: Matrix, m: nat, n: nat, c: Vec, v: Vec, j: nat)
    requires Shape(s, m, n) && Rect(a, m, n) && Tracks(s.aug, a, m, n)
    requires |c| == m && |v| == m && LeftCombination(c, s.aug, m, v) && j < n
    ensures Dot(c, s.aug, m + j, m) == Dot(v, a, j, m)
  {
    hide Dot;
    DotExchange(c, s.aug, a, s.aug, v, m + j, j, m, m);
  }

  /** The combination giving a left-null vector uses no pivot row. */
  lemma NullUsesNoPivot(s: Progress, a: Matrix, m: nat, n: nat, pivots: seq<nat>, c: Vec, v: Vec, k: nat)
    requires Shape(s, m, n) && Rect(a, m, n) && Tracks(s.aug, a, m, n) && Reduced(s, m, n, pivots)
    requires |c| == m && |v| == m && LeftCombination(c, s.aug, m, v) && LeftNull(v, a, n) && k < s.pivotRow
    ensures !c[k]
  {
    hide Dot;
    hide Tracks;
    hide LeftCombination;
    var j := pivots[k] - m;
    RightCombination(s, a, m, n, c, v, j);
    CombineAt(v, a, n, j);
    assert forall i :: 0 <= i < m ==> s.aug[i][pivots[k]] == (i == k);
    DotColumnUnit(c, s.aug, pivots[k], m, k);
  }

  lemma TailCombination(s: Progress, m: nat, n: nat, cap: nat, c: Vec, v: Vec)
    requires Shape(s, m, n) && m - s.pivotRow <= cap && |c| == m && |v| == m
    requires LeftCombination(c, s.aug, m, v) && forall k :: 0 <= k < s.pivotRow ==> !c[k]
    ensures InSpan(v, DependencyRows(s, m, n, cap), m)
  {
    hide Dot;
    var p, deps := s.pivotRow, DependencyRows(s, m, n, cap);
    var d := c[p..];
    assert Embed(d, p, m) == c;
    forall j | 0 <= j < m ensures Combine(d, deps, m)[j] == v[j] {
      EmbedCombination(s, m, n, cap, d, j);
      assert Dot(c, s.aug, j, m) == v[j];
    }
    assert Combine(d, deps, m) == v;
  }

  lemma DependenciesSpan(s: Progress, a: Matrix, m: nat, n: nat, cap: nat, pivots: seq<nat>, v: Vec)
    requires Shape(s, m, n) && Rect(a, m, n) && Tracks(s.aug, a, m, n) && Reduced(s, m, n, pivots)
    requires LeftSpanning(s.aug, m) && m - s.pivotRow <= cap
    requires |v| == m && LeftNull(v, a, n)
    ensures InSpan(v, DependencyRows(s, m, n, cap), m)
  {
    hide Tracks;
    hide Reduced;
    hide LeftNull;
    hide InSpan;
    hide LeftCombination;
    var c: Vec :| |c| == m && LeftCombination(c, s.aug, m, v);
    forall k | 0 <= k < s.pivotRow ensures !c[k] {
      NullUsesNoPivot(s, a, m, n, pivots, c, v, k);
    }
    TailCombination(s, m, n, cap, c, v);
  }

  // ---------- the rank ----------

  function PivotBasis(s: Progress, m: nat, n: nat): (b: Matrix)
    requires Shape(s, m, n)
    ensures Rect(b, s.pivotRow, n)
  {
    seq(s.pivotRow, k requires 0 <= k < s.pivotRow => s.aug[k][m..])
  }

  lemma PivotBasisIndependent(s: Progress, m: nat, n: nat, pivots: seq<nat>)
    requires Shape(s, m, n) && Reduced(s, m, n, pivots)
    ensures Independent(PivotBasis(s, m, n), n)
  {
    hide Dot;
    var b, p := PivotBasis(s, m, n), s.pivotRow;
    forall c: Vec | |c| == p && IsZero(Combine(c, b, n)) ensures IsZero(c) {
      forall k | 0 <= k < p ensures !c[k] {
        var j := pivots[k] - m;
        DotColumnUnit(c, b, j, p, k);
        CombineAt(c, b, n, j);
      }
    }
  }

  lemma PivotBasisSpans(s: Progress, a: Matrix, m: nat, n: nat, i: nat)
    requires Shape(s, m, n) && Rect(a, m, n) && Tracks(s.aug, a, m, n) && LeftSpanning(s.aug, m)
    requires RightZeroBelow(s, m, n) && i < m
    ensures InSpan(a[i], PivotBasis(s, m, n), n)
  {
    hide Tracks;
    hide LeftCombination;
    hide RightZeroBelow;
    hide InSpan;
    var unit := seq(m, k => k == i);
    var c := Reaches(s.aug, m, unit);
    RowFromPivots(s, a, m, n, i, c, unit);
  }

  lemma Reaches(aug: Matrix, m: nat, v: Vec) returns (c: Vec)
    requires |aug| == m && (forall i :: 0 <= i < m ==> m <= |aug[i]|) && LeftSpanning(aug, m) && |v| == m
    ensures |c| == m && LeftCombination(c, aug, m, v)
  {
    hide LeftCombination;
    c :| |c| == m && LeftCombination(c, aug, m, v);
  }

  lemma RowFromPivots(s: Progress, a: Matrix, m: nat, n: nat, i: nat, c: Vec, unit: Vec)
    requires Shape(s, m, n) && Rect(a, m, n) && Tracks(s.aug, a, m, n)
    requires RightZeroBelow(s, m, n) && i < m
    requires unit == seq(m, k => k == i) && |c| == m && LeftCombination(c, s.aug, m, unit)
    ensures InSpan(a[i], PivotBasis(s, m, n), n)
  {
    hide Dot;
    hide Tracks;
    hide LeftCombination;
    hide RightZeroBelow;
    hide InSpan;
    var b, p := PivotBasis(s, m, n), s.pivotRow;
    forall j | 0 <= j < n ensures Dot(c[..p], b, j, p) == a[i][j] {
      RightCombination(s, a, m, n, c, unit, j);
      DotUnit(unit, a, j, m, i);
      UpperRows(s, m, n, c, j);
    }
    SpanIntro(c[..p], b, a[i], n);
  }

  lemma SpanIntro(c: Vec, b: Matrix, v: Vec, n: nat)
    requires |c| == |b| && Rect(b, |b|, n) && |v| == n
    requires forall j :: 0 <= j < n ==> Dot(c, b, j, |b|) == v[j]
    ensures InSpan(v, b, n)
  {
    assert Combine(c, b, n) == v;
  }

  lemma UpperRows(s: Progress, m: nat, n: nat, c: Vec, j: nat)
    requires Shape(s, m, n) && RightZeroBelow(s, m, n) && |c| == m && j < n
    ensures Dot(c[..s.pivotRow], PivotBasis(s, m, n), j, s.pivotRow) == Dot(c, s.aug, m + j, m)
  {
    hide Dot;
    var p := s.pivotRow;
    assert forall i :: p <= i < m ==> !s.aug[i][m + j];
    DotTail(c, s.aug, m + j, p, m);
    DotSame(c, c[..p], s.aug, PivotBasis(s, m, n), m + j, j, p);
  }

  lemma RankIsPivotCount(s: Progress, a: Matrix, m: nat, n: nat, pivots: seq<nat>)
    requires Shape(s, m, n) && Rect(a, m, n) && Tracks(s.aug, a, m, n) && LeftSpanning(s.aug, m)
    requires RightZeroBelow(s, m, n) && Reduced(s, m, n, pivots)
    ensures HasRank(a, n, s.pivotRow)
  {
    hide Dot;
    hide Tracks;
    hide LeftSpanning;
    hide RightZeroBelow;
    hide Reduced;
    hide Independent;
    hide InSpan;
    var b := PivotBasis(s, m, n);
    PivotBasisIndependent(s, m, n, pivots);
    forall i | 0 <= i < m ensures InSpan(a[i], b, n) {
      PivotBasisSpans(s, a, m, n, i);
    }
    forall k | 0 <= k < |b| ensures InSpan(b[k], a, n) {
      PivotRowInSpan(s, a, m, n, k);
    }
    assert IsRowBasis(b, a, n);
  }

  lemma PivotRowInSpan(s: Progress, a: Matrix, m: nat, n: nat, k: nat)
    requires Shape(s, m, n) && Rect(a, m, n) && Tracks(s.aug, a, m, n) && k < s.pivotRow
    ensures InSpan(PivotBasis(s, m, n)[k], a, n)
  {
    hide Tracks;
    LeftRowIsCombination(s, a, m, n, k);
  }

  lemma {:induction false} AscendingBound(pivots: seq<nat>, lo: nat, hi: nat)
    requires forall k :: 0 <= k < |pivots| ==> lo <= pivots[k] < hi
    requires forall k, l :: 0 <= k < l < |pivots| ==> pivots[k] < pivots[l]
    ensures |pivots| > 0 ==> lo + |pivots| <= hi
  {
    if |pivots| > 1 {
      AscendingBound(pivots[..|pivots| - 1], lo, pivots[|pivots| - 1]);
    }
  }

  lemma PivotBound(s: Progress, m: nat, n: nat, pivots: seq<nat>)
    requires Shape(s, m, n) && Reduced(s, m, n, pivots)
    ensures s.pivotRow <= s.col - m && s.pivotRow <= n
  {
    AscendingBound(pivots, m, s.col);
  }

  /** Everything the scan's end state gives, with its pivot columns. */
  lemma Finished(a: Matrix, m: nat, n: nat) returns (s: Progress, pivots: seq<nat>)
    requires Rect(a, m, n)
    ensures s == Finish(Start(a, m, n), m, n) && Shape(s, m, n)
    ensures Tracks(s.aug, a, m, n) && LeftIndependent(s.aug, m) && LeftSpanning(s.aug, m)
    ensures Reduced(s, m, n, pivots) && RightZeroBelow(s, m, n)
    ensures s.pivotRow <= m && s.pivotRow <= n
  {
    hide Tracks;
    hide LeftIndependent;
    hide LeftSpanning;
    hide Reduced;
    hide RightZeroBelow;
    hide Start;
    s := Finish(Start(a, m, n), m, n);
    StartInvariant(a, m, n);
    FinishInvariant(Start(a, m, n), a, m, n);
    hide Finish;
    pivots :| Reduced(s, m, n, pivots);
    LowerRightZero(s, m, n, pivots);
    PivotBound(s, m, n, pivots);
  }

  /** More rows than columns: some nonzero combination of the rows vanishes. */
  lemma MoreRowsThanColumns(a: Matrix, m: nat, n: nat) returns (d: Vec)
    requires Rect(a, m, n) && m > n
    ensures |d| == m && !IsZero(d) && LeftNull(d, a, n)
  {
    hide Tracks;
    hide LeftIndependent;
    hide LeftSpanning;
    hide Reduced;
    hide RightZeroBelow;
    hide Finish;
    hide LeftNull;
    hide IsZero;
    var s, pivots := Finished(a, m, n);
    DependenciesAreNull(s, a, m, n, 1, 0);
    d := DependencyRows(s, m, n, 1)[0];
  }

  /** Steinitz: independent vectors in the span of b are no more than b has. */
  lemma IndependentInSpan(rows: Matrix, b: Matrix, n: nat)
    requires Rect(rows, |rows|, n) && Rect(b, |b|, n) && SpansAll(b, rows, n) && Independent(rows, n)
    ensures |rows| <= |b|
  {
    if |rows| > |b| {
      var l := Coefficients(rows, b, n);
      var d := MoreRowsThanColumns(l, |rows|, |b|);
      CombineTwice(d, l, b, rows, n);
      ZeroCombination(Combine(d, l, |b|), b, n);
      assert false;
    }
  }

  lemma ZeroCombination(c: Vec, b: Matrix, n: nat)
    requires |c| == |b| && Rect(b, |b|, n) && IsZero(c)
    ensures IsZero(Combine(c, b, n))
  {
    forall j | 0 <= j < n ensures !Combine(c, b, n)[j] {
      DotZero(c, b, j, |b|);
    }
  }

  /** The rank is well defined. */
  lemma RankUnique(a: Matrix, n: nat, r1: nat, r2: nat)
    requires Rect(a, |a|, n) && HasRank(a, n, r1) && HasRank(a, n, r2)
    ensures r1 == r2
  {
    hide Dot;
    hide Independent;
    var b1: Matrix :| Rect(b1, r1, n) && IsRowBasis(b1, a, n);
    var b2: Matrix :| Rect(b2, r2, n) && IsRowBasis(b2, a, n);
    forall i | 0 <= i < |b1| ensures InSpan(b1[i], b2, n) {
      SpanTransitive(b1[i], a, b2, n);
    }
    forall i | 0 <= i < |b2| ensures InSpan(b2[i], b1, n) {
      SpanTransitive(b2[i], a, b1, n);
    }
    IndependentInSpan(b1, b2, n);
    IndependentInSpan(b2, b1, n);
  }

  // ---------- the main statement ----------

  /** The dependencies of a, by running the scan to its end. */
  function SolveDependencies(a: Matrix, m: nat, n: nat, cap: nat): (deps: Matrix)
    requires Rect(a, m, n)
  {
    DependencyRows(Finish(Start(a, m, n), m, n), m, n, cap)
  }

  /** Sound, independent, of the exact size, and complete up to the cap. */
  lemma DependenciesCorrect(a: Matrix, m: nat, n: nat, cap: nat)
    requires Rect(a, m, n)
    ensures IsDependencyList(SolveDependencies(a, m, n, cap), a, m, n, cap)
  {
    hide Tracks;
    hide LeftIndependent;
    hide LeftSpanning;
    hide Reduced;
    hide RightZeroBelow;
    hide Finish;
    hide Independent;
    hide LeftNull;
    hide IsZero;
    hide InSpan;
    hide HasRank;
    var s, pivots := Finished(a, m, n);
    var deps := SolveDependencies(a, m, n, cap);
    RankIsPivotCount(s, a, m, n, pivots);
    DependenciesIndependent(s, m, n, cap);
    forall i | 0 <= i < |deps| ensures LeftNull(deps[i], a, n) && !IsZero(deps[i]) {
      DependenciesAreNull(s, a, m, n, cap, i);
    }
    if m - s.pivotRow <= cap {
      forall v: Vec | |v| == m && LeftNull(v, a, n) ensures InSpan(v, deps, m) {
        DependenciesSpan(s, a, m, n, cap, pivots, v);
      }
      assert SpansLeftNull(deps, a, m, n);
    }
  }

  /** With more rows than columns there are at least min(cap, m - n) dependencies. */
  lemma SurplusRows(a: Matrix, m: nat, n: nat, cap: nat)
    requires Rect(a, m, n) && m > n
    ensures |SolveDependencies(a, m, n, cap)| >= Min(cap, m - n)
  {
    hide Tracks;
    hide LeftIndependent;
    hide LeftSpanning;
    hide Reduced;
    hide RightZeroBelow;
    hide Finish;
    var s, pivots := Finished(a, m, n);
  }
}
