module Elimination {
  /**
   Gauss-Jordan elimination on the augmented matrix [I | M] (src/linalg/block_lanczos.cpp):
   the steps as functions, the invariant every step keeps, and what follows when the scan ends.
   */

  import opened GF2

  // ---------- row operations ----------

  function XorRow(a: Matrix, dst: nat, src: nat): (r: Matrix)
    requires dst < |a| && src < |a| && |a[dst]| == |a[src]|
    ensures |r| == |a| && forall i :: 0 <= i < |a| ==> |r[i]| == |a[i]|
  {
    a[dst := XorVec(a[dst], a[src])]
  }

  function SwapRows(a: Matrix, p: nat, q: nat): Matrix
    requires p < |a| && q < |a|
  {
    a[p := a[q]][q := a[p]]
  }

  /** Rows below k other than the pivot that have a one in the column get the pivot row added. */
  function EliminateUpTo(a: Matrix, pivot: nat, col: nat, w: nat, k: nat): (r: Matrix)
    requires Rect(a, |a|, w) && pivot < |a| && col < w && k <= |a|
    ensures Rect(r, |a|, w)
    ensures forall i :: 0 <= i < |a| ==>
              r[i] == if i < k && i != pivot && a[i][col] then XorVec(a[i], a[pivot]) else a[i]
  {
    if k == 0 then a
    else
      var b := EliminateUpTo(a, pivot, col, w, k - 1);
      if k - 1 != pivot && b[k - 1][col] then XorRow(b, k - 1, pivot) else b
  }

  function Eliminate(a: Matrix, pivot: nat, col: nat, w: nat): (r: Matrix)
    requires Rect(a, |a|, w) && pivot < |a| && col < w
    ensures Rect(r, |a|, w)
  {
    EliminateUpTo(a, pivot, col, w, |a|)
  }

  /** The first row at or after `from` with a one in the column, or |a|. */
  function FirstRow(a: Matrix, col: nat, from: nat, w: nat): (r: nat)
    requires Rect(a, |a|, w) && col < w && from <= |a|
    ensures from <= r <= |a|
    ensures forall i :: from <= i < r ==> !a[i][col]
    ensures r < |a| ==> a[r][col]
    decreases |a| - from
  {
    if from == |a| || a[from][col] then from else FirstRow(a, col, from + 1, w)
  }

  // ---------- the scan ----------

  datatype Progress = Progress(aug: Matrix, pivotRow: nat, col: nat, iteration: nat)

  predicate Shape(s: Progress, m: nat, n: nat) {
    Rect(s.aug, m, m + n) && m <= s.col <= m + n && s.pivotRow <= m
  }

  predicate Scanning(s: Progress, m: nat, n: nat) {
    s.col < m + n && s.pivotRow < m
  }

  /** One column of the scan. */
  function Step(s: Progress, m: nat, n: nat): (t: Progress)
    requires Shape(s, m, n) && Scanning(s, m, n)
    ensures Shape(t, m, n) && t.col == s.col + 1
  {
    var best := FirstRow(s.aug, s.col, s.pivotRow, m + n);
    if best == m then
      s.(col := s.col + 1)
    else
      var a := if best != s.pivotRow then SwapRows(s.aug, s.pivotRow, best) else s.aug;
      Progress(Eliminate(a, s.pivotRow, s.col, m + n), s.pivotRow + 1, s.col + 1, s.iteration + 1)
  }

  function Finish(s: Progress, m: nat, n: nat): (t: Progress)
    requires Shape(s, m, n)
    ensures Shape(t, m, n) && !Scanning(t, m, n)
    decreases m + n - s.col
  {
    if Scanning(s, m, n) then Finish(Step(s, m, n), m, n) else s
  }

  /** The augmented matrix [I | M]. */
  function Augment(a: Matrix, m: nat, n: nat): (r: Matrix)
    requires Rect(a, m, n)
    ensures Rect(r, m, m + n)
  {
    seq(m, i requires 0 <= i < m => seq(m, k => k == i) + a[i])
  }

  function Start(a: Matrix, m: nat, n: nat): (s: Progress)
    requires Rect(a, m, n)
    ensures Shape(s, m, n)
  {
    Progress(Augment(a, m, n), 0, m, 0)
  }

  // ---------- the invariant ----------

  /** The right half of every row is the combination of M its left half names. */
  ghost predicate Tracks(aug: Matrix, a: Matrix, m: nat, n: nat)
    requires Rect(aug, m, m + n) && Rect(a, m, n)
  {
    forall i, j :: 0 <= i < m && 0 <= j < n ==> aug[i][m + j] == Dot(aug[i], a, j, m)
  }

  ghost predicate LeftCombination(c: Vec, aug: Matrix, m: nat, v: Vec)
    requires |c| == m && |v| == m && |aug| == m && forall i :: 0 <= i < m ==> m <= |aug[i]|
  {
    forall j :: 0 <= j < m ==> Dot(c, aug, j, m) == v[j]
  }

  ghost predicate LeftIndependent(aug: Matrix, m: nat)
    requires |aug| == m && forall i :: 0 <= i < m ==> m <= |aug[i]|
  {
    forall c: Vec, v: Vec :: |c| == m && |v| == m && IsZero(v) && LeftCombination(c, aug, m, v) ==> IsZero(c)
  }

  ghost predicate LeftSpanning(aug: Matrix, m: nat)
    requires |aug| == m && forall i :: 0 <= i < m ==> m <= |aug[i]|
  {
    forall v: Vec :: |v| == m ==> exists c: Vec :: |c| == m && LeftCombination(c, aug, m, v)
  }

  /** The left half is invertible: its rows are independent and reach every vector. */
  ghost predicate LeftInvertible(aug: Matrix, m: nat)
    requires |aug| == m && forall i :: 0 <= i < m ==> m <= |aug[i]|
  {
    LeftIndependent(aug, m) && LeftSpanning(aug, m)
  }

  /** Reduced row echelon form on the scanned columns, with the given pivot columns. */
  ghost predicate Reduced(s: Progress, m: nat, n: nat, pivots: seq<nat>)
    requires Shape(s, m, n)
  {
    && |pivots| == s.pivotRow
    && (forall k :: 0 <= k < |pivots| ==> m <= pivots[k] < s.col)
    && (forall k, l :: 0 <= k < l < |pivots| ==> pivots[k] < pivots[l])
    && (forall i, k :: 0 <= i < m && 0 <= k < |pivots| ==> s.aug[i][pivots[k]] == (i == k))
    && (forall i, j :: s.pivotRow <= i < m && m <= j < s.col ==> !s.aug[i][j])
  }

  ghost predicate Invariant(s: Progress, a: Matrix, m: nat, n: nat) {
    && Rect(a, m, n) && Shape(s, m, n)
    && Tracks(s.aug, a, m, n)
    && LeftInvertible(s.aug, m)
    && exists pivots: seq<nat> :: Reduced(s, m, n, pivots)
  }

  // ---------- row operations keep the invariant ----------

  /** c * XorRow(a) is (c with src changed by c[dst]) * a. */
  lemma {:induction false} DotXorRow(c: Vec, a: Matrix, dst: nat, src: nat, j: nat, k: nat)
    requires k <= |c| == |a| && dst < |a| && src < |a| && dst != src && |a[dst]| == |a[src]|
    requires forall i :: 0 <= i < |a| ==> j < |a[i]|
    ensures Dot(c, XorRow(a, dst, src), j, k)
         == (Dot(c[src := c[src] != c[dst]], a, j, k) != (((dst < k) != (src < k)) && c[dst] && a[src][j]))
  {
    if k > 0 {
      DotXorRow(c, a, dst, src, j, k - 1);
    }
  }

  lemma XorRowTracks(aug: Matrix, a: Matrix, m: nat, n: nat, dst: nat, src: nat)
    requires Rect(aug, m, m + n) && Rect(a, m, n) && dst < m && src < m && Tracks(aug, a, m, n)
    ensures Tracks(XorRow(aug, dst, src), a, m, n)
  {
    var b := XorRow(aug, dst, src);
    forall i, j | 0 <= i < m && 0 <= j < n ensures b[i][m + j] == Dot(b[i], a, j, m) {
      DotXor(aug[dst], aug[src], b[dst], a, j, m);
      assert aug[i][m + j] == Dot(aug[i], a, j, m);
      assert aug[src][m + j] == Dot(aug[src], a, j, m);
    }
  }

  lemma XorRowInvertible(aug: Matrix, m: nat, w: nat, dst: nat, src: nat)
    requires Rect(aug, m, w) && m <= w && dst < m && src < m && dst != src && LeftInvertible(aug, m)
    ensures LeftInvertible(XorRow(aug, dst, src), m)
  {
    var b := XorRow(aug, dst, src);
    KeepIndependent(aug, b, m, w, dst, src);
    KeepSpanning(aug, b, m, w, dst, src);
  }

  lemma KeepIndependent(aug: Matrix, b: Matrix, m: nat, w: nat, dst: nat, src: nat)
    requires Rect(aug, m, w) && Rect(b, m, w) && m <= w && dst < m && src < m && dst != src
    requires b == XorRow(aug, dst, src) && LeftIndependent(aug, m)
    ensures LeftIndependent(b, m)
  {
    hide LeftCombination;
    hide IsZero;
    hide XorRow;
    forall c: Vec, v: Vec | |c| == m && |v| == m && IsZero(v) && LeftCombination(c, b, m, v)
      ensures IsZero(c)
    {
      var e := c[src := c[src] != c[dst]];
      MoveCombination(c, e, aug, m, w, dst, src, v);
      MovedZero(c, e, dst, src);
    }
  }

  lemma KeepSpanning(aug: Matrix, b: Matrix, m: nat, w: nat, dst: nat, src: nat)
    requires Rect(aug, m, w) && Rect(b, m, w) && m <= w && dst < m && src < m && dst != src
    requires b == XorRow(aug, dst, src) && LeftSpanning(aug, m)
    ensures LeftSpanning(b, m)
  {
    hide LeftCombination;
    hide XorRow;
    forall v: Vec | |v| == m ensures exists c: Vec :: |c| == m && LeftCombination(c, b, m, v) {
      var c := PullCombination(aug, b, m, w, dst, src, v);
    }
  }

  lemma PullCombination(aug: Matrix, b: Matrix, m: nat, w: nat, dst: nat, src: nat, v: Vec) returns (c: Vec)
    requires Rect(aug, m, w) && Rect(b, m, w) && m <= w && dst < m && src < m && dst != src && |v| == m
    requires b == XorRow(aug, dst, src) && LeftSpanning(aug, m)
    ensures |c| == m && LeftCombination(c, b, m, v)
  {
    hide LeftCombination;
    hide XorRow;
    var e: Vec :| |e| == m && LeftCombination(e, aug, m, v);
    c := Toggle(e, dst, src);
    MoveCombination(c, e, aug, m, w, dst, src, v);
  }

  function Toggle(e: Vec, dst: nat, src: nat): (c: Vec)
    requires dst < |e| && src < |e| && dst != src
    ensures |c| == |e| && c[src := c[src] != c[dst]] == e
  {
    e[src := e[src] != e[dst]]
  }

  lemma MovedZero(c: Vec, e: Vec, dst: nat, src: nat)
    requires dst < |c| && src < |c| && dst != src && e == c[src := c[src] != c[dst]] && IsZero(e)
    ensures IsZero(c)
  {
    assert !e[dst] && !e[src];
    assert forall i :: 0 <= i < |c| && i != src ==> c[i] == e[i];
  }

  lemma MoveCombination(c: Vec, e: Vec, aug: Matrix, m: nat, w: nat, dst: nat, src: nat, v: Vec)
    requires Rect(aug, m, w) && m <= w && dst < m && src < m && dst != src && |c| == m && |v| == m
    requires e == c[src := c[src] != c[dst]]
    ensures LeftCombination(c, XorRow(aug, dst, src), m, v) <==> LeftCombination(e, aug, m, v)
  {
    forall j | 0 <= j < m ensures Dot(c, XorRow(aug, dst, src), j, m) == Dot(e, aug, j, m) {
      DotXorRow(c, aug, dst, src, j, m);
    }
  }

  /** Over GF(2) a swap is three additions. */
  lemma SwapIsThreeXors(a: Matrix, w: nat, p: nat, q: nat)
    requires Rect(a, |a|, w) && p < |a| && q < |a| && p != q
    ensures SwapRows(a, p, q) == XorRow(XorRow(XorRow(a, p, q), q, p), p, q)
  {
    var x := XorRow(a, p, q);
    var y := XorRow(x, q, p);
    var z := XorRow(y, p, q);
    assert y[q] == a[p];
    assert z[p] == a[q];
  }

  lemma SwapKeeps(aug: Matrix, a: Matrix, m: nat, n: nat, p: nat, q: nat)
    requires Rect(aug, m, m + n) && Rect(a, m, n) && p < m && q < m && p != q
    requires Tracks(aug, a, m, n) && LeftInvertible(aug, m)
    ensures Rect(SwapRows(aug, p, q), m, m + n)
    ensures Tracks(SwapRows(aug, p, q), a, m, n) && LeftInvertible(SwapRows(aug, p, q), m)
  {
    hide Tracks;
    hide LeftInvertible;
    hide XorRow;
    var x := XorRow(aug, p, q);
    var y := XorRow(x, q, p);
    XorRowTracks(aug, a, m, n, p, q);
    XorRowTracks(x, a, m, n, q, p);
    XorRowTracks(y, a, m, n, p, q);
    XorRowInvertible(aug, m, m + n, p, q);
    XorRowInvertible(x, m, m + n, q, p);
    XorRowInvertible(y, m, m + n, p, q);
    SwapIsThreeXors(aug, m + n, p, q);
  }

  lemma {:induction false} EliminateKeeps(aug: Matrix, a: Matrix, m: nat, n: nat, pivot: nat, col: nat, k: nat)
    requires Rect(aug, m, m + n) && Rect(a, m, n) && pivot < m && col < m + n && k <= m
    requires Tracks(aug, a, m, n) && LeftInvertible(aug, m)
    ensures Tracks(EliminateUpTo(aug, pivot, col, m + n, k), a, m, n)
    ensures LeftInvertible(EliminateUpTo(aug, pivot, col, m + n, k), m)
  {
    hide Tracks;
    hide LeftInvertible;
    hide XorRow;
    if k > 0 {
      EliminateKeeps(aug, a, m, n, pivot, col, k - 1);
      var b := EliminateUpTo(aug, pivot, col, m + n, k - 1);
      if k - 1 != pivot && b[k - 1][col] {
        XorRowTracks(b, a, m, n, k - 1, pivot);
        XorRowInvertible(b, m, m + n, k - 1, pivot);
      }
    }
  }

  lemma StepKeepsReduced(s: Progress, m: nat, n: nat, pivots: seq<nat>) returns (pivots': seq<nat>)
    requires Shape(s, m, n) && Scanning(s, m, n) && Reduced(s, m, n, pivots)
    ensures Reduced(Step(s, m, n), m, n, pivots')
  {
    hide Eliminate;
    hide Reduced;
    var best := FirstRow(s.aug, s.col, s.pivotRow, m + n);
    if best == m {
      pivots' := pivots;
      SkipKeepsReduced(s, m, n, pivots);
    } else {
      pivots' := pivots + [s.col];
      PivotKeepsReduced(s, m, n, pivots, best);
    }
  }

  lemma SkipKeepsReduced(s: Progress, m: nat, n: nat, pivots: seq<nat>)
    requires Shape(s, m, n) && Scanning(s, m, n) && Reduced(s, m, n, pivots)
    requires forall i :: s.pivotRow <= i < m ==> !s.aug[i][s.col]
    ensures Reduced(s.(col := s.col + 1), m, n, pivots)
  {
  }

  lemma PivotKeepsReduced(s: Progress, m: nat, n: nat, pivots: seq<nat>, best: nat)
    requires Shape(s, m, n) && Scanning(s, m, n) && Reduced(s, m, n, pivots)
    requires s.pivotRow <= best < m && s.aug[best][s.col]
    ensures var a := if best != s.pivotRow then SwapRows(s.aug, s.pivotRow, best) else s.aug;
            Rect(a, m, m + n) &&
            Reduced(Progress(Eliminate(a, s.pivotRow, s.col, m + n), s.pivotRow + 1, s.col + 1, s.iteration + 1),
                    m, n, pivots + [s.col])
  {
    var p, col := s.pivotRow, s.col;
    var a := if best != p then SwapRows(s.aug, p, best) else s.aug;
    var after := Eliminate(a, p, col, m + n);
    PivotColumnsAfterStep(s.aug, a, after, m, n, p, best, col, pivots);
    LowerRowsAfterStep(s.aug, a, after, m, n, p, best, col);
    hide Eliminate;
    hide SwapRows;
    var pivots' := pivots + [col];
    assert forall k, l :: 0 <= k < l < |pivots'| ==> pivots'[k] < pivots'[l];
    assert forall k :: 0 <= k < |pivots'| ==> m <= pivots'[k] < col + 1;
  }

  lemma LowerRowsAfterStep(before: Matrix, a: Matrix, after: Matrix, m: nat, n: nat, p: nat, best: nat, col: nat)
    requires Rect(before, m, m + n) && p <= best < m && m <= col < m + n && before[best][col]
    requires forall i, j :: p <= i < m && m <= j < col ==> !before[i][j]
    requires a == if best != p then SwapRows(before, p, best) else before
    requires after == Eliminate(a, p, col, m + n)
    ensures forall i, j :: p + 1 <= i < m && m <= j < col + 1 ==> !after[i][j]
  {
    forall i, j | p + 1 <= i < m && m <= j < col + 1 ensures !after[i][j] {
      assert after[i] == if a[i][col] then XorVec(a[i], a[p]) else a[i];
      assert j < col ==> !a[i][j] && !a[p][j];
    }
  }

  lemma PivotColumnsAfterStep(before: Matrix, a: Matrix, after: Matrix, m: nat, n: nat, p: nat, best: nat, col: nat, pivots: seq<nat>)
    requires Rect(before, m, m + n) && p <= best < m && m <= col < m + n && |pivots| == p
    requires forall k :: 0 <= k < p ==> m <= pivots[k] < col
    requires forall i, k :: 0 <= i < m && 0 <= k < p ==> before[i][pivots[k]] == (i == k)
    requires before[best][col]
    requires a == if best != p then SwapRows(before, p, best) else before
    requires after == Eliminate(a, p, col, m + n)
    ensures forall i, k :: 0 <= i < m && 0 <= k < p + 1 ==> after[i][(pivots + [col])[k]] == (i == k)
  {
    hide Eliminate;
    hide XorVec;
    SwappedPivots(before, a, m, n, p, best, col, pivots);
    hide SwapRows;
    NewPivotColumn(a, after, m, n, p, col);
    forall k | 0 <= k < p ensures forall i :: 0 <= i < m ==> after[i][pivots[k]] == (i == k) {
      OldPivotColumn(a, after, m, n, p, col, k, pivots[k]);
    }
  }

  /** The swap leaves the old pivot columns alone and brings a one to the new one. */
  lemma SwappedPivots(before: Matrix, a: Matrix, m: nat, n: nat, p: nat, best: nat, col: nat, pivots: seq<nat>)
    requires Rect(before, m, m + n) && p <= best < m && m <= col < m + n && |pivots| == p
    requires forall k :: 0 <= k < p ==> m <= pivots[k] < col
    requires forall i, k :: 0 <= i < m && 0 <= k < p ==> before[i][pivots[k]] == (i == k)
    requires before[best][col]
    requires a == if best != p then SwapRows(before, p, best) else before
    ensures Rect(a, m, m + n) && a[p][col]
    ensures forall i, k :: 0 <= i < m && 0 <= k < p ==> a[i][pivots[k]] == (i == k)
  {
    if best != p {
      assert forall i :: 0 <= i < m ==> a[i] == before[if i == p then best else if i == best then p else i];
    }
  }

  lemma NewPivotColumn(a: Matrix, after: Matrix, m: nat, n: nat, p: nat, col: nat)
    requires Rect(a, m, m + n) && p < m && m <= col < m + n && a[p][col] && after == Eliminate(a, p, col, m + n)
    ensures forall i :: 0 <= i < m ==> after[i][col] == (i == p)
  {
    forall i | 0 <= i < m ensures after[i][col] == (i == p) {
      assert after[i] == if i != p && a[i][col] then XorVec(a[i], a[p]) else a[i];
    }
  }

  lemma OldPivotColumn(a: Matrix, after: Matrix, m: nat, n: nat, p: nat, col: nat, k: nat, pivot: nat)
    requires Rect(a, m, m + n) && k < p < m && m <= pivot < col < m + n && after == Eliminate(a, p, col, m + n)
    requires forall i :: 0 <= i < m ==> a[i][pivot] == (i == k)
    ensures forall i :: 0 <= i < m ==> after[i][pivot] == (i == k)
  {
    forall i | 0 <= i < m ensures after[i][pivot] == (i == k) {
      assert after[i] == if i != p && a[i][col] then XorVec(a[i], a[p]) else a[i];
      assert !a[p][pivot];
    }
  }

  /** Every step of the scan keeps the invariant. */
  lemma StepKeepsInvariant(s: Progress, a: Matrix, m: nat, n: nat)
    requires Invariant(s, a, m, n) && Scanning(s, m, n)
    ensures Invariant(Step(s, m, n), a, m, n)
  {
    hide Tracks;
    hide LeftInvertible;
    hide SwapRows;
    hide FirstRow;
    var pivots: seq<nat> :| Reduced(s, m, n, pivots);
    var pivots' := StepKeepsReduced(s, m, n, pivots);
    hide Reduced;
    var best := FirstRow(s.aug, s.col, s.pivotRow, m + n);
    if best < m {
      var b := s.aug;
      if best != s.pivotRow {
        SwapKeeps(s.aug, a, m, n, s.pivotRow, best);
        b := SwapRows(s.aug, s.pivotRow, best);
      }
      EliminateKeeps(b, a, m, n, s.pivotRow, s.col, m);
    }
  }

  lemma StartInvariant(a: Matrix, m: nat, n: nat)
    requires Rect(a, m, n)
    ensures Invariant(Start(a, m, n), a, m, n)
  {
    var aug := Augment(a, m, n);
    forall i, j | 0 <= i < m && 0 <= j < n ensures aug[i][m + j] == Dot(aug[i], a, j, m) {
      DotUnit(aug[i], a, j, m, i);
    }
    AugmentInvertible(aug, m, m + n);
    assert Reduced(Start(a, m, n), m, n, []);
  }

  lemma AugmentInvertible(aug: Matrix, m: nat, w: nat)
    requires Rect(aug, m, w) && m <= w
    requires forall i, k :: 0 <= i < m && 0 <= k < m ==> aug[i][k] == (i == k)
    ensures LeftInvertible(aug, m)
  {
    hide Dot;
    forall c: Vec, j | |c| == m && 0 <= j < m ensures Dot(c, aug, j, m) == c[j] {
      DotColumnUnit(c, aug, j, m, j);
    }
    forall v: Vec | |v| == m ensures exists c: Vec :: |c| == m && LeftCombination(c, aug, m, v) {
      assert LeftCombination(v, aug, m, v);
    }
    forall c: Vec, v: Vec | |c| == m && |v| == m && IsZero(v) && LeftCombination(c, aug, m, v)
      ensures IsZero(c)
    {
      assert forall j :: 0 <= j < m ==> Dot(c, aug, j, m) == v[j];
    }
  }

  lemma {:induction false} FinishInvariant(s: Progress, a: Matrix, m: nat, n: nat)
    requires Invariant(s, a, m, n)
    ensures Invariant(Finish(s, m, n), a, m, n)
    decreases m + n - s.col
  {
    if Scanning(s, m, n) {
      StepKeepsInvariant(s, a, m, n);
      FinishInvariant(Step(s, m, n), a, m, n);
    }
  }
}
