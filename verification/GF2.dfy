/**
 Vectors and matrices over the field with two elements: combinations of rows,
 independence, spans and rank.

 A combination c * a adds the rows of a that c names; `Dot` is one of its columns.  Rank is
 defined by the existence of an independent list of vectors that spans the same row space,
 so that it says nothing about elimination.
 The sums are defined by recursion on the number of rows, and every law about them is proved one column
 at a time.
 */
module GF2 {
  type Vec = seq<bool>
  type Matrix = seq<Vec>

  predicate Rect(a: Matrix, m: nat, n: nat) {
    |a| == m && forall i :: 0 <= i < m ==> |a[i]| == n
  }

  /** Column j of the sum of the rows i < k with c[i] set. */
  function Dot(c: Vec, a: Matrix, j: nat, k: nat): bool
    requires k <= |c| && k <= |a| && forall i :: 0 <= i < k ==> j < |a[i]|
  {
    if k == 0 then false else Dot(c, a, j, k - 1) != (c[k - 1] && a[k - 1][j])
  }

  predicate IsZero(v: Vec) {
    forall i :: 0 <= i < |v| ==> !v[i]
  }

  /** The combination c * a: the sum of the rows named by c. */
  function Combine(c: Vec, a: Matrix, n: nat): Vec
    requires |c| == |a| && Rect(a, |a|, n)
  {
    seq(n, j requires 0 <= j < n => Dot(c, a, j, |a|))
  }

  ghost predicate Independent(a: Matrix, n: nat)
    requires Rect(a, |a|, n)
  {
    forall c: Vec :: |c| == |a| && IsZero(Combine(c, a, n)) ==> IsZero(c)
  }

  ghost predicate InSpan(v: Vec, a: Matrix, n: nat)
    requires Rect(a, |a|, n) && |v| == n
  {
    exists c: Vec :: |c| == |a| && Combine(c, a, n) == v
  }

  ghost predicate SpansAll(a: Matrix, b: Matrix, n: nat)
    requires Rect(a, |a|, n) && Rect(b, |b|, n)
  {
    forall i :: 0 <= i < |b| ==> InSpan(b[i], a, n)
  }

  /** r is the rank of a: some r independent vectors span the same row space. */
  ghost predicate HasRank(a: Matrix, n: nat, r: nat)
    requires Rect(a, |a|, n)
  {
    exists basis: Matrix :: Rect(basis, r, n) && IsRowBasis(basis, a, n)
  }

  ghost predicate IsRowBasis(basis: Matrix, a: Matrix, n: nat)
    requires Rect(basis, |basis|, n) && Rect(a, |a|, n)
  {
    Independent(basis, n) && SpansAll(basis, a, n) && SpansAll(a, basis, n)
  }

  /** The left null space: coefficient vectors whose combination of the rows vanishes. */
  predicate LeftNull(d: Vec, a: Matrix, n: nat)
    requires |d| == |a| && Rect(a, |a|, n)
  {
    IsZero(Combine(d, a, n))
  }

  // ---------- linearity ----------

  function XorVec(u: Vec, v: Vec): Vec
    requires |u| == |v|
  {
    seq(|u|, i requires 0 <= i < |u| => u[i] != v[i])
  }

  lemma {:induction false} DotXor(c: Vec, d: Vec, e: Vec, a: Matrix, j: nat, k: nat)
    requires k <= |c| && k <= |d| && k <= |e| && k <= |a| && forall i :: 0 <= i < k ==> j < |a[i]|
    requires forall i :: 0 <= i < k ==> e[i] == (c[i] != d[i])
    ensures Dot(e, a, j, k) == (Dot(c, a, j, k) != Dot(d, a, j, k))
  {
    if k > 0 {
      DotXor(c, d, e, a, j, k - 1);
    }
  }

  lemma {:induction false} DotZero(c: Vec, a: Matrix, j: nat, k: nat)
    requires k <= |c| && k <= |a| && forall i :: 0 <= i < k ==> j < |a[i]|
    requires forall i :: 0 <= i < k ==> !c[i] || !a[i][j]
    ensures !Dot(c, a, j, k)
  {
    if k > 0 {
      DotZero(c, a, j, k - 1);
    }
  }

  lemma {:induction false} DotSame(c: Vec, d: Vec, a: Matrix, b: Matrix, i: nat, j: nat, k: nat)
    requires k <= |c| && k <= |d| && k <= |a| && k <= |b|
    requires forall t :: 0 <= t < k ==> i < |a[t]| && j < |b[t]|
    requires forall t :: 0 <= t < k ==> (c[t] && a[t][i]) == (d[t] && b[t][j])
    ensures Dot(c, a, i, k) == Dot(d, b, j, k)
  {
    if k > 0 {
      DotSame(c, d, a, b, i, j, k - 1);
    }
  }

  /** A single selected row. */
  lemma {:induction false} DotUnit(c: Vec, a: Matrix, j: nat, k: nat, s: nat)
    requires k <= |c| && k <= |a| && forall i :: 0 <= i < k ==> j < |a[i]|
    requires s < k && forall i :: 0 <= i < k ==> c[i] == (i == s)
    ensures Dot(c, a, j, k) == a[s][j]
  {
    if s == k - 1 {
      DotZero(c, a, j, k - 1);
    } else {
      DotUnit(c, a, j, k - 1, s);
    }
  }

  /** A column whose only relevant entry is in row s reads off the coefficient of s. */
  lemma {:induction false} DotColumnUnit(c: Vec, a: Matrix, j: nat, k: nat, s: nat)
    requires k <= |c| && k <= |a| && forall i :: 0 <= i < k ==> j < |a[i]|
    requires s < k && forall i :: 0 <= i < k ==> a[i][j] == (i == s)
    ensures Dot(c, a, j, k) == c[s]
  {
    if s == k - 1 {
      DotZero(c, a, j, k - 1);
    } else {
      DotColumnUnit(c, a, j, k - 1, s);
    }
  }

  /** Rows from k0 on do not contribute when their entries or coefficients vanish. */
  lemma {:induction false} DotTail(c: Vec, a: Matrix, j: nat, k0: nat, k: nat)
    requires k0 <= k <= |c| && k <= |a| && forall i :: 0 <= i < k ==> j < |a[i]|
    requires forall i :: k0 <= i < k ==> !c[i] || !a[i][j]
    ensures Dot(c, a, j, k) == Dot(c, a, j, k0)
  {
    if k > k0 {
      DotTail(c, a, j, k0, k - 1);
    }
  }

  /** Rows before k0 do not contribute when their coefficients vanish. */
  lemma {:induction false} DotShift(c: Vec, a: Matrix, c': Vec, a': Matrix, j: nat, k0: nat, k: nat)
    requires k0 + k <= |c| && k0 + k <= |a| && forall i :: 0 <= i < k0 + k ==> j < |a[i]|
    requires k <= |c'| && k <= |a'| && forall i :: 0 <= i < k ==> j < |a'[i]|
    requires forall i :: 0 <= i < k0 ==> !c[i]
    requires forall i :: 0 <= i < k ==> c'[i] == c[k0 + i] && a'[i][j] == a[k0 + i][j]
    ensures Dot(c, a, j, k0 + k) == Dot(c', a', j, k)
  {
    if k == 0 {
      DotZero(c, a, j, k0);
    } else {
      DotShift(c, a, c', a', j, k0, k - 1);
    }
  }

  /** (c * l) * b == c * (l * b): if column s of `rows` is l[i] * b for every row, so is its combination. */
  lemma {:induction false} DotExchange(c: Vec, l: Matrix, b: Matrix, rows: Matrix, w: Vec, s: nat, j: nat, t: nat, k: nat)
    requires k <= |c| && k <= |l| && k <= |rows| && t <= |b| && |w| == t
    requires forall i :: 0 <= i < k ==> t <= |l[i]| && s < |rows[i]|
    requires forall i :: 0 <= i < t ==> j < |b[i]|
    requires forall i :: 0 <= i < k ==> rows[i][s] == Dot(l[i], b, j, t)
    requires forall i :: 0 <= i < t ==> w[i] == Dot(c, l, i, k)
    ensures Dot(c, rows, s, k) == Dot(w, b, j, t)
    decreases k
  {
    if k == 0 {
      DotZero(w, b, j, t);
    } else {
      var w' := seq(t, i requires 0 <= i < t => Dot(c, l, i, k - 1));
      DotExchange(c, l, b, rows, w', s, j, t, k - 1);
      var u := if c[k - 1] then l[k - 1][..t] else seq(t, _ => false);
      DotXor(w', u, w, b, j, t);
      if c[k - 1] {
        DotSame(u, l[k - 1], b, b, j, j, t);
      } else {
        DotZero(u, b, j, t);
      }
    }
  }

  lemma CombineAt(c: Vec, a: Matrix, n: nat, j: nat)
    requires |c| == |a| && Rect(a, |a|, n) && j < n
    ensures Combine(c, a, n)[j] == Dot(c, a, j, |a|)
  {
  }

  /** Combining combinations of b is again a combination of b. */
  lemma CombineTwice(c: Vec, l: Matrix, b: Matrix, rows: Matrix, n: nat)
    requires |c| == |l| == |rows| && Rect(l, |l|, |b|) && Rect(b, |b|, n) && Rect(rows, |rows|, n)
    requires forall i :: 0 <= i < |rows| ==> rows[i] == Combine(l[i], b, n)
    ensures Combine(c, rows, n) == Combine(Combine(c, l, |b|), b, n)
  {
    var w := Combine(c, l, |b|);
    forall j | 0 <= j < n ensures Combine(c, rows, n)[j] == Combine(w, b, n)[j] {
      DotExchange(c, l, b, rows, w, j, j, |b|, |l|);
    }
  }

  /** Spans are transitive: chosen coefficients for every row of `rows` over b. */
  ghost function Coefficients(rows: Matrix, b: Matrix, n: nat): (l: Matrix)
    requires Rect(rows, |rows|, n) && Rect(b, |b|, n) && SpansAll(b, rows, n)
    ensures Rect(l, |rows|, |b|)
    ensures forall i :: 0 <= i < |rows| ==> rows[i] == Combine(l[i], b, n)
  {
    seq(|rows|, i requires 0 <= i < |rows| =>
      assert InSpan(rows[i], b, n);
      var c: Vec :| |c| == |b| && Combine(c, b, n) == rows[i]; c)
  }

  lemma SpanTransitive(v: Vec, a: Matrix, b: Matrix, n: nat)
    requires Rect(a, |a|, n) && Rect(b, |b|, n) && |v| == n
    requires SpansAll(b, a, n) && InSpan(v, a, n)
    ensures InSpan(v, b, n)
  {
    var l := Coefficients(a, b, n);
    var c: Vec :| |c| == |a| && Combine(c, a, n) == v;
    CombineTwice(c, l, b, a, n);
  }
}
