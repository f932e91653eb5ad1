module SpMV {
  /**
   Threaded sparse matrix-vector products over GF(2) (bench/microbench/spmv_neon_gate.cpp
   31-138, 148-308), for any number of 64-bit lanes per element: 1, 2 and 8 in the source.
   */

  import opened Words
  import opened Scheduling
  import opened PackedMatrix
  import opened GF2
  import BlockLanczos

  type SparseMatrix = BlockLanczos.SparseMatrix

  ghost predicate WellFormed(m: SparseMatrix) {
    forall i, k :: 0 <= i < |m.rows| && 0 <= k < |m.rows[i]| ==> m.rows[i][k] < m.cols
  }

  // ---------- words under exclusive or ----------

  lemma XorCommutes(a: Word, b: Word)
    ensures XorW(a, b) == XorW(b, a)
  {
  }

  lemma XorAssociates(a: Word, b: Word, c: Word)
    ensures XorW(XorW(a, b), c) == XorW(a, XorW(b, c))
  {
  }

  lemma XorZero(a: Word)
    ensures XorW(a, 0) == a && XorW(0, a) == a
  {
  }

  lemma XorFacts(a: Word, b: Word, c: Word)
    ensures XorW(a, b) == XorW(b, a) && XorW(XorW(a, b), c) == XorW(a, XorW(b, c))
    ensures XorW(a, 0) == a && XorW(0, a) == a
  {
    hide XorW;
    XorCommutes(a, b);
    XorAssociates(a, b, c);
    XorZero(a);
  }

  lemma AndFacts(a: Word, b: Word, c: Word)
    ensures AndW(a, XorW(b, c)) == XorW(AndW(a, b), AndW(a, c))
    ensures AndW(XorW(b, c), a) == XorW(AndW(b, a), AndW(c, a))
    ensures AndW(0, a) == 0 && AndW(a, 0) == 0 && AndW(a, b) == AndW(b, a)
  {
  }

  /** (a ^ b) ^ (c ^ d) regrouped. */
  lemma XorSwap(a: Word, b: Word, c: Word, d: Word)
    ensures XorW(XorW(a, b), XorW(c, d)) == XorW(XorW(a, c), XorW(b, d))
  {
    hide XorW;
    XorAssociates(a, b, XorW(c, d));
    XorAssociates(b, c, d);
    XorCommutes(b, c);
    XorAssociates(c, b, d);
    XorAssociates(a, c, XorW(b, d));
  }

  // ---------- the products, one lane at a time ----------

  /** Lane l of element e. */
  function Element(x: seq<Word>, lanes: nat, e: nat, l: nat): Word {
    if RowStart(e, lanes) + l < |x| then x[RowStart(e, lanes) + l] else 0
  }

  /** Forward: the sum of the elements a row names. */
  function Gather(row: seq<nat>, x: seq<Word>, lanes: nat, l: nat): Word {
    if |row| == 0 then 0
    else XorW(Gather(row[..|row| - 1], x, lanes, l), Element(x, lanes, row[|row| - 1], l))
  }

  /** w for every time the row names j. */
  function Hits(row: seq<nat>, j: nat, w: Word): Word {
    if |row| == 0 then 0
    else XorW(Hits(row[..|row| - 1], j, w), if row[|row| - 1] == j then w else 0)
  }

  /** Transposed: the sum of the elements i in start..end whose rows name j. */
  function Scatter(rows: seq<seq<nat>>, x: seq<Word>, lanes: nat, l: nat, j: nat, start: nat, end: nat): Word
    requires end <= |rows|
  {
    if end <= start then 0
    else XorW(Scatter(rows, x, lanes, l, j, start, end - 1), Hits(rows[end - 1], j, Element(x, lanes, end - 1, l)))
  }

  lemma {:induction false} ScatterSplit(rows: seq<seq<nat>>, x: seq<Word>, lanes: nat, l: nat, j: nat, a: nat, b: nat, c: nat)
    requires a <= b <= c <= |rows|
    ensures Scatter(rows, x, lanes, l, j, a, c)
         == XorW(Scatter(rows, x, lanes, l, j, a, b), Scatter(rows, x, lanes, l, j, b, c))
    decreases c
  {
    hide XorW;
    hide Hits;
    hide Element;
    if b == c {
      XorFacts(Scatter(rows, x, lanes, l, j, a, b), 0, 0);
    } else {
      ScatterSplit(rows, x, lanes, l, j, a, b, c - 1);
      XorFacts(Scatter(rows, x, lanes, l, j, a, b), Scatter(rows, x, lanes, l, j, b, c - 1),
               Hits(rows[c - 1], j, Element(x, lanes, c - 1, l)));
    }
  }

  lemma {:induction false} HitsZero(row: seq<nat>, j: nat)
    ensures Hits(row, j, 0) == 0
  {
    if |row| > 0 {
      HitsZero(row[..|row| - 1], j);
      XorFacts(0, 0, 0);
    }
  }

  // ---------- forward ----------

  const PREFETCH_AHEAD := 8

  /** acc ^ x[start..start + lanes]. */
  method AddLanes(acc: seq<Word>, x: array<Word>, start: nat) returns (r: seq<Word>)
    requires start + |acc| <= x.Length
    ensures |r| == |acc| && forall l :: 0 <= l < |acc| ==> r[l] == XorW(acc[l], x[start + l])
  {
    hide XorW;
    r := seq(|acc|, l requires 0 <= l < |acc| reads x => XorW(acc[l], x[start + l]));
  }

  /** One row: a loop with prefetching and one for the last entries, over each entry once. */
  method GatherRow(row: seq<nat>, cols: nat, x: array<Word>, lanes: nat) returns (acc: seq<Word>)
    requires x.Length == RowStart(cols, lanes) && forall k :: 0 <= k < |row| ==> row[k] < cols
    ensures |acc| == lanes && forall l :: 0 <= l < lanes ==> acc[l] == Gather(row, x[..], lanes, l)
  {
    hide XorW;
    hide RowStart;
    acc := seq(lanes, _ => 0);
    var pref := if |row| > PREFETCH_AHEAD then |row| - PREFETCH_AHEAD else 0;
    var p := 0;
    while p < pref
      invariant p <= pref && |acc| == lanes
      invariant forall l :: 0 <= l < lanes ==> acc[l] == Gather(row[..p], x[..], lanes, l)
    {
      acc := GatherEntry(row, p, cols, x, acc);
      p := p + 1;
    }
    while p < |row|
      invariant p <= |row| && |acc| == lanes
      invariant forall l :: 0 <= l < lanes ==> acc[l] == Gather(row[..p], x[..], lanes, l)
    {
      acc := GatherEntry(row, p, cols, x, acc);
      p := p + 1;
    }
    assert row[..|row|] == row;
  }

  method GatherEntry(row: seq<nat>, p: nat, cols: nat, x: array<Word>, acc: seq<Word>) returns (r: seq<Word>)
    requires p < |row| && row[p] < cols && x.Length == RowStart(cols, |acc|)
    requires forall l :: 0 <= l < |acc| ==> acc[l] == Gather(row[..p], x[..], |acc|, l)
    ensures |r| == |acc| && forall l :: 0 <= l < |acc| ==> r[l] == Gather(row[..p + 1], x[..], |acc|, l)
  {
    hide XorW;
    hide RowStart;
    RowFits(row[p], cols, |acc|);
    r := AddLanes(acc, x, RowStart(row[p], |acc|));
    assert row[..p + 1][..p] == row[..p];
  }

  /** The block of an element is replaced, nothing else changes. */
  method StoreLanes(y: array<Word>, lanes: nat, i: nat, count: nat, v: seq<Word>)
    requires y.Length == RowStart(count, lanes) && i < count && |v| == lanes
    modifies y
    ensures forall j, l :: 0 <= j < count && 0 <= l < lanes ==>
      Element(y[..], lanes, j, l) == if j == i then v[l] else Element(old(y[..]), lanes, j, l)
  {
    hide RowStart;
    RowFits(i, count, lanes);
    var s := RowStart(i, lanes);
    for k := 0 to lanes
      invariant forall c :: 0 <= c < y.Length ==> y[c] == if s <= c < s + k then v[c - s] else old(y[c])
    {
      y[s + k] := v[k];
    }
    forall j, l | 0 <= j < count && 0 <= l < lanes
      ensures Element(y[..], lanes, j, l) == if j == i then v[l] else Element(old(y[..]), lanes, j, l)
    {
      RowFits(j, count, lanes);
      if j != i { RowsDisjoint(i, j, lanes); }
    }
  }

  function Below(n: nat): (s: set<nat>)
    ensures forall i :: i in s <==> 0 <= i < n
  {
    if n == 0 then {} else Below(n - 1) + {n - 1}
  }

  /** Forward product; the rows are computed in any order. */
  method SpmvForward(m: SparseMatrix, x: array<Word>, lanes: nat, y: array<Word>)
    requires WellFormed(m) && x.Length == RowStart(m.cols, lanes) && y.Length == RowStart(|m.rows|, lanes) && x != y
    modifies y
    ensures forall i, l :: 0 <= i < |m.rows| && 0 <= l < lanes ==>
      Element(y[..], lanes, i, l) == Gather(m.rows[i], x[..], lanes, l)
  {
    hide XorW;
    hide RowStart;
    hide Element;
    hide Gather;
    var pending := Below(|m.rows|);
    while pending != {}
      invariant forall i :: i in pending ==> 0 <= i < |m.rows|
      invariant forall i, l :: 0 <= i < |m.rows| && i !in pending && 0 <= l < lanes ==>
        Element(y[..], lanes, i, l) == Gather(m.rows[i], x[..], lanes, l)
      decreases pending
    {
      var i :| i in pending;
      var acc := GatherRow(m.rows[i], m.cols, x, lanes);
      StoreLanes(y, lanes, i, |m.rows|, acc);
      pending := pending - {i};
    }
  }

  // ---------- transposed ----------

  /** Accumulators kept from call to call. */
  class SpmvScratch {
    var locals: seq<seq<Word>>

    constructor ()
      ensures locals == []
    {
      locals := [];
    }

    /** Whatever an earlier call left behind, the first words of the first accumulators are zero. */
    method Ensure(threads: nat, size: nat)
      modifies this
      ensures |locals| >= threads && |locals| >= |old(locals)|
      ensures forall t :: 0 <= t < threads ==> |locals[t]| >= size && forall c :: 0 <= c < size ==> locals[t][c] == 0
      ensures forall t :: threads <= t < |old(locals)| ==> locals[t] == old(locals)[t]
    {
      if |locals| < threads {
        locals := locals + seq(threads - |locals|, _ => []);
      }
      for t := 0 to threads
        invariant |locals| >= threads && |locals| >= |old(locals)|
        invariant forall u :: 0 <= u < t ==> |locals[u]| >= size && forall c :: 0 <= c < size ==> locals[u][c] == 0
        invariant forall u :: t <= u < |old(locals)| ==> locals[u] == old(locals)[u]
      {
        var rest := if |locals[t]| < size then [] else locals[t][size..];
        locals := locals[t := seq(size, _ => 0) + rest];
      }
    }
  }

  /** A thread's accumulator after the rows start..pos of its chunk. */
  ghost predicate LocalOk(local: seq<Word>, m: SparseMatrix, x: seq<Word>, lanes: nat, start: nat, pos: nat)
    requires pos <= |m.rows|
  {
    forall j, l :: 0 <= j < m.cols && 0 <= l < lanes ==>
      Element(local, lanes, j, l) == Scatter(m.rows, x, lanes, l, j, start, pos)
  }

  /** Adds xi to every element the row names. */
  method ScatterRow(local: seq<Word>, row: seq<nat>, cols: nat, xi: seq<Word>) returns (r: seq<Word>)
    requires |local| >= RowStart(cols, |xi|) && forall k :: 0 <= k < |row| ==> row[k] < cols
    ensures |r| == |local|
    ensures forall j, l :: 0 <= j < cols && 0 <= l < |xi| ==>
      Element(r, |xi|, j, l) == XorW(Element(local, |xi|, j, l), Hits(row, j, xi[l]))
  {
    hide XorW;
    hide RowStart;
    hide Element;
    r := local;
    ZeroRight();
    for p := 0 to |row|
      invariant |r| == |local|
      invariant forall j, l :: 0 <= j < cols && 0 <= l < |xi| ==>
        Element(r, |xi|, j, l) == XorW(Element(local, |xi|, j, l), Hits(row[..p], j, xi[l]))
    {
      ghost var before := r;
      r := AddAt(r, row[p], cols, xi);
      assert row[..p + 1][..p] == row[..p];
      forall j, l | 0 <= j < cols && 0 <= l < |xi|
        ensures Element(r, |xi|, j, l) == XorW(Element(local, |xi|, j, l), Hits(row[..p + 1], j, xi[l]))
      {
        var w := if row[p] == j then xi[l] else 0;
        assert Element(r, |xi|, j, l) == XorW(Element(before, |xi|, j, l), w);
        XorFacts(Element(local, |xi|, j, l), Hits(row[..p], j, xi[l]), w);
      }
    }
    assert row[..|row|] == row;
  }

  lemma ZeroRight()
    ensures forall w {:trigger XorW(w, 0)} :: XorW(w, 0) == w
  {
  }

  method AddAt(local: seq<Word>, e: nat, cols: nat, xi: seq<Word>) returns (r: seq<Word>)
    requires |local| >= RowStart(cols, |xi|) && e < cols
    ensures |r| == |local|
    ensures forall j, l :: 0 <= j < cols && 0 <= l < |xi| ==>
      Element(r, |xi|, j, l) == XorW(Element(local, |xi|, j, l), if j == e then xi[l] else 0)
  {
    hide XorW;
    hide RowStart;
    ZeroRight();
    RowFits(e, cols, |xi|);
    var s := RowStart(e, |xi|);
    r := local;
    for k := 0 to |xi|
      invariant |r| == |local|
      invariant forall c :: 0 <= c < |r| ==> r[c] == if s <= c < s + k then XorW(local[c], xi[c - s]) else local[c]
    {
      r := r[s + k := XorW(r[s + k], xi[k])];
    }
    forall j, l | 0 <= j < cols && 0 <= l < |xi|
      ensures Element(r, |xi|, j, l) == XorW(Element(local, |xi|, j, l), if j == e then xi[l] else 0)
    {
      RowFits(j, cols, |xi|);
      if j != e { RowsDisjoint(e, j, |xi|); }
    }
  }

  /** The next row of a chunk; a row whose element is zero in all lanes is skipped. */
  method ScatterNext(local: seq<Word>, m: SparseMatrix, x: array<Word>, lanes: nat, ghost start: nat, i: nat)
    returns (r: seq<Word>)
    requires WellFormed(m) && start <= i < |m.rows| && x.Length == RowStart(|m.rows|, lanes)
    requires |local| >= RowStart(m.cols, lanes) && LocalOk(local, m, x[..], lanes, start, i)
    ensures |r| == |local| && LocalOk(r, m, x[..], lanes, start, i + 1)
  {
    hide XorW;
    hide RowStart;
    hide Hits;
    ZeroRight();
    RowFits(i, |m.rows|, lanes);
    var xi := x[RowStart(i, lanes)..RowStart(i, lanes) + lanes];
    assert forall l :: 0 <= l < lanes ==> xi[l] == Element(x[..], lanes, i, l);
    hide Element;
    if forall l :: 0 <= l < lanes ==> xi[l] == 0 {
      r := local;
      forall j { HitsZero(m.rows[i], j); }
    } else {
      r := ScatterRow(local, m.rows[i], m.cols, xi);
    }
  }

  /** The sum of the first `used` accumulators at element j. */
  function Total(locals: seq<seq<Word>>, lanes: nat, j: nat, l: nat, used: nat): Word
    requires used <= |locals|
  {
    if used == 0 then 0 else XorW(Total(locals, lanes, j, l, used - 1), Element(locals[used - 1], lanes, j, l))
  }

  /** Consecutive chunks add up to all rows. */
  lemma {:induction false} TotalIsScatter(locals: seq<seq<Word>>, m: SparseMatrix, x: seq<Word>, lanes: nat, j: nat, l: nat,
                                          starts: seq<nat>, ends: seq<nat>, used: nat)
    requires Consecutive(starts, ends, |m.rows|) && 0 < used <= |starts| <= |locals|
    requires forall t :: 0 <= t < |starts| ==> LocalOk(locals[t], m, x, lanes, starts[t], ends[t])
    requires j < m.cols && l < lanes
    ensures Total(locals, lanes, j, l, used) == Scatter(m.rows, x, lanes, l, j, 0, ends[used - 1])
  {
    hide XorW;
    hide Element;
    hide Scatter;
    assert LocalOk(locals[used - 1], m, x, lanes, starts[used - 1], ends[used - 1]);
    if used == 1 {
      XorFacts(Element(locals[0], lanes, j, l), 0, 0);
      assert Total(locals, lanes, j, l, 0) == 0;
    } else {
      TotalIsScatter(locals, m, x, lanes, j, l, starts, ends, used - 1);
      ScatterSplit(m.rows, x, lanes, l, j, 0, starts[used - 1], ends[used - 1]);
    }
  }

  /** Each thread fills its own accumulator; the threads take turns in any order. */
  method ScatterChunks(m: SparseMatrix, x: array<Word>, lanes: nat, starts: seq<nat>, ends: seq<nat>,
                       locals: seq<seq<Word>>) returns (r: seq<seq<Word>>)
    requires WellFormed(m) && x.Length == RowStart(|m.rows|, lanes)
    requires |starts| == |ends| <= |locals| && forall t :: 0 <= t < |starts| ==> starts[t] <= ends[t] <= |m.rows|
    requires forall t :: 0 <= t < |starts| ==> |locals[t]| >= RowStart(m.cols, lanes)
    requires forall t :: 0 <= t < |starts| ==> LocalOk(locals[t], m, x[..], lanes, starts[t], starts[t])
    ensures |r| == |locals|
    ensures forall t :: 0 <= t < |starts| ==> |r[t]| >= RowStart(m.cols, lanes)
    ensures forall t :: 0 <= t < |starts| ==> LocalOk(r[t], m, x[..], lanes, starts[t], ends[t])
  {
    hide LocalOk;
    hide RowStart;
    r := locals;
    var pos := starts;
    while exists t :: 0 <= t < |pos| && pos[t] < ends[t]
      invariant |pos| == |starts| && |r| == |locals|
      invariant forall t :: 0 <= t < |pos| ==> starts[t] <= pos[t] <= ends[t]
      invariant forall t :: 0 <= t < |pos| ==> |r[t]| >= RowStart(m.cols, lanes)
      invariant forall t :: 0 <= t < |pos| ==> LocalOk(r[t], m, x[..], lanes, starts[t], pos[t])
      decreases Sum(Left(pos, ends))
    {
      var t :| 0 <= t < |pos| && pos[t] < ends[t];
      var local := ScatterNext(r[t], m, x, lanes, starts[t], pos[t]);
      LeftDecreases(pos, ends, t);
      r, pos := r[t := local], pos[t := pos[t] + 1];
    }
    assert pos == ends;
  }

  /** Transposed product on any number of threads, with accumulators reused from earlier calls. */
  method SpmvTranspose(m: SparseMatrix, x: array<Word>, lanes: nat, y: array<Word>, threads: nat, scratch: SpmvScratch)
    requires WellFormed(m) && threads > 0
    requires x.Length == RowStart(|m.rows|, lanes) && y.Length == RowStart(m.cols, lanes) && x != y
    modifies y, scratch
    ensures forall j, l :: 0 <= j < m.cols && 0 <= l < lanes ==>
      Element(y[..], lanes, j, l) == Scatter(m.rows, x[..], lanes, l, j, 0, |m.rows|)
  {
    hide XorW;
    hide RowStart;
    hide Element;
    hide Consecutive;
    hide IsPartition;
    hide LocalOk;
    hide Scatter;
    scratch.Ensure(threads, RowStart(m.cols, lanes));
    var starts, ends, owner := CeilingChunks(|m.rows|, threads);
    ChunksInside(starts, ends, owner, |m.rows|);
    forall t | 0 <= t < |starts| ensures LocalOk(scratch.locals[t], m, x[..], lanes, starts[t], starts[t]) {
      ZeroLocal(scratch.locals[t], m, x[..], lanes, starts[t]);
    }
    scratch.locals := ScatterChunks(m, x, lanes, starts, ends, scratch.locals);
    var used := |starts|;
    forall j, l | 0 <= j < m.cols && 0 <= l < lanes
      ensures Total(scratch.locals, lanes, j, l, used) == Scatter(m.rows, x[..], lanes, l, j, 0, |m.rows|)
    {
      TotalOfAll(scratch.locals, m, x[..], lanes, j, l, starts, ends);
    }
    SumLocals(scratch.locals, used, m.cols, lanes, y);
  }

  lemma ZeroLocal(local: seq<Word>, m: SparseMatrix, x: seq<Word>, lanes: nat, start: nat)
    requires |local| >= RowStart(m.cols, lanes) && start <= |m.rows|
    requires forall c :: 0 <= c < RowStart(m.cols, lanes) ==> local[c] == 0
    ensures LocalOk(local, m, x, lanes, start, start)
  {
    hide RowStart;
    forall j, l | 0 <= j < m.cols && 0 <= l < lanes ensures Element(local, lanes, j, l) == 0 {
      RowFits(j, m.cols, lanes);
    }
  }

  lemma TotalOfAll(locals: seq<seq<Word>>, m: SparseMatrix, x: seq<Word>, lanes: nat, j: nat, l: nat,
                   starts: seq<nat>, ends: seq<nat>)
    requires if |m.rows| == 0 then |starts| == 0 else Consecutive(starts, ends, |m.rows|)
    requires |starts| <= |locals| && |starts| == |ends|
    requires forall t :: 0 <= t < |starts| ==>
      starts[t] <= ends[t] <= |m.rows| && LocalOk(locals[t], m, x, lanes, starts[t], ends[t])
    requires j < m.cols && l < lanes
    ensures Total(locals, lanes, j, l, |starts|) == Scatter(m.rows, x, lanes, l, j, 0, |m.rows|)
  {
    hide LocalOk;
    if |m.rows| > 0 {
      TotalIsScatter(locals, m, x, lanes, j, l, starts, ends, |starts|);
    }
  }

  /** The second parallel loop: every output element is the sum of the accumulators in use. */
  method SumLocals(locals: seq<seq<Word>>, used: nat, cols: nat, lanes: nat, y: array<Word>)
    requires used <= |locals| && y.Length == RowStart(cols, lanes)
    requires forall t :: 0 <= t < used ==> |locals[t]| >= RowStart(cols, lanes)
    modifies y
    ensures forall j, l :: 0 <= j < cols && 0 <= l < lanes ==>
      Element(y[..], lanes, j, l) == Total(locals, lanes, j, l, used)
  {
    hide XorW;
    hide RowStart;
    hide Total;
    var pending := Below(cols);
    while pending != {}
      invariant forall j :: j in pending ==> 0 <= j < cols
      invariant forall j, l :: 0 <= j < cols && j !in pending && 0 <= l < lanes ==>
        Element(y[..], lanes, j, l) == Total(locals, lanes, j, l, used)
      decreases pending
    {
      var j :| j in pending;
      var val := TotalLanes(locals, used, cols, lanes, j);
      StoreLanes(y, lanes, j, cols, val);
      pending := pending - {j};
    }
  }

  method TotalLanes(locals: seq<seq<Word>>, used: nat, cols: nat, lanes: nat, j: nat) returns (val: seq<Word>)
    requires used <= |locals| && j < cols
    requires forall t :: 0 <= t < used ==> |locals[t]| >= RowStart(cols, lanes)
    ensures |val| == lanes && forall l :: 0 <= l < lanes ==> val[l] == Total(locals, lanes, j, l, used)
  {
    hide XorW;
    hide RowStart;
    hide Element;
    val := seq(lanes, _ => 0);
    for t := 0 to used
      invariant |val| == lanes && forall l :: 0 <= l < lanes ==> val[l] == Total(locals, lanes, j, l, t)
    {
      val := seq(lanes, l requires 0 <= l < lanes => XorW(val[l], Element(locals[t], lanes, j, l)));
    }
  }

  // ---------- lanes are independent ----------

  /** Lane l of every element, as a vector of single words. */
  function Lane(x: seq<Word>, lanes: nat, count: nat, l: nat): (r: seq<Word>)
    ensures |r| == count
  {
    seq(count, e => if e < 0 then 0 else Element(x, lanes, e, l))
  }

  lemma LaneElement(x: seq<Word>, lanes: nat, count: nat, l: nat, e: nat)
    requires e < count
    ensures Element(Lane(x, lanes, count, l), 1, e, 0) == Element(x, lanes, e, l)
  {
    assert RowStart(e, 1) == e;
  }

  /** A product of several lanes is as many independent 64-bit products. */
  lemma {:induction false} GatherLane(row: seq<nat>, cols: nat, x: seq<Word>, lanes: nat, l: nat)
    requires forall k :: 0 <= k < |row| ==> row[k] < cols
    ensures Gather(row, x, lanes, l) == Gather(row, Lane(x, lanes, cols, l), 1, 0)
  {
    hide XorW;
    hide Element;
    hide Lane;
    if |row| > 0 {
      GatherLane(row[..|row| - 1], cols, x, lanes, l);
      LaneElement(x, lanes, cols, l, row[|row| - 1]);
    }
  }

  lemma {:induction false} ScatterLane(rows: seq<seq<nat>>, x: seq<Word>, lanes: nat, l: nat, j: nat, start: nat, end: nat)
    requires end <= |rows|
    ensures Scatter(rows, x, lanes, l, j, start, end) == Scatter(rows, Lane(x, lanes, |rows|, l), 1, 0, j, start, end)
  {
    hide XorW;
    hide Element;
    hide Lane;
    hide Hits;
    if start < end {
      ScatterLane(rows, x, lanes, l, j, start, end - 1);
      LaneElement(x, lanes, |rows|, l, end - 1);
    }
  }

  // ---------- forward and transpose are adjoint ----------

  /** The sum over i < k of u_i & (M x)_i. */
  function PairForward(rows: seq<seq<nat>>, u: seq<Word>, x: seq<Word>, k: nat): Word
    requires k <= |rows|
  {
    if k == 0 then 0
    else XorW(PairForward(rows, u, x, k - 1), AndW(Element(u, 1, k - 1, 0), Gather(rows[k - 1], x, 1, 0)))
  }

  /** The sum over j < n of (M^T u)_j & x_j, for the first k rows of M. */
  function PairTranspose(rows: seq<seq<nat>>, u: seq<Word>, x: seq<Word>, k: nat, n: nat): Word
    requires k <= |rows|
  {
    if n == 0 then 0
    else XorW(PairTranspose(rows, u, x, k, n - 1),
              AndW(Scatter(rows, u, 1, 0, n - 1, 0, k), Element(x, 1, n - 1, 0)))
  }

  /** The sum over j < n of (w for every time the row names j) & x_j. */
  function PairRow(row: seq<nat>, w: Word, x: seq<Word>, n: nat): Word {
    if n == 0 then 0 else XorW(PairRow(row, w, x, n - 1), AndW(Hits(row, n - 1, w), Element(x, 1, n - 1, 0)))
  }

  lemma {:induction false} PairRowEntry(row: seq<nat>, w: Word, x: seq<Word>, n: nat)
    requires |row| > 0
    ensures PairRow(row, w, x, n)
         == XorW(PairRow(row[..|row| - 1], w, x, n),
                 if row[|row| - 1] < n then AndW(w, Element(x, 1, row[|row| - 1], 0)) else 0)
  {
    hide XorW;
    hide AndW;
    hide Element;
    var init, e := row[..|row| - 1], row[|row| - 1];
    if n == 0 {
      XorFacts(0, 0, 0);
    } else {
      PairRowEntry(row, w, x, n - 1);
      var z := Element(x, 1, n - 1, 0);
      var hit := if e == n - 1 then w else 0;
      AndFacts(z, Hits(init, n - 1, w), hit);
      AndFacts(w, z, z);
      XorSwap(PairRow(init, w, x, n - 1), if e < n - 1 then AndW(w, Element(x, 1, e, 0)) else 0,
              AndW(Hits(init, n - 1, w), z), AndW(hit, z));
      XorFacts(AndW(w, z), 0, 0);
      XorFacts(if e < n - 1 then AndW(w, Element(x, 1, e, 0)) else 0, 0, 0);
      AndFacts(z, 0, 0);
    }
  }

  lemma {:induction false} PairRowIsGather(row: seq<nat>, w: Word, x: seq<Word>, n: nat)
    requires forall k :: 0 <= k < |row| ==> row[k] < n
    ensures PairRow(row, w, x, n) == AndW(w, Gather(row, x, 1, 0))
  {
    hide XorW;
    hide AndW;
    hide Element;
    if |row| == 0 {
      EmptyPair(w, x, n);
      AndFacts(w, 0, 0);
    } else {
      PairRowEntry(row, w, x, n);
      PairRowIsGather(row[..|row| - 1], w, x, n);
      AndFacts(w, Gather(row[..|row| - 1], x, 1, 0), Element(x, 1, row[|row| - 1], 0));
    }
  }

  lemma {:induction false} EmptyPair(w: Word, x: seq<Word>, n: nat)
    ensures PairRow([], w, x, n) == 0
  {
    hide XorW;
    hide AndW;
    hide Element;
    if n > 0 {
      EmptyPair(w, x, n - 1);
      AndFacts(Element(x, 1, n - 1, 0), 0, 0);
      XorFacts(0, 0, 0);
    }
  }

  lemma {:induction false} PairTransposeRow(rows: seq<seq<nat>>, u: seq<Word>, x: seq<Word>, k: nat, n: nat)
    requires 0 < k <= |rows|
    ensures PairTranspose(rows, u, x, k, n)
         == XorW(PairTranspose(rows, u, x, k - 1, n), PairRow(rows[k - 1], Element(u, 1, k - 1, 0), x, n))
  {
    hide XorW;
    hide AndW;
    hide Element;
    hide Hits;
    if n == 0 {
      XorFacts(0, 0, 0);
    } else {
      PairTransposeRow(rows, u, x, k, n - 1);
      var z, w := Element(x, 1, n - 1, 0), Element(u, 1, k - 1, 0);
      AndFacts(z, Scatter(rows, u, 1, 0, n - 1, 0, k - 1), Hits(rows[k - 1], n - 1, w));
      XorSwap(PairTranspose(rows, u, x, k - 1, n - 1), PairRow(rows[k - 1], w, x, n - 1),
              AndW(Scatter(rows, u, 1, 0, n - 1, 0, k - 1), z), AndW(Hits(rows[k - 1], n - 1, w), z));
    }
  }

  /** <u, M x> == <M^T u, x>, in each of the 64 bit positions. */
  lemma {:induction false} Adjoint(m: SparseMatrix, u: seq<Word>, x: seq<Word>, k: nat)
    requires WellFormed(m) && k <= |m.rows|
    ensures PairForward(m.rows, u, x, k) == PairTranspose(m.rows, u, x, k, m.cols)
  {
    hide XorW;
    hide AndW;
    hide Element;
    hide PairRow;
    hide Gather;
    if k == 0 {
      PairTransposeNone(m.rows, u, x, m.cols);
    } else {
      Adjoint(m, u, x, k - 1);
      PairTransposeRow(m.rows, u, x, k, m.cols);
      PairRowIsGather(m.rows[k - 1], Element(u, 1, k - 1, 0), x, m.cols);
    }
  }

  lemma {:induction false} PairTransposeNone(rows: seq<seq<nat>>, u: seq<Word>, x: seq<Word>, n: nat)
    ensures PairTranspose(rows, u, x, 0, n) == 0
  {
    hide XorW;
    hide AndW;
    hide Element;
    if n > 0 {
      PairTransposeNone(rows, u, x, n - 1);
      AndFacts(Element(x, 1, n - 1, 0), 0, 0);
      XorFacts(0, 0, 0);
    }
  }

  // ---------- against the boolean matrix ----------

  ghost predicate NoDuplicates(row: seq<nat>) {
    forall i, j :: 0 <= i < j < |row| ==> row[i] != row[j]
  }

  /** Bit position b of the first `count` elements. */
  function BitColumn(x: seq<Word>, count: nat, b: nat): (v: Vec)
    requires b < 64
    ensures |v| == count
  {
    seq(count, e => e >= 0 && Bit(Element(x, 1, e, 0), b))
  }

  lemma ZeroBits(b: nat)
    requires b < 64
    ensures !Bit(0, b)
  {
    BitXor(0, 0, b);
    XorFacts(0, 0, 0);
  }

  lemma {:induction false} HitsOnce(row: seq<nat>, j: nat, w: Word)
    requires NoDuplicates(row)
    ensures Hits(row, j, w) == if j in row then w else 0
  {
    hide XorW;
    if |row| > 0 {
      HitsOnce(row[..|row| - 1], j, w);
      XorFacts(w, 0, 0);
      XorFacts(0, 0, 0);
      assert row == row[..|row| - 1] + [row[|row| - 1]];
    }
  }

  /** The transposed product is, in every bit position, the boolean row vector times the matrix. */
  lemma {:induction false} ScatterIsDot(m: SparseMatrix, x: seq<Word>, b: nat, j: nat, k: nat)
    requires b < 64 && j < m.cols && k <= |m.rows| && forall i :: 0 <= i < |m.rows| ==> NoDuplicates(m.rows[i])
    ensures Bit(Scatter(m.rows, x, 1, 0, j, 0, k), b)
         == Dot(BitColumn(x, |m.rows|, b), BlockLanczos.Dense(m), j, k)
  {
    hide XorW;
    hide Bit;
    hide Element;
    hide NoDuplicates;
    ZeroBits(b);
    if k > 0 {
      ScatterIsDot(m, x, b, j, k - 1);
      var w := Element(x, 1, k - 1, 0);
      HitsOnce(m.rows[k - 1], j, w);
      BitXor(Scatter(m.rows, x, 1, 0, j, 0, k - 1), Hits(m.rows[k - 1], j, w), b);
      assert BlockLanczos.Dense(m)[k - 1][j] == (j in m.rows[k - 1]);
    }
  }

  /** The sum over j < n of the entries of a row and of a vector. */
  function RowDot(row: seq<nat>, v: Vec, n: nat): bool
    requires n <= |v|
  {
    if n == 0 then false else RowDot(row, v, n - 1) != (n - 1 in row && v[n - 1])
  }

  lemma {:induction false} RowDotEntry(row: seq<nat>, v: Vec, n: nat)
    requires n <= |v| && |row| > 0 && NoDuplicates(row)
    ensures var e := row[|row| - 1];
      RowDot(row, v, n) == (RowDot(row[..|row| - 1], v, n) != (e < n && v[e]))
  {
    var init, e := row[..|row| - 1], row[|row| - 1];
    assert row == init + [e];
    if n > 0 {
      RowDotEntry(row, v, n - 1);
      assert e !in init;
    }
  }

  /** The forward product is, in every bit position, the boolean matrix times the vector. */
  lemma {:induction false} GatherIsDot(row: seq<nat>, x: seq<Word>, n: nat, b: nat)
    requires b < 64 && NoDuplicates(row) && forall k :: 0 <= k < |row| ==> row[k] < n
    ensures Bit(Gather(row, x, 1, 0), b) == RowDot(row, BitColumn(x, n, b), n)
  {
    hide XorW;
    hide Bit;
    hide Element;
    ZeroBits(b);
    var v := BitColumn(x, n, b);
    if |row| == 0 {
      EmptyRowDot(v, n);
    } else {
      var init, e := row[..|row| - 1], row[|row| - 1];
      GatherIsDot(init, x, n, b);
      BitXor(Gather(init, x, 1, 0), Element(x, 1, e, 0), b);
      RowDotEntry(row, v, n);
    }
  }

  lemma {:induction false} EmptyRowDot(v: Vec, n: nat)
    requires n <= |v|
    ensures !RowDot([], v, n)
  {
    if n > 0 {
      EmptyRowDot(v, n - 1);
    }
  }
}
