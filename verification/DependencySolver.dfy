module DependencySolver {
  /**
   The column scan of src/linalg/block_lanczos.cpp on packed words, with its mid-flight
   checkpoint (include/gnfs/linalg/bl_checkpoint.hpp), extraction and dispatch.
   */

  import opened Optional
  import opened NumberTheory
  import opened Words
  import opened GF2
  import opened Elimination
  import opened Dependencies
  import opened PackedMatrix
  import opened BlockLanczos

  // ---------- one column of the scan, on packed words ----------

  method FindPivot(aug: PackedGF2Matrix, pivotRow: nat, col: nat) returns (best: nat)
    requires aug.Valid() && pivotRow <= aug.rows && col < aug.cols
    ensures best == FirstRow(aug.Bits(), col, pivotRow, aug.cols)
  {
    hide FlatBits;
    hide RowBits;
    best := pivotRow;
    while best < aug.rows
      invariant pivotRow <= best <= aug.rows
      invariant FirstRow(aug.Bits(), col, pivotRow, aug.cols) == FirstRow(aug.Bits(), col, best, aug.cols)
    {
      var one := aug.Test(best, col);
      if one {
        return;
      }
      best := best + 1;
    }
  }

  const PARALLEL_ROWS := 2000

  /** The number of collected rows above which the thread pool is used. */
  function DynamicThreshold(wordsPerRow: nat, threads: nat): nat {
    var safe := if wordsPerRow < 100 then 100 else wordsPerRow;
    var raw := 100000 * threads / safe;
    if raw < 500 then 500 else if raw > 10000 then 10000 else raw
  }

  /** Elimination of one pivot column, by whichever of the three code paths applies. */
  method EliminateColumn(aug: PackedGF2Matrix, pivotRow: nat, col: nat, threads: nat)
    requires aug.Valid() && pivotRow < aug.rows && col < aug.cols && threads > 0
    modifies aug.data
    ensures aug.Bits() == Eliminate(old(aug.Bits()), pivotRow, col, aug.cols)
  {
    hide FlatBits;
    hide RowBits;
    hide XorVec;
    hide XorWords;
    if aug.rows > PARALLEL_ROWS && threads > 1 {
      ghost var b0, before := aug.Bits(), WordRows(aug);
      var elim := CollectRows(aug, pivotRow, col);
      assert forall e :: 0 <= e < |elim| ==> elim[e] in elim;
      if |elim| > DynamicThreshold(aug.wordsPerRow, threads) {
        EliminateInParallel(aug, elim, pivotRow, threads);
      } else {
        EliminateCollected(aug, elim, pivotRow);
      }
      RowsAddedIsEliminate(before, WordRows(aug), elim, b0, aug.Bits(), pivotRow, col, aug.cols, aug.wordsPerRow);
    } else {
      EliminateSerially(aug, pivotRow, col);
    }
  }

  method EliminateCollected(aug: PackedGF2Matrix, elim: seq<nat>, pivotRow: nat)
    requires aug.Valid() && pivotRow < aug.rows
    requires forall e :: 0 <= e < |elim| ==> elim[e] < aug.rows && elim[e] != pivotRow
    requires forall i, j :: 0 <= i < j < |elim| ==> elim[i] < elim[j]
    modifies aug.data
    ensures RowsAdded(old(WordRows(aug)), WordRows(aug), elim, pivotRow, aug.wordsPerRow)
  {
    hide FlatBits;
    hide RowBits;
    hide XorVec;
    hide XorWords;
    ghost var before := WordRows(aug);
    for k := 0 to |elim|
      invariant RowsAdded(before, WordRows(aug), elim[..k], pivotRow, aug.wordsPerRow)
    {
      assert elim[k] !in elim[..k] && pivotRow !in elim[..k];
      assert elim[..k + 1] == elim[..k] + [elim[k]];
      aug.XorRows(elim[k], pivotRow);
    }
    assert elim[..|elim|] == elim;
  }

  /** One loop iteration: the packed state makes exactly the step of the specification. */
  method ScanColumn(aug: PackedGF2Matrix, pivotRow: nat, col: nat, ghost iteration: nat, threads: nat,
                    m: nat, n: nat) returns (pivoted: bool)
    requires aug.Valid() && aug.rows == m && aug.cols == m + n && threads > 0
    requires m <= col < m + n && pivotRow < m
    modifies aug.data
    ensures Progress(aug.Bits(), if pivoted then pivotRow + 1 else pivotRow, col + 1,
                     if pivoted then iteration + 1 else iteration)
         == Step(Progress(old(aug.Bits()), pivotRow, col, iteration), m, n)
  {
    hide FlatBits;
    hide RowBits;
    hide Eliminate;
    hide FirstRow;
    var best := FindPivot(aug, pivotRow, col);
    if best == m {
      return false;
    }
    if best != pivotRow {
      aug.SwapRows(pivotRow, best);
    }
    EliminateColumn(aug, pivotRow, col, threads);
    pivoted := true;
  }

  // ---------- checkpoints ----------

  /** The identity a checkpoint is bound to; SHA-256 is taken to be collision free. */
  datatype Fingerprint = Fingerprint(matrix: SparseMatrix)

  datatype Checkpoint = Checkpoint(rows: nat, cols: nat, wordsPerRow: nat, pivotRow: nat, curCol: nat,
                                   iteration: nat, fingerprint: Option<Fingerprint>, aug: seq<Word>)

  /** What can become of a save: written, refused before touching the file, or torn by a fault. */
  datatype SaveOutcome = Written | Refused | Torn

  /** A checkpoint file; None when absent, unfinished or corrupt. */
  class CheckpointFile {
    var saved: Option<Checkpoint>

    constructor ()
      ensures saved == None
    {
      saved := None;
    }

    method Save(snap: Checkpoint, outcome: SaveOutcome)
      modifies this
      ensures saved == match outcome case Written => Some(snap) case Refused => old(saved) case Torn => None
    {
      match outcome
      case Written => saved := Some(snap);
      case Refused =>
      case Torn => saved := None;
    }

    method Remove()
      modifies this
      ensures saved == None
    {
      saved := None;
    }
  }

  predicate WellSized(c: Checkpoint) {
    && c.rows + c.cols <= 64 * c.wordsPerRow < c.rows + c.cols + 64
    && |c.aug| == RowStart(c.rows, c.wordsPerRow)
  }

  ghost function CheckpointProgress(c: Checkpoint): Progress
    requires WellSized(c)
  {
    Progress(FlatBits(c.aug, c.rows, c.rows + c.cols, c.wordsPerRow), c.pivotRow, c.curCol, c.iteration)
  }

  /** A state the scan of this matrix passes through, so that continuing from it ends the same way. */
  ghost predicate OnTheWay(s: Progress, a: SparseMatrix) {
    var m, n := |a.rows|, a.cols;
    Invariant(s, Dense(a), m, n) && Finish(s, m, n) == Finish(Start(Dense(a), m, n), m, n)
  }

  ghost predicate Genuine(c: Checkpoint, a: SparseMatrix) {
    WellSized(c) && c.rows == |a.rows| && c.cols == a.cols && OnTheWay(CheckpointProgress(c), a)
  }

  /** Whatever is bound to a matrix was saved by a scan of that matrix. */
  ghost predicate FileOk(saved: Option<Checkpoint>) {
    saved.Some? && saved.value.fingerprint.Some? ==> Genuine(saved.value, saved.value.fingerprint.value.matrix)
  }

  /** The tests a loaded checkpoint must pass before the scan resumes from it. */
  predicate LoaderAccepts(c: Checkpoint, a: SparseMatrix, wordsPerRow: nat) {
    && c.fingerprint == Some(Fingerprint(a))
    && c.rows == |a.rows| && c.cols == a.cols
    && c.wordsPerRow == wordsPerRow && |c.aug| == RowStart(|a.rows|, wordsPerRow)
    && c.pivotRow <= c.rows && c.curCol >= c.rows && c.curCol - c.rows <= c.cols
    && c.pivotRow <= c.curCol - c.rows
  }

  /** Every checkpoint the scan saves passes all the loader's tests, its cursor tests included. */
  lemma GenuineIsAccepted(c: Checkpoint, a: SparseMatrix, wordsPerRow: nat)
    requires Genuine(c, a) && c.fingerprint == Some(Fingerprint(a))
    requires c.rows + c.cols <= 64 * wordsPerRow < c.rows + c.cols + 64
    ensures LoaderAccepts(c, a, wordsPerRow)
  {
    hide FlatBits;
    hide Tracks;
    hide LeftInvertible;
    hide Finish;
    hide Dense;
    var s, m, n := CheckpointProgress(c), |a.rows|, a.cols;
    var pivots: seq<nat> :| Reduced(s, m, n, pivots);
    hide Reduced;
    PivotBound(s, m, n, pivots);
  }

  lemma StepStaysOnTheWay(s: Progress, a: SparseMatrix)
    requires OnTheWay(s, a) && Scanning(s, |a.rows|, a.cols)
    ensures OnTheWay(Step(s, |a.rows|, a.cols), a)
  {
    hide Invariant;
    hide Step;
    hide Dense;
    StepKeepsInvariant(s, Dense(a), |a.rows|, a.cols);
  }

  lemma StartIsOnTheWay(a: SparseMatrix)
    ensures OnTheWay(Start(Dense(a), |a.rows|, a.cols), a)
  {
    hide Invariant;
    hide Dense;
    StartInvariant(Dense(a), |a.rows|, a.cols);
  }

  /** The solver's answer for a matrix. */
  function Answer(a: SparseMatrix, cap: nat): Matrix {
    if |a.rows| == 0 || a.cols == 0 then [] else SolveDependencies(Dense(a), |a.rows|, a.cols, cap)
  }

  /** The number of pivots a later run starts from. */
  function ResumePoint(saved: Option<Checkpoint>, a: SparseMatrix): nat {
    if saved.Some? && saved.value.fingerprint == Some(Fingerprint(a)) then saved.value.iteration else 0
  }

  /** Restores a saved state when the loader accepts it, and removes it otherwise. */
  method TryResume(a: SparseMatrix, aug: PackedGF2Matrix, file: CheckpointFile)
    returns (resumed: bool, pivotRow: nat, col: nat, iteration: nat)
    requires aug.Valid() && aug.rows == |a.rows| && aug.cols == |a.rows| + a.cols
    requires aug.Bits() == Augment(Dense(a), |a.rows|, a.cols)
    requires FileOk(file.saved)
    modifies aug.data, file
    ensures OnTheWay(Progress(aug.Bits(), pivotRow, col, iteration), a)
    ensures resumed <==> old(file.saved).Some? && old(file.saved).value.fingerprint == Some(Fingerprint(a))
    ensures file.saved == if resumed then old(file.saved) else None
    ensures iteration == ResumePoint(file.saved, a)
    ensures FileOk(file.saved)
  {
    hide FlatBits;
    hide RowStart;
    hide OnTheWay;
    hide Dense;
    StartIsOnTheWay(a);
    resumed, pivotRow, col, iteration := false, 0, |a.rows|, 0;
    if file.saved.Some? {
      var c := file.saved.value;
      if c.fingerprint == Some(Fingerprint(a)) {
        GenuineIsAccepted(c, a, aug.wordsPerRow);
      }
      if LoaderAccepts(c, a, aug.wordsPerRow) {
        aug.Restore(c.aug);
        resumed, pivotRow, col, iteration := true, c.pivotRow, c.curCol, c.iteration;
      } else {
        file.Remove();
      }
    }
  }

  lemma NoMultiple(x: nat, d: nat)
    requires d > 0 && (x + 1) % d != 0
    ensures (x + 1) / d == x / d
  {
    var q, r := x / d, x % d;
    assert x == d * q + r;
    if r + 1 == d {
      Distribute(d, q, 1);
      DvdWitness(d, x + 1, q + 1);
    } else {
      QuotientIs(x + 1, d, q, r + 1);
    }
  }

  /** No save was due between the resume point x and y. */
  predicate Covered(x: nat, y: nat, interval: nat)
    requires interval > 0
  {
    x <= y && x / interval == y / interval
  }

  lemma CloseBy(x: nat, y: nat, d: nat)
    requires d > 0 && x <= y && x / d == y / d
    ensures y < x + d
  {
    assert x == d * (x / d) + x % d && y == d * (y / d) + y % d;
  }

  /**
   One process: start fresh or resume, scan, save every `interval` pivots, and either
   finish or die after `patience` columns, having made `reached` pivots.  When no save fails,
   a crash loses fewer than `interval` pivots.
   */
  method Solve(a: SparseMatrix, cap: nat, file: CheckpointFile?, interval: nat, threads: nat, patience: nat, faults: bool)
    returns (finished: bool, deps: Matrix, ghost reached: nat)
    requires interval > 0 && threads > 0
    requires file != null ==> FileOk(file.saved)
    modifies if file != null then {file} else {}
    ensures finished ==> deps == Answer(a, cap)
    ensures file != null ==> FileOk(file.saved)
    ensures file != null && finished && |a.rows| > 0 && a.cols > 0 ==> file.saved == None
    ensures |a.rows| + a.cols < patience ==> finished
    ensures file != null && !finished && !faults ==>
      ResumePoint(file.saved, a) <= reached < ResumePoint(file.saved, a) + interval
  {
    hide FlatBits;
    hide RowBits;
    hide RowStart;
    hide OnTheWay;
    hide Dense;
    hide Step;
    hide Finish;
    hide Start;
    var m, n := |a.rows|, a.cols;
    reached := 0;
    if m == 0 || n == 0 {
      return true, [], 0;
    }
    var aug := BuildAugmented(a);
    var pivotRow: nat, col: nat, iteration: nat := 0, m, 0;
    assert OnTheWay(Progress(aug.Bits(), pivotRow, col, iteration), a) by {
      StartIsOnTheWay(a);
      StartFields(a);
    }
    if file != null {
      var resumed;
      resumed, pivotRow, col, iteration := TryResume(a, aug, file);
    }
    var columns := 0;
    ghost var s := Progress(aug.Bits(), pivotRow, col, iteration);
    OnTheWayShape(s, a);
    while col < m + n && pivotRow < m
      invariant fresh(aug) && fresh(aug.data) && aug.Valid() && aug.rows == m && aug.cols == m + n
      invariant s == Progress(aug.Bits(), pivotRow, col, iteration) && OnTheWay(s, a) && Shape(s, m, n)
      invariant columns + m <= col
      invariant file != null ==> FileOk(file.saved)
      invariant file != null && !faults ==> Covered(ResumePoint(file.saved, a), iteration, interval)
      decreases m + n - col
    {
      if columns == patience {
        if file != null && !faults {
          CloseBy(ResumePoint(file.saved, a), iteration, interval);
        }
        return false, [], iteration;
      }
      StepStaysOnTheWay(s, a);
      var pivoted := ScanColumn(aug, pivotRow, col, iteration, threads, m, n);
      s := Step(s, m, n);
      col, columns := col + 1, columns + 1;
      if pivoted {
        if (iteration + 1) % interval != 0 {
          NoMultiple(iteration, interval);
        }
        pivotRow, iteration := pivotRow + 1, iteration + 1;
        if file != null && iteration % interval == 0 {
          var snap := Checkpoint(m, n, aug.wordsPerRow, pivotRow, col, iteration, Some(Fingerprint(a)), aug.data[..]);
          var outcome := Written;
          if faults {
            outcome := *;
          }
          file.Save(snap, outcome);
        }
      }
    }
    reached := iteration;
    if columns == patience {
      if file != null && !faults {
        CloseBy(ResumePoint(file.saved, a), iteration, interval);
      }
      return false, [], iteration;
    }
    if file != null {
      file.Remove();
    }
    FinishedHere(s, a);
    deps := Extract(a, aug, s, cap);
    finished := true;
  }

  lemma StartFields(a: SparseMatrix)
    ensures Start(Dense(a), |a.rows|, a.cols) == Progress(Augment(Dense(a), |a.rows|, a.cols), 0, |a.rows|, 0)
  {
  }

  lemma OnTheWayShape(s: Progress, a: SparseMatrix)
    requires OnTheWay(s, a)
    ensures Shape(s, |a.rows|, a.cols)
  {
  }

  lemma FinishedHere(s: Progress, a: SparseMatrix)
    requires OnTheWay(s, a) && Shape(s, |a.rows|, a.cols) && !Scanning(s, |a.rows|, a.cols)
    ensures s == Finish(Start(Dense(a), |a.rows|, a.cols), |a.rows|, a.cols)
  {
  }

  method Extract(a: SparseMatrix, aug: PackedGF2Matrix, ghost s: Progress, cap: nat) returns (deps: Matrix)
    requires aug.Valid() && aug.rows == |a.rows| && aug.cols == |a.rows| + a.cols && aug.Bits() == s.aug
    requires s == Finish(Start(Dense(a), |a.rows|, a.cols), |a.rows|, a.cols)
    ensures deps == SolveDependencies(Dense(a), |a.rows|, a.cols, cap)
  {
    hide FlatBits;
    hide RowBits;
    hide Dense;
    hide Start;
    hide Finish;
    ExtractionFacts(a, s);
    deps := ExtractRows(aug, cap, s.pivotRow);
    hide RightZero;
    hide IsZero;
    assert deps == DependencyRows(s, |a.rows|, a.cols, cap);
  }

  /** One row of the extraction: its left half, if that is not zero and the right half is. */
  method ExtractRow(aug: PackedGF2Matrix, row: nat) returns (dep: Option<Vec>)
    requires aug.Valid() && row < aug.rows <= aug.cols
    ensures dep.Some? <==>
      (RightZero(aug.Bits()[row], aug.rows, aug.cols - aug.rows) && !IsZero(aug.Bits()[row][..aug.rows]))
    ensures dep.Some? ==> dep.value == aug.Bits()[row][..aug.rows]
  {
    hide FlatBits;
    hide RowBits;
    var zero := aug.IsZeroRange(row, aug.rows, aug.cols);
    if !zero {
      return None;
    }
    var left := aug.ExtractBits(row, aug.rows);
    var hasNonzero := exists i :: 0 <= i < |left| && left[i];
    dep := if hasNonzero then Some(left) else None;
  }

  /** Collects the left halves of the rows whose right halves vanish. */
  method ExtractRows(aug: PackedGF2Matrix, cap: nat, ghost pivotRow: nat) returns (deps: Matrix)
    requires aug.Valid() && pivotRow <= aug.rows <= aug.cols
    requires forall i :: 0 <= i < aug.rows ==>
      (RightZero(aug.Bits()[i], aug.rows, aug.cols - aug.rows) <==> pivotRow <= i)
    requires forall i :: 0 <= i < aug.rows ==> !IsZero(aug.Bits()[i][..aug.rows])
    ensures |deps| == Min(cap, aug.rows - pivotRow)
    ensures forall i :: 0 <= i < |deps| ==> deps[i] == aug.Bits()[pivotRow + i][..aug.rows]
  {
    hide FlatBits;
    hide RowBits;
    hide RightZero;
    hide IsZero;
    ghost var bits := aug.Bits();
    deps := [];
    var row := 0;
    while row < aug.rows && |deps| < cap
      invariant row <= aug.rows
      invariant |deps| <= cap && |deps| == Min(cap, if row <= pivotRow then 0 else row - pivotRow)
      invariant forall i :: 0 <= i < |deps| ==> deps[i] == bits[pivotRow + i][..aug.rows]
      decreases aug.rows - row
    {
      var dep := ExtractRow(aug, row);
      if dep.Some? {
        deps := deps + [dep.value];
      }
      row := row + 1;
    }
  }

  lemma ExtractionFacts(a: SparseMatrix, s: Progress)
    requires s == Finish(Start(Dense(a), |a.rows|, a.cols), |a.rows|, a.cols)
    ensures Shape(s, |a.rows|, a.cols)
    ensures forall i :: 0 <= i < |a.rows| ==> (RightZero(s.aug[i], |a.rows|, a.cols) <==> s.pivotRow <= i)
    ensures forall i :: 0 <= i < |a.rows| ==> !IsZero(s.aug[i][..|a.rows|])
  {
    hide Tracks;
    hide LeftIndependent;
    hide LeftSpanning;
    hide Reduced;
    hide Finish;
    hide Dense;
    hide Start;
    var m, n := |a.rows|, a.cols;
    var t, pivots := Finished(Dense(a), m, n);
    forall i | 0 <= i < m ensures RightZero(s.aug[i], m, n) <==> s.pivotRow <= i {
      if i < s.pivotRow { PivotRowNonzero(s, m, n, pivots, i); }
    }
    forall i | 0 <= i < m ensures !IsZero(s.aug[i][..m]) {
      LeftRowNonzero(s.aug, m, m + n, i);
    }
  }

  /** Any number of crashes, then a run that is left alone: the answer is the uninterrupted one. */
  method SolveWithCrashes(a: SparseMatrix, cap: nat, file: CheckpointFile, interval: nat, threads: nat,
                          crashes: seq<nat>) returns (deps: Matrix)
    requires interval > 0 && threads > 0 && FileOk(file.saved)
    modifies file
    ensures deps == Answer(a, cap)
    ensures FileOk(file.saved)
  {
    hide FileOk;
    for i := 0 to |crashes|
      invariant FileOk(file.saved)
    {
      var faults: bool := *;
      var finished, partial, reached := Solve(a, cap, file, interval, threads, crashes[i], faults);
    }
    var finished;
    ghost var reached;
    finished, deps, reached := Solve(a, cap, file, interval, threads, |a.rows| + a.cols + 1, true);
  }

  // ---------- dispatch ----------

  const GAUSS_BIT_LIMIT := 4 * 1024 * 1024 * 1024 * 8

  function EffectiveCap(m: nat, n: nat, maxDeps: nat): nat {
    var byNullity := if m > n then Min(maxDeps, m - n + 8) else maxDeps;
    Min(byNullity, 64)
  }

  predicate GaussianFits(m: nat, n: nat) {
    m == 0 || m + n <= GAUSS_BIT_LIMIT / m
  }

  /** The division test never misjudges the product: the packed matrix takes at most 4 GiB. */
  lemma GaussianFitsExactly(m: nat, n: nat)
    ensures GaussianFits(m, n) <==> m * (m + n) <= 8 * 0x1_0000_0000
  {
    if m > 0 {
      QuotientTest(m + n, m, 8 * 0x1_0000_0000);
    }
  }

  lemma QuotientTest(x: nat, m: nat, limit: nat)
    requires m > 0
    ensures x <= limit / m <==> m * x <= limit
  {
    var q := limit / m;
    assert limit == m * q + limit % m;
    MulMonotone(m, x, q);
    MulMonotone(m, q + 1, x);
    Distribute(m, q, 1);
  }

  /** The entry point; None stands for the hand-over to Block Wiedemann. */
  method FindDependencies(a: SparseMatrix, maxDeps: nat, file: CheckpointFile?, interval: nat, threads: nat)
    returns (deps: Option<Matrix>)
    requires interval > 0 && threads > 0
    requires file != null ==> FileOk(file.saved)
    modifies if file != null then {file} else {}
    ensures deps == None <==>
      |a.rows| > 0 && a.cols > 0 && |a.rows| * (|a.rows| + a.cols) > 8 * 0x1_0000_0000
    ensures deps.Some? ==> deps.value == Answer(a, EffectiveCap(|a.rows|, a.cols, maxDeps))
    ensures |a.rows| > a.cols > 0 && |a.rows| * (|a.rows| + a.cols) <= 8 * 0x1_0000_0000 ==>
      deps.Some? && |deps.value| >= Min(Min(maxDeps, 64), |a.rows| - a.cols)
    ensures deps.Some? && a.cols > 0 ==>
      IsDependencyList(deps.value, Dense(a), |a.rows|, a.cols, EffectiveCap(|a.rows|, a.cols, maxDeps))
    ensures file != null ==> FileOk(file.saved)
  {
    hide IsDependencyList;
    hide SolveDependencies;
    hide EffectiveCap;
    hide GaussianFits;
    hide Dense;
    var m, n := |a.rows|, a.cols;
    AnswerCorrectExactly(a, EffectiveCap(m, n, maxDeps));
    if m == 0 || n == 0 {
      return Some([]);
    }
    GaussianFitsExactly(m, n);
    if m > n {
      DispatchSurplus(a, maxDeps);
    }
    if !GaussianFits(m, n) {
      return None;
    }
    var finished, found, reached := Solve(a, EffectiveCap(m, n, maxDeps), file, interval, threads, m + n + 1, true);
    deps := Some(found);
  }

  /** On the Gaussian path a surplus of rows is turned into dependencies, up to the caps. */
  lemma DispatchSurplus(a: SparseMatrix, maxDeps: nat)
    requires |a.rows| > a.cols > 0
    ensures |Answer(a, EffectiveCap(|a.rows|, a.cols, maxDeps))| >= Min(Min(maxDeps, 64), |a.rows| - a.cols)
  {
    SurplusRows(Dense(a), |a.rows|, a.cols, EffectiveCap(|a.rows|, a.cols, maxDeps));
  }

  /**
   The nullity estimate of the dispatcher loses dependencies exactly when more than eight
   ranks are missing and the other caps would have allowed more than the estimate.
   */
  lemma EstimateExactly(a: SparseMatrix, maxDeps: nat, r: nat)
    requires |a.rows| > 0 && a.cols > 0 && HasRank(Dense(a), a.cols, r)
    ensures var m, n, cap := |a.rows|, a.cols, Min(maxDeps, 64);
      IsDependencyList(Answer(a, EffectiveCap(m, n, maxDeps)), Dense(a), m, n, cap)
      <==> !(m > n && n - r > 8 && cap > m - n + 8)
  {
    hide HasRank;
    hide Independent;
    hide SpansLeftNull;
    hide LeftNull;
    hide SolveDependencies;
    hide Dense;
    var m, n, d, cap := |a.rows|, a.cols, Dense(a), Min(maxDeps, 64);
    var most := EffectiveCap(m, n, maxDeps);
    DependenciesCorrect(d, m, n, most);
    var deps := Answer(a, most);
    forall q: nat | HasRank(d, n, q) ensures q == r {
      RankUnique(d, n, q, r);
    }
    assert exists q: nat :: q <= m && q <= n && HasRank(d, n, q) && |deps| == Min(most, m - q)
                            && (m - q <= most ==> SpansLeftNull(deps, d, m, n));
  }

  /**
   The answer is sound, independent, of exact size and complete up to its cap if and only
   if the early return for a matrix without columns does not hide anything.
   */
  lemma AnswerCorrectExactly(a: SparseMatrix, cap: nat)
    ensures IsDependencyList(Answer(a, cap), Dense(a), |a.rows|, a.cols, cap)
       <==> a.cols > 0 || |a.rows| == 0 || cap == 0
  {
    var m, n, d := |a.rows|, a.cols, Dense(a);
    DependenciesCorrect(d, m, n, cap);
    if m == 0 {
      assert SolveDependencies(d, m, n, cap) == [];
    } else if n == 0 {
      NoColumns(d, m, cap);
    }
  }

  /** Without columns every vector is a dependency, but the solver returns none. */
  lemma NoColumns(d: Matrix, m: nat, cap: nat)
    requires Rect(d, m, 0) && m > 0
    ensures IsDependencyList([], d, m, 0, cap) <==> cap == 0
  {
    if IsDependencyList([], d, m, 0, cap) {
      var r: nat :| r <= m && r <= 0 && HasRank(d, 0, r) && 0 == Min(cap, m - r);
    }
    if cap == 0 {
      DependenciesCorrect(d, m, 0, 0);
      assert SolveDependencies(d, m, 0, 0) == [];
    }
  }
}
