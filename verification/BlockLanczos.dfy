module BlockLanczos {
  /**
   The augmented matrix [I | M] of src/linalg/block_lanczos.cpp and the elimination of one
   column from it, serially and on a thread pool whose threads interleave word by word.
   */

  import opened Words
  import opened GF2
  import opened Elimination
  import opened PackedMatrix
  import opened Scheduling

  /** Rows as lists of column indices. */
  datatype SparseMatrix = SparseMatrix(rows: seq<seq<nat>>, cols: nat)

  function Dense(a: SparseMatrix): (d: Matrix)
    ensures Rect(d, |a.rows|, a.cols)
  {
    seq(|a.rows|, i requires 0 <= i < |a.rows| => seq(a.cols, j => j in a.rows[i]))
  }

  // ---------- building the augmented matrix ----------

  method BuildAugmented(a: SparseMatrix) returns (aug: PackedGF2Matrix)
    ensures aug.Valid() && fresh(aug) && fresh(aug.data)
    ensures aug.rows == |a.rows| && aug.cols == |a.rows| + a.cols
    ensures aug.Bits() == Augment(Dense(a), |a.rows|, a.cols)
  {
    hide FlatBits;
    hide RowBits;
    var m, n := |a.rows|, a.cols;
    aug := new PackedGF2Matrix(m, m + n);
    ghost var cur := aug.Bits();
    ghost var goal := Augment(Dense(a), m, n);
    for row := 0 to m
      invariant fresh(aug.data) && aug.Valid() && aug.Bits() == cur
      invariant forall r :: 0 <= r < row ==> cur[r] == goal[r]
      invariant forall r, c :: row <= r < m && 0 <= c < m + n ==> !cur[r][c]
    {
      aug.Set(row, row);
      cur := cur[row := cur[row][row := true]];
      ghost var others := cur;
      for k := 0 to |a.rows[row]|
        invariant fresh(aug.data) && aug.Valid() && aug.Bits() == cur
        invariant cur == others[row := cur[row]]
        invariant |cur[row]| == m + n && forall c :: 0 <= c < m + n ==>
                    cur[row][c] == (c == row || (c >= m && (c - m) in a.rows[row][..k]))
      {
        var col := a.rows[row][k];
        assert a.rows[row][..k + 1] == a.rows[row][..k] + [col];
        if col < n {
          aug.Set(row, m + col);
          cur := cur[row := cur[row][m + col := true]];
        }
      }
      assert a.rows[row][..|a.rows[row]|] == a.rows[row];
      assert cur[row] == goal[row];
    }
    assert cur == goal;
  }

  // ---------- elimination below and above a pivot ----------

  method EliminateSerially(aug: PackedGF2Matrix, pivotRow: nat, col: nat)
    requires aug.Valid() && pivotRow < aug.rows && col < aug.cols
    modifies aug.data
    ensures aug.Bits() == Eliminate(old(aug.Bits()), pivotRow, col, aug.cols)
  {
    hide FlatBits;
    hide RowBits;
    hide XorVec;
    ghost var before := aug.Bits();
    for row := 0 to aug.rows
      invariant aug.Bits() == EliminateUpTo(before, pivotRow, col, aug.cols, row)
    {
      if row != pivotRow {
        var one := aug.Test(row, col);
        if one {
          aug.XorRows(row, pivotRow);
        }
      }
    }
  }

  method CollectRows(aug: PackedGF2Matrix, pivotRow: nat, col: nat) returns (elim: seq<nat>)
    requires aug.Valid() && pivotRow < aug.rows && col < aug.cols
    ensures forall r :: r in elim <==> 0 <= r < aug.rows && r != pivotRow && aug.Bits()[r][col]
    ensures forall i, j :: 0 <= i < j < |elim| ==> elim[i] < elim[j]
  {
    hide FlatBits;
    hide RowBits;
    elim := [];
    for row := 0 to aug.rows
      invariant forall r :: r in elim <==> 0 <= r < row && r != pivotRow && aug.Bits()[r][col]
      invariant forall i :: 0 <= i < |elim| ==> elim[i] < row
      invariant forall i, j :: 0 <= i < j < |elim| ==> elim[i] < elim[j]
    {
      if row != pivotRow {
        var one := aug.Test(row, col);
        if one {
          elim := elim + [row];
        }
      }
    }
  }

  /** The words of row r after the pivot row has been added to the collected rows. */
  ghost predicate RowsAdded(before: seq<seq<Word>>, after: seq<seq<Word>>, elim: seq<nat>, pivotRow: nat, words: nat)
    requires |before| == |after| && pivotRow < |before|
    requires forall r :: 0 <= r < |before| ==> |before[r]| == words
  {
    forall r :: 0 <= r < |before| ==> after[r] == if r in elim then XorWords(before[r], before[pivotRow]) else before[r]
  }

  lemma RowsAddedIsEliminate(before: seq<seq<Word>>, after: seq<seq<Word>>, elim: seq<nat>,
                             b0: Matrix, b1: Matrix, pivotRow: nat, col: nat, cols: nat, words: nat)
    requires |before| == |after| == |b0| == |b1| && pivotRow < |before| && cols <= 64 * words && col < cols
    requires Rect(b0, |b0|, cols)
    requires forall r :: 0 <= r < |before| ==> |before[r]| == words && |after[r]| == words
    requires forall r :: 0 <= r < |before| ==> b0[r] == RowBits(before[r], cols) && b1[r] == RowBits(after[r], cols)
    requires RowsAdded(before, after, elim, pivotRow, words)
    requires forall r :: r in elim <==> 0 <= r < |before| && r != pivotRow && b0[r][col]
    ensures b1 == Eliminate(b0, pivotRow, col, cols)
  {
    hide RowBits;
    hide XorWords;
    hide XorVec;
    forall r | 0 <= r < |before| ensures b1[r] == Eliminate(b0, pivotRow, col, cols)[r] {
      if r in elim {
        XorWordsBits(before[r], before[pivotRow], cols);
      }
    }
  }

  ghost function WordRows(aug: PackedGF2Matrix): (w: seq<seq<Word>>)
    requires aug.Valid()
    reads aug.data
    ensures |w| == aug.rows && forall r :: 0 <= r < aug.rows ==> w[r] == aug.WordRow(r)
  {
    seq(aug.rows, r requires 0 <= r < aug.rows reads aug.data => aug.WordRow(r))
  }

  /** The first d words of the pivot row have been added to the row. */
  ghost predicate PartlyAdded(row: seq<Word>, pivot: seq<Word>, now: seq<Word>, d: nat)
    requires |row| == |pivot|
  {
    |now| == |row| && forall k :: 0 <= k < |row| ==> now[k] == if k < d then XorW(row[k], pivot[k]) else row[k]
  }

  /** How many words of collected row e its thread has finished. */
  ghost function DoneWords(e: nat, owner: seq<nat>, pos: seq<nat>, word: seq<nat>, words: nat): nat
    requires e < |owner| && owner[e] < |pos| == |word|
  {
    var o := owner[e];
    if e < pos[o] then words else if e == pos[o] then word[o] else 0
  }

  /** Threads have added the pivot row as far as their cursors say, and touched nothing else. */
  ghost predicate InFlight(before: seq<seq<Word>>, now: seq<seq<Word>>, elim: seq<nat>, pivotRow: nat,
                           owner: seq<nat>, pos: seq<nat>, word: seq<nat>, words: nat)
    requires pivotRow < |before| && |now| == |before| && |owner| == |elim| && |pos| == |word|
    requires forall r :: 0 <= r < |before| ==> |before[r]| == words
    requires forall e :: 0 <= e < |elim| ==> owner[e] < |pos| && elim[e] < |before|
  {
    && (forall e :: 0 <= e < |elim| ==>
          PartlyAdded(before[elim[e]], before[pivotRow], now[elim[e]], DoneWords(e, owner, pos, word, words)))
    && (forall r :: 0 <= r < |before| && r !in elim ==> now[r] == before[r])
  }

  /**
   Chunked elimination on a thread pool.  At every turn any unfinished thread adds one
   word, so every interleaving of the threads is covered.
   */
  method EliminateInParallel(aug: PackedGF2Matrix, elim: seq<nat>, pivotRow: nat, threads: nat)
    requires aug.Valid() && pivotRow < aug.rows && threads > 0
    requires forall e :: 0 <= e < |elim| ==> elim[e] < aug.rows && elim[e] != pivotRow
    requires forall i, j :: 0 <= i < j < |elim| ==> elim[i] < elim[j]
    modifies aug.data
    ensures RowsAdded(old(WordRows(aug)), WordRows(aug), elim, pivotRow, aug.wordsPerRow)
  {
    hide FlatBits;
    hide RowBits;
    hide XorW;
    hide InFlight;
    hide RowsAdded;
    hide Consecutive;
    hide IsPartition;
    var words := aug.wordsPerRow;
    ghost var before := WordRows(aug);
    var starts, ends, owner := CeilingChunks(|elim|, threads);
    ChunksInside(starts, ends, owner, |elim|);
    var pos, word := starts, seq(|starts|, _ => 0);
    FlightStarts(before, elim, pivotRow, owner, starts, ends, word, words);
    while exists t :: 0 <= t < |pos| && pos[t] < ends[t]
      invariant TurnShape(starts, ends, pos, word, words)
      invariant InFlight(before, WordRows(aug), elim, pivotRow, owner, pos, word, words)
      decreases Sum(Left(pos, ends)), Sum(Left(word, seq(|word|, _ => words)))
    {
      var t :| 0 <= t < |pos| && pos[t] < ends[t];
      pos, word := ParallelTurn(aug, elim, pivotRow, before, owner, starts, ends, pos, word, t);
    }
    FlightEnds(before, WordRows(aug), elim, pivotRow, owner, starts, ends, pos, word, words);
  }

  ghost predicate TurnShape(starts: seq<nat>, ends: seq<nat>, pos: seq<nat>, word: seq<nat>, words: nat) {
    && |pos| == |word| == |starts| == |ends|
    && forall t :: 0 <= t < |pos| ==> starts[t] <= pos[t] <= ends[t] && word[t] <= words
  }

  /** Thread t adds one word, or goes on to its next row. */
  method ParallelTurn(aug: PackedGF2Matrix, elim: seq<nat>, pivotRow: nat, ghost before: seq<seq<Word>>,
                      ghost owner: seq<nat>, ghost starts: seq<nat>, ghost ends: seq<nat>, pos: seq<nat>, word: seq<nat>, t: nat)
    returns (pos': seq<nat>, word': seq<nat>)
    requires aug.Valid() && pivotRow < aug.rows == |before|
    requires forall r :: 0 <= r < |before| ==> |before[r]| == aug.wordsPerRow
    requires forall e :: 0 <= e < |elim| ==> elim[e] < aug.rows && elim[e] != pivotRow
    requires forall i, j :: 0 <= i < j < |elim| ==> elim[i] < elim[j]
    requires IsPartition(starts, ends, owner, |elim|) && TurnShape(starts, ends, pos, word, aug.wordsPerRow)
    requires t < |pos| && pos[t] < ends[t]
    requires InFlight(before, WordRows(aug), elim, pivotRow, owner, pos, word, aug.wordsPerRow)
    modifies aug.data
    ensures TurnShape(starts, ends, pos', word', aug.wordsPerRow)
    ensures InFlight(before, WordRows(aug), elim, pivotRow, owner, pos', word', aug.wordsPerRow)
    ensures Sum(Left(pos', ends)) < Sum(Left(pos, ends))
         || (pos' == pos && Sum(Left(word', seq(|word'|, _ => aug.wordsPerRow))) < Sum(Left(word, seq(|word|, _ => aug.wordsPerRow))))
  {
    hide FlatBits;
    hide RowBits;
    hide XorW;
    hide InFlight;
    ChunksInside(starts, ends, owner, |elim|);
    hide IsPartition;
    var e, words := pos[t], aug.wordsPerRow;
    ghost var now := WordRows(aug);
    if word[t] < words {
      aug.XorWordAt(elim[e], pivotRow, word[t]);
      WordStep(before, now, WordRows(aug), elim, pivotRow, owner, starts, ends, pos, word, words, t);
      ghost var limits := seq(|word|, _ => words);
      LeftDecreases(word, limits, t);
      pos', word' := pos, word[t := word[t] + 1];
      assert seq(|word'|, _ => words) == limits;
    } else {
      RowStep(before, now, elim, pivotRow, owner, starts, ends, pos, word, words, t);
      LeftDecreases(pos, ends, t);
      pos', word' := pos[t := e + 1], word[t := 0];
    }
  }

  lemma FlightStarts(before: seq<seq<Word>>, elim: seq<nat>, pivotRow: nat, owner: seq<nat>,
                     starts: seq<nat>, ends: seq<nat>, word: seq<nat>, words: nat)
    requires IsPartition(starts, ends, owner, |elim|) && pivotRow < |before| && |word| == |starts|
    requires forall r :: 0 <= r < |before| ==> |before[r]| == words
    requires forall e :: 0 <= e < |elim| ==> elim[e] < |before|
    requires forall t :: 0 <= t < |word| ==> word[t] == 0
    ensures InFlight(before, before, elim, pivotRow, owner, starts, word, words)
  {
    hide XorW;
  }

  lemma WordStep(before: seq<seq<Word>>, now: seq<seq<Word>>, next: seq<seq<Word>>, elim: seq<nat>, pivotRow: nat,
                 owner: seq<nat>, starts: seq<nat>, ends: seq<nat>, pos: seq<nat>, word: seq<nat>, words: nat, t: nat)
    requires IsPartition(starts, ends, owner, |elim|) && pivotRow < |before| == |now| == |next|
    requires |pos| == |word| == |starts| && t < |pos| && starts[t] <= pos[t] < ends[t] && word[t] < words
    requires forall r :: 0 <= r < |before| ==> |before[r]| == words && |now[r]| == words
    requires forall e :: 0 <= e < |elim| ==> elim[e] < |before| && elim[e] != pivotRow
    requires forall i, j :: 0 <= i < j < |elim| ==> elim[i] < elim[j]
    requires InFlight(before, now, elim, pivotRow, owner, pos, word, words)
    requires var d, k := elim[pos[t]], word[t];
             next[d] == now[d][k := XorW(now[d][k], now[pivotRow][k])]
    requires forall r :: 0 <= r < |before| && r != elim[pos[t]] ==> next[r] == now[r]
    ensures InFlight(before, next, elim, pivotRow, owner, pos, word[t := word[t] + 1], words)
  {
    hide XorW;
    var word' := word[t := word[t] + 1];
    assert pivotRow !in elim;
    assert now[pivotRow] == before[pivotRow];
    forall e | 0 <= e < |elim|
      ensures PartlyAdded(before[elim[e]], before[pivotRow], next[elim[e]], DoneWords(e, owner, pos, word', words))
    {
      assert PartlyAdded(before[elim[e]], before[pivotRow], now[elim[e]], DoneWords(e, owner, pos, word, words));
      if e == pos[t] {
        assert owner[e] == t;
      } else {
        assert elim[e] != elim[pos[t]];
        assert DoneWords(e, owner, pos, word', words) == DoneWords(e, owner, pos, word, words);
      }
    }
  }

  lemma RowStep(before: seq<seq<Word>>, now: seq<seq<Word>>, elim: seq<nat>, pivotRow: nat,
                owner: seq<nat>, starts: seq<nat>, ends: seq<nat>, pos: seq<nat>, word: seq<nat>, words: nat, t: nat)
    requires IsPartition(starts, ends, owner, |elim|) && pivotRow < |before| == |now|
    requires |pos| == |word| == |starts| && t < |pos| && starts[t] <= pos[t] < ends[t] && word[t] == words
    requires forall r :: 0 <= r < |before| ==> |before[r]| == words
    requires forall e :: 0 <= e < |elim| ==> elim[e] < |before|
    requires InFlight(before, now, elim, pivotRow, owner, pos, word, words)
    ensures InFlight(before, now, elim, pivotRow, owner, pos[t := pos[t] + 1], word[t := 0], words)
  {
    hide XorW;
    hide PartlyAdded;
    var pos', word' := pos[t := pos[t] + 1], word[t := 0];
    forall e | 0 <= e < |elim|
      ensures DoneWords(e, owner, pos', word', words) == DoneWords(e, owner, pos, word, words)
    {
    }
  }

  lemma FlightEnds(before: seq<seq<Word>>, now: seq<seq<Word>>, elim: seq<nat>, pivotRow: nat,
                   owner: seq<nat>, starts: seq<nat>, ends: seq<nat>, pos: seq<nat>, word: seq<nat>, words: nat)
    requires IsPartition(starts, ends, owner, |elim|) && pivotRow < |before| == |now|
    requires |pos| == |word| == |starts| && forall t :: 0 <= t < |pos| ==> pos[t] == ends[t]
    requires forall r :: 0 <= r < |before| ==> |before[r]| == words && |now[r]| == words
    requires forall e :: 0 <= e < |elim| ==> elim[e] < |before|
    requires InFlight(before, now, elim, pivotRow, owner, pos, word, words)
    ensures RowsAdded(before, now, elim, pivotRow, words)
  {
    hide XorW;
    forall r | 0 <= r < |before|
      ensures now[r] == if r in elim then XorWords(before[r], before[pivotRow]) else before[r]
    {
      if r in elim {
        var e :| 0 <= e < |elim| && elim[e] == r;
        assert PartlyAdded(before[elim[e]], before[pivotRow], now[elim[e]], DoneWords(e, owner, pos, word, words));
      }
    }
  }
}
