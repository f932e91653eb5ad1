/**
 The word-packed matrix of src/linalg/block_lanczos.cpp: one flat array of 64-bit words,
 `wordsPerRow` of them for each row.  Every operation is specified on the boolean matrix
 the words stand for; padding bits after the last column never show.
 */
module PackedMatrix {
  import opened Words
  import opened GF2
  import opened Elimination
  import opened NumberTheory

  // ---------- rows of words and the bits they stand for ----------

  predicate BitOf(ws: seq<Word>, c: nat)
    requires c < 64 * |ws|
  {
    Bit(ws[c / 64], c % 64)
  }

  function RowBits(ws: seq<Word>, cols: nat): (v: Vec)
    requires cols <= 64 * |ws|
    ensures |v| == cols
  {
    seq(cols, c requires 0 <= c < cols => BitOf(ws, c))
  }

  function XorWords(u: seq<Word>, v: seq<Word>): (r: seq<Word>)
    requires |u| == |v|
    ensures |r| == |u|
  {
    seq(|u|, k requires 0 <= k < |u| => XorW(u[k], v[k]))
  }

  function SetWord(ws: seq<Word>, c: nat): (r: seq<Word>)
    requires c < 64 * |ws|
    ensures |r| == |ws|
  {
    ws[c / 64 := OrW(ws[c / 64], SingleBit(c % 64))]
  }

  lemma BitOfXor(u: seq<Word>, v: seq<Word>, c: nat)
    requires |u| == |v| && c < 64 * |u|
    ensures BitOf(XorWords(u, v), c) == (BitOf(u, c) != BitOf(v, c))
  {
    hide Bit;
    hide XorW;
    var w, i := c / 64, c % 64;
    BitXor(u[w], v[w], i);
  }

  lemma BitOfSet(ws: seq<Word>, c: nat, d: nat)
    requires c < 64 * |ws| && d < 64 * |ws|
    ensures BitOf(SetWord(ws, c), d) == (BitOf(ws, d) || c == d)
  {
    hide Bit;
    hide SingleBit;
    hide OrW;
    var w, i, x, j := c / 64, c % 64, d / 64, d % 64;
    assert c == 64 * w + i && d == 64 * x + j;
    BitSet(ws[w], i, j);
  }

  lemma XorWordsBits(u: seq<Word>, v: seq<Word>, cols: nat)
    requires |u| == |v| && cols <= 64 * |u|
    ensures RowBits(XorWords(u, v), cols) == XorVec(RowBits(u, cols), RowBits(v, cols))
  {
    hide BitOf;
    hide XorWords;
    forall c | 0 <= c < cols
      ensures RowBits(XorWords(u, v), cols)[c] == XorVec(RowBits(u, cols), RowBits(v, cols))[c]
    {
      BitOfXor(u, v, c);
    }
  }

  lemma SetWordBits(ws: seq<Word>, cols: nat, c: nat)
    requires cols <= 64 * |ws| && c < cols
    ensures RowBits(SetWord(ws, c), cols) == RowBits(ws, cols)[c := true]
  {
    hide BitOf;
    hide SetWord;
    forall d | 0 <= d < cols ensures RowBits(SetWord(ws, c), cols)[d] == RowBits(ws, cols)[c := true][d] {
      BitOfSet(ws, c, d);
    }
  }

  lemma ZeroWordsBits(ws: seq<Word>, c: nat)
    requires c < 64 * |ws| && forall w :: 0 <= w < |ws| ==> ws[w] == 0
    ensures !BitOf(ws, c)
  {
    hide Bit;
    ZeroWord(0);
    var i := c % 64;
    assert !Bit(0, i);
  }

  // ---------- masks ----------

  function HighPart(w: nat, start: nat): Word {
    if w == start / 64 && start % 64 != 0 then HighMask(start % 64) else ALL_ONES
  }

  function LowPart(w: nat, end: nat): Word {
    if w + 1 == (end + 63) / 64 && end % 64 != 0 then LowMask(end % 64) else ALL_ONES
  }

  lemma HighPartBit(w: nat, start: nat, i: nat)
    requires start / 64 <= w && i < 64
    ensures Bit(HighPart(w, start), i) <==> start <= 64 * w + i
  {
    hide Bit;
    hide HighMask;
    var q, r := start / 64, start % 64;
    assert start == 64 * q + r;
    AllOnesBit(i);
    BitHighMask(r, i);
  }

  lemma LowPartBit(w: nat, end: nat, i: nat)
    requires w < (end + 63) / 64 && i < 64
    ensures Bit(LowPart(w, end), i) <==> 64 * w + i < end
  {
    hide Bit;
    hide LowMask;
    var q, r := end / 64, end % 64;
    assert end == 64 * q + r;
    assert (end + 63) / 64 == if r == 0 then q else q + 1;
    AllOnesBit(i);
    BitLowMask(r, i);
  }

  lemma AllOnesBit(i: nat)
    requires i < 64
    ensures Bit(ALL_ONES, i)
  {
    hide BitAt;
    hide Amount;
    OnesAt(Amount(i));
  }

  /** The masked word is zero exactly when the columns of the range it holds are. */
  lemma MaskedWordZero(word: Word, w: nat, start: nat, end: nat)
    requires start / 64 <= w < (end + 63) / 64
    ensures AndW(AndW(word, HighPart(w, start)), LowPart(w, end)) == 0
       <==> forall i :: 0 <= i < 64 && start <= 64 * w + i < end ==> !Bit(word, i)
  {
    hide Bit;
    hide HighPart;
    hide LowPart;
    hide AndW;
    var masked := AndW(AndW(word, HighPart(w, start)), LowPart(w, end));
    ZeroWord(masked);
    forall i | 0 <= i < 64
      ensures Bit(masked, i) <==> Bit(word, i) && start <= 64 * w + i < end
    {
      BitAnd(word, HighPart(w, start), i);
      BitAnd(AndW(word, HighPart(w, start)), LowPart(w, end), i);
      HighPartBit(w, start, i);
      LowPartBit(w, end, i);
    }
  }

  // ---------- indices into the flat array ----------

  function RowStart(r: nat, words: nat): nat {
    r * words
  }

  lemma RowFits(r: nat, rows: nat, words: nat)
    requires r < rows
    ensures RowStart(r, words) + words <= RowStart(rows, words)
  {
    MulMonotone(words, r + 1, rows);
    Distribute(words, r, 1);
  }

  lemma RowsDisjoint(r: nat, s: nat, words: nat)
    requires r != s
    ensures RowStart(r, words) + words <= RowStart(s, words) || RowStart(s, words) + words <= RowStart(r, words)
  {
    if r < s { RowFits(r, s, words); } else { RowFits(s, r, words); }
  }

  predicate InBlock(i: int, start: int, len: int) {
    start <= i < start + len
  }

  predicate BlocksApart(p: nat, q: nat, len: nat) {
    p == q || p + len <= q || q + len <= p
  }

  /** a[d..] ^= a[s..] over len words. */
  method XorBlocks(a: array<Word>, d: nat, s: nat, len: nat)
    requires d + len <= a.Length && s + len <= a.Length && BlocksApart(d, s, len)
    modifies a
    ensures forall i :: 0 <= i < a.Length && !InBlock(i, d, len) ==> a[i] == old(a[i])
    ensures a[d..d + len] == XorWords(old(a[d..d + len]), old(a[s..s + len]))
  {
    hide XorW;
    ghost var target, source := a[d..d + len], a[s..s + len];
    for w := 0 to len
      invariant forall i :: 0 <= i < a.Length && !InBlock(i, d, w) ==> a[i] == old(a[i])
      invariant forall k :: 0 <= k < w ==> a[d + k] == XorW(target[k], source[k])
    {
      assert a[d + w] == target[w] && a[s + w] == source[w];
      a[d + w] := XorW(a[d + w], a[s + w]);
    }
  }

  method SwapBlocks<T>(a: array<T>, p: nat, q: nat, len: nat)
    requires p + len <= a.Length && q + len <= a.Length && BlocksApart(p, q, len)
    modifies a
    ensures forall i :: 0 <= i < a.Length && !InBlock(i, p, len) && !InBlock(i, q, len) ==> a[i] == old(a[i])
    ensures a[p..p + len] == old(a[q..q + len]) && a[q..q + len] == old(a[p..p + len])
  {
    ghost var first, second := a[p..p + len], a[q..q + len];
    for w := 0 to len
      invariant forall i :: 0 <= i < a.Length && !InBlock(i, p, w) && !InBlock(i, q, w) ==> a[i] == old(a[i])
      invariant forall k :: 0 <= k < w ==> a[p + k] == second[k] && a[q + k] == first[k]
    {
      assert a[p + w] == first[w] && a[q + w] == second[w];
      a[p + w], a[q + w] := a[q + w], a[p + w];
    }
    assert a[p..p + len] == second && a[q..q + len] == first;
  }

  /** Rows other than r and s, when only those two blocks of the flat array changed. */
  lemma OtherRowsKept(d0: seq<Word>, d1: seq<Word>, r: nat, s: nat, t: nat, rows: nat, words: nat)
    requires r < rows && s < rows && t < rows && t != r && t != s
    requires |d0| == |d1| == RowStart(rows, words)
    requires forall i :: 0 <= i < |d0| && !InBlock(i, RowStart(r, words), words)
                         && !InBlock(i, RowStart(s, words), words)
                         ==> d1[i] == d0[i]
    ensures RowStart(t, words) + words <= |d0|
    ensures d1[RowStart(t, words)..RowStart(t, words) + words] == d0[RowStart(t, words)..RowStart(t, words) + words]
  {
    hide RowStart;
    RowFits(t, rows, words);
    RowsDisjoint(t, r, words);
    RowsDisjoint(t, s, words);
  }

  /** The words of row r in a flat list. */
  ghost function Block(d: seq<Word>, r: nat, rows: nat, words: nat): seq<Word>
    requires r < rows && |d| == RowStart(rows, words)
  {
    RowFits(r, rows, words);
    d[RowStart(r, words)..RowStart(r, words) + words]
  }

  /** Setting word k of row r sets it in that row and leaves the other rows alone. */
  lemma WordSetInRow(d0: seq<Word>, d1: seq<Word>, r: nat, k: nat, w: Word, rows: nat, words: nat)
    requires r < rows && k < words && |d0| == RowStart(rows, words)
    requires RowStart(r, words) + words <= |d0| && d1 == d0[RowStart(r, words) + k := w]
    ensures |Block(d0, r, rows, words)| == words && Block(d1, r, rows, words) == Block(d0, r, rows, words)[k := w]
    ensures forall t :: 0 <= t < rows && t != r ==> Block(d1, t, rows, words) == Block(d0, t, rows, words)
  {
    hide RowStart;
    forall t | 0 <= t < rows && t != r ensures Block(d1, t, rows, words) == Block(d0, t, rows, words) {
      OtherRowsKept(d0, d1, r, r, t, rows, words);
    }
  }

  /** The boolean matrix a flat list of words stands for. */
  ghost function FlatBits(d: seq<Word>, rows: nat, cols: nat, words: nat): (b: Matrix)
    requires |d| == RowStart(rows, words) && cols <= 64 * words
    ensures Rect(b, rows, cols)
  {
    seq(rows, r requires 0 <= r < rows => RowFits(r, rows, words);
      RowBits(d[RowStart(r, words)..RowStart(r, words) + words], cols))
  }

  class PackedGF2Matrix {
    const rows: nat
    const cols: nat
    const wordsPerRow: nat
    const data: array<Word>

    ghost predicate Valid() {
      && cols <= 64 * wordsPerRow < cols + 64
      && data.Length == RowStart(rows, wordsPerRow)
    }

    /** The words of one row. */
    ghost function WordRow(r: nat): (ws: seq<Word>)
      requires Valid() && r < rows
      reads data
      ensures |ws| == wordsPerRow
    {
      RowFits(r, rows, wordsPerRow);
      data[RowStart(r, wordsPerRow)..RowStart(r, wordsPerRow) + wordsPerRow]
    }

    ghost function Bits(): (b: Matrix)
      requires Valid()
      reads data
      ensures Rect(b, rows, cols)
      ensures forall r :: 0 <= r < rows ==> b[r] == RowBits(WordRow(r), cols)
    {
      FlatBits(data[..], rows, cols, wordsPerRow)
    }

    constructor (rows: nat, cols: nat)
      ensures Valid() && this.rows == rows && this.cols == cols && fresh(data)
      ensures forall r, c :: 0 <= r < rows && 0 <= c < cols ==> !Bits()[r][c]
    {
      hide RowStart;
      var words := (cols + 63) / 64;
      this.rows := rows;
      this.cols := cols;
      this.wordsPerRow := words;
      data := new Word[RowStart(rows, words)](_ => 0);
      new;
      hide BitOf;
      forall r, c | 0 <= r < rows && 0 <= c < cols ensures !Bits()[r][c] {
        RowFits(r, rows, wordsPerRow);
        ZeroWordsBits(WordRow(r), c);
      }
    }

    method Set(row: nat, col: nat)
      requires Valid() && row < rows && col < cols
      modifies data
      ensures Bits() == old(Bits())[row := old(Bits())[row][col := true]]
    {
      hide RowStart;
      hide SingleBit;
      hide OrW;
      hide RowBits;
      RowFits(row, rows, wordsPerRow);
      ghost var before := WordRow(row);
      var index := RowStart(row, wordsPerRow) + col / 64;
      data[index] := OrW(data[index], SingleBit(col % 64));
      assert WordRow(row) == SetWord(before, col);
      SetWordBits(before, cols, col);
      hide SetWord;
      forall r | 0 <= r < rows && r != row ensures WordRow(r) == old(WordRow(r)) {
        RowFits(r, rows, wordsPerRow);
        RowsDisjoint(r, row, wordsPerRow);
      }
    }

    method Test(row: nat, col: nat) returns (b: bool)
      requires Valid() && row < rows && col < cols
      ensures b == Bits()[row][col]
    {
      hide RowStart;
      hide TestW;
      hide Bit;
      RowFits(row, rows, wordsPerRow);
      b := TestW(data[RowStart(row, wordsPerRow) + col / 64], col % 64);
      TestIsBit(data[RowStart(row, wordsPerRow) + col / 64], col % 64);
      assert b == BitOf(WordRow(row), col);
    }

    /** Overwrites the words, as a checkpoint is restored. */
    method Restore(words: seq<Word>)
      requires Valid() && |words| == data.Length
      modifies data
      ensures data[..] == words
    {
      forall i | 0 <= i < data.Length {
        data[i] := words[i];
      }
    }

    /** One word of a row addition: the granularity at which threads interleave. */
    method XorWordAt(dst: nat, src: nat, k: nat)
      requires Valid() && dst < rows && src < rows && dst != src && k < wordsPerRow
      modifies data
      ensures WordRow(dst) == old(WordRow(dst))[k := XorW(old(WordRow(dst))[k], old(WordRow(src))[k])]
      ensures forall r :: 0 <= r < rows && r != dst ==> WordRow(r) == old(WordRow(r))
    {
      hide XorW;
      hide RowStart;
      RowFits(dst, rows, wordsPerRow);
      RowFits(src, rows, wordsPerRow);
      ghost var before := data[..];
      RowsAreBlocks();
      var d, s := RowStart(dst, wordsPerRow) + k, RowStart(src, wordsPerRow) + k;
      assert WordRow(dst)[k] == data[d] && WordRow(src)[k] == data[s];
      var sum := XorW(data[d], data[s]);
      data[d] := sum;
      RowsAreBlocks();
      hide WordRow;
      hide Block;
      WordSetInRow(before, data[..], dst, k, sum, rows, wordsPerRow);
    }

    lemma RowsAreBlocks()
      requires Valid()
      ensures forall r :: 0 <= r < rows ==> WordRow(r) == Block(data[..], r, rows, wordsPerRow)
    {
      hide RowStart;
    }

    /** Adds row src to row dst, word by word. */
    method XorRows(dst: nat, src: nat)
      requires Valid() && dst < rows && src < rows
      modifies data
      ensures Bits() == XorRow(old(Bits()), dst, src)
      ensures WordRow(dst) == XorWords(old(WordRow(dst)), old(WordRow(src)))
      ensures forall r :: 0 <= r < rows && r != dst ==> WordRow(r) == old(WordRow(r))
    {
      hide RowBits;
      hide FlatBits;
      hide RowStart;
      hide XorVec;
      hide XorWords;
      ghost var target, source, before := WordRow(dst), WordRow(src), data[..];
      RowFits(dst, rows, wordsPerRow);
      RowFits(src, rows, wordsPerRow);
      if dst != src { RowsDisjoint(dst, src, wordsPerRow); }
      XorBlocks(data, RowStart(dst, wordsPerRow), RowStart(src, wordsPerRow), wordsPerRow);
      XorWordsBits(target, source, cols);
      forall r | 0 <= r < rows && r != dst ensures WordRow(r) == old(WordRow(r)) {
        OtherRowsKept(before, data[..], dst, dst, r, rows, wordsPerRow);
      }
    }

    method SwapRows(r1: nat, r2: nat)
      requires Valid() && r1 < rows && r2 < rows
      modifies data
      ensures Bits() == Elimination.SwapRows(old(Bits()), r1, r2)
    {
      hide RowBits;
      hide FlatBits;
      hide RowStart;
      ghost var before := data[..];
      RowFits(r1, rows, wordsPerRow);
      RowFits(r2, rows, wordsPerRow);
      if r1 != r2 { RowsDisjoint(r1, r2, wordsPerRow); }
      SwapBlocks(data, RowStart(r1, wordsPerRow), RowStart(r2, wordsPerRow), wordsPerRow);
      forall r | 0 <= r < rows && r != r1 && r != r2 ensures WordRow(r) == old(WordRow(r)) {
        OtherRowsKept(before, data[..], r1, r2, r, rows, wordsPerRow);
      }
    }

    /** Whether columns start <= c < end of the row are all zero; the range may be ragged, empty or beyond the words. */
    method IsZeroRange(row: nat, start: nat, end: nat) returns (zero: bool)
      requires Valid() && row < rows
      ensures zero <==> forall c :: start <= c < end && c < 64 * wordsPerRow ==> !BitOf(WordRow(row), c)
      ensures end <= cols ==> (zero <==> forall c :: start <= c < end ==> !Bits()[row][c])
    {
      hide RowStart;
      hide BitOf;
      hide HighMask;
      hide LowMask;
      hide HighPart;
      hide LowPart;
      hide AndW;
      RowFits(row, rows, wordsPerRow);
      var w, endWord := start / 64, (end + 63) / 64;
      ghost var ws := WordRow(row);
      while w < endWord && w < wordsPerRow
        invariant start / 64 <= w
        invariant forall c :: start <= c < end && c < 64 * w && c < 64 * wordsPerRow ==> !BitOf(ws, c)
        decreases endWord - w
      {
        var mask := ALL_ONES;
        if w == start / 64 && start % 64 != 0 {
          mask := AndW(mask, HighMask(start % 64));
        }
        if w == endWord - 1 && end % 64 != 0 {
          mask := AndW(mask, LowMask(end % 64));
        }
        var word := data[RowStart(row, wordsPerRow) + w];
        assert word == ws[w];
        MaskCombines(word, mask, w, start, end);
        ColumnsOfWord(ws, w, start, end);
        if AndW(word, mask) != 0 {
          ghost var c :| start <= c < end && 64 * w <= c < 64 * w + 64 && BitOf(ws, c);
          assert BitOf(WordRow(row), c);
          if end <= cols { assert Bits()[row][c]; }
          return false;
        }
        w := w + 1;
      }
      zero := true;
    }

    /** The first numBits columns of the row. */
    method ExtractBits(row: nat, numBits: nat) returns (result: Vec)
      requires Valid() && row < rows && numBits <= cols
      ensures result == Bits()[row][..numBits]
    {
      hide RowBits;
      result := seq(numBits, _ => false);
      for i := 0 to numBits
        invariant |result| == numBits
        invariant forall c :: 0 <= c < numBits ==> result[c] == (c < i && Bits()[row][c])
      {
        var b := Test(row, i);
        if b {
          result := result[i := true];
        }
      }
    }
  }

  lemma MaskCombines(word: Word, mask: Word, w: nat, start: nat, end: nat)
    requires var high := if w == start / 64 && start % 64 != 0 then AndW(ALL_ONES, HighMask(start % 64)) else ALL_ONES;
             mask == if w == (end + 63) / 64 - 1 && end % 64 != 0 then AndW(high, LowMask(end % 64)) else high
    ensures AndW(word, mask) == AndW(AndW(word, HighPart(w, start)), LowPart(w, end))
  {
    hide HighMask;
    hide LowMask;
    var high, low := HighPart(w, start), LowPart(w, end);
    AndRules(word, high, low);
    AndRules(ALL_ONES, HighMask(start % 64), low);
    AndRules(word, ALL_ONES, low);
    hide AndW;
  }

  lemma AndRules(x: Word, y: Word, z: Word)
    ensures AndW(x, AndW(y, z)) == AndW(AndW(x, y), z)
    ensures AndW(x, ALL_ONES) == x && AndW(ALL_ONES, y) == y && AndW(ALL_ONES, z) == z
  {
  }

  lemma TestIsBit(w: Word, i: nat)
    requires i < 64
    ensures TestW(w, i) == Bit(w, i)
  {
    hide Amount;
  }

  lemma ColumnsOfWord(ws: seq<Word>, w: nat, start: nat, end: nat)
    requires start / 64 <= w < (end + 63) / 64 && w < |ws|
    ensures AndW(AndW(ws[w], HighPart(w, start)), LowPart(w, end)) == 0
       <==> forall c :: start <= c < end && 64 * w <= c < 64 * w + 64 ==> !BitOf(ws, c)
  {
    hide Bit;
    hide HighPart;
    hide LowPart;
    hide AndW;
    hide BitOf;
    MaskedWordZero(ws[w], w, start, end);
    forall c | start <= c < end && 64 * w <= c < 64 * w + 64
      ensures BitOf(ws, c) == Bit(ws[w], c - 64 * w)
    {
      BitOfIndex(ws, w, c - 64 * w);
    }
    forall i | 0 <= i < 64 && start <= 64 * w + i < end ensures BitOf(ws, 64 * w + i) == Bit(ws[w], i) {
      BitOfIndex(ws, w, i);
    }
  }

  lemma BitOfIndex(ws: seq<Word>, w: nat, i: nat)
    requires w < |ws| && i < 64
    ensures BitOf(ws, 64 * w + i) == Bit(ws[w], i)
  {
    hide Bit;
    assert (64 * w + i) / 64 == w && (64 * w + i) % 64 == i;
  }
}
