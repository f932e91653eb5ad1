/**
 Bits of 64-bit words.  A bit index is a natural number below 64; `Amount` is the
 corresponding six-bit shift amount.

 The shifts, masks and bitwise operations of the packed matrix are named functions here, so
 that proofs about rows and columns see only the lemmas on single bits (`BitXor`, `BitSet`,
 `BitAnd`, `BitHighMask`, `BitLowMask`) and the fact that a word is zero exactly when all its
 bits are clear (`ZeroWord`).
 */
module Words {
  type Word = bv64

  const ALL_ONES: Word := 0xFFFF_FFFF_FFFF_FFFF

  // ---------- shift amounts ----------

  datatype Six = Six(b5: bool, b4: bool, b3: bool, b2: bool, b1: bool, b0: bool)

  function Digits(i: nat): Six {
    var h1 := i / 2;
    var h2 := h1 / 2;
    var h3 := h2 / 2;
    var h4 := h3 / 2;
    var h5 := h4 / 2;
    Six(h5 % 2 == 1, h4 % 2 == 1, h3 % 2 == 1, h2 % 2 == 1, h1 % 2 == 1, i % 2 == 1)
  }

  function Pack(d: Six): (a: Word)
    ensures a < 64
  {
    (if d.b5 then 32 else 0) | (if d.b4 then 16 else 0) | (if d.b3 then 8 else 0) |
    (if d.b2 then 4 else 0) | (if d.b1 then 2 else 0) | (if d.b0 then 1 else 0)
  }

  function Value(d: Six): nat {
    (if d.b5 then 32 else 0) + (if d.b4 then 16 else 0) + (if d.b3 then 8 else 0) +
    (if d.b2 then 4 else 0) + (if d.b1 then 2 else 0) + (if d.b0 then 1 else 0)
  }

  function Amount(i: nat): (a: Word)
    ensures a < 64
  {
    Pack(Digits(i))
  }

  predicate Lex(b: Six, c: Six) {
    if b.b5 != c.b5 then c.b5
    else if b.b4 != c.b4 then c.b4
    else if b.b3 != c.b3 then c.b3
    else if b.b2 != c.b2 then c.b2
    else if b.b1 != c.b1 then c.b1
    else !b.b0 && c.b0
  }

  lemma DigitsValue(i: nat)
    requires i < 64
    ensures Value(Digits(i)) == i
  {
  }

  lemma PackOrder(b: Six, c: Six)
    ensures Pack(b) < Pack(c) <==> Lex(b, c)
  {
  }

  lemma ValueOrder(b: Six, c: Six)
    ensures Value(b) < Value(c) <==> Lex(b, c)
  {
  }

  lemma PackNext(b: Six, c: Six)
    requires Value(c) == Value(b) + 1
    ensures Pack(c) == Pack(b) + 1
  {
    assert b.b0 != c.b0;
    assert !b.b0 ==> c == b.(b0 := true);
    assert b.b0 ==> b.b1 != c.b1;
  }

  lemma AmountOrder(i: nat, j: nat)
    requires i < 64 && j < 64
    ensures i < j <==> Amount(i) < Amount(j)
  {
    hide Value;
    hide Pack;
    hide Lex;
    hide Digits;
    DigitsValue(i);
    DigitsValue(j);
    PackOrder(Digits(i), Digits(j));
    ValueOrder(Digits(i), Digits(j));
  }

  lemma AmountNext(i: nat)
    requires i < 63
    ensures Amount(i + 1) == Amount(i) + 1 && Amount(i) < 63
  {
    hide Value;
    hide Pack;
    hide Digits;
    DigitsValue(i);
    DigitsValue(i + 1);
    PackNext(Digits(i), Digits(i + 1));
    AmountOrder(i, i + 1);
    AmountOrder(i + 1, i);
  }

  // ---------- word operations, named so that proofs can treat them as black boxes ----------

  function XorW(v: Word, w: Word): Word { v ^ w }

  function AndW(v: Word, w: Word): Word { v & w }

  function OrW(v: Word, w: Word): Word { v | w }

  predicate TestW(w: Word, i: nat)
    requires i < 64
  {
    (w >> Amount(i)) & 1 == 1
  }

  // ---------- single bits ----------

  predicate BitAt(w: Word, a: Word)
    requires a < 64
  {
    (w >> a) & 1 == 1
  }

  predicate Bit(w: Word, i: nat)
    requires i < 64
  {
    BitAt(w, Amount(i))
  }

  lemma XorAt(v: Word, w: Word, a: Word)
    requires a < 64
    ensures BitAt(v ^ w, a) == (BitAt(v, a) != BitAt(w, a))
  {
  }

  lemma SetAt(w: Word, a: Word, b: Word)
    requires a < 64 && b < 64
    ensures BitAt(w | ((1 as Word) << a), b) == (BitAt(w, b) || a == b)
  {
  }

  lemma AndAt(v: Word, w: Word, a: Word)
    requires a < 64
    ensures BitAt(v & w, a) == (BitAt(v, a) && BitAt(w, a))
  {
  }

  lemma HighOnesAt(s: Word, a: Word)
    requires s < 64 && a < 64
    ensures BitAt(ALL_ONES << s, a) == (s <= a)
  {
  }

  /** Below and above bit e: the low mask is the complement of the high mask. */
  lemma MasksComplement(e: Word)
    requires e < 64
    ensures ((1 as Word) << e) - 1 == ALL_ONES ^ (ALL_ONES << e)
  {
  }

  lemma LowOnesAt(e: Word, a: Word)
    requires e < 64 && a < 64
    ensures BitAt(((1 as Word) << e) - 1, a) == (a < e)
  {
    hide BitAt;
    MasksComplement(e);
    HighOnesAt(e, a);
    XorAt(ALL_ONES, ALL_ONES << e, a);
    OnesAt(a);
  }

  lemma OnesAt(a: Word)
    requires a < 64
    ensures BitAt(ALL_ONES, a)
  {
  }

  /** Ones from bit s upwards. */
  function HighMask(s: nat): Word {
    ALL_ONES << Amount(s)
  }

  /** Ones below bit e. */
  function LowMask(e: nat): Word {
    ((1 as Word) << Amount(e)) - 1
  }

  function SingleBit(i: nat): Word {
    (1 as Word) << Amount(i)
  }

  lemma BitXor(v: Word, w: Word, i: nat)
    requires i < 64
    ensures Bit(XorW(v, w), i) == (Bit(v, i) != Bit(w, i))
  {
    hide BitAt;
    hide Amount;
    XorAt(v, w, Amount(i));
  }

  lemma BitSet(w: Word, i: nat, j: nat)
    requires i < 64 && j < 64
    ensures Bit(OrW(w, SingleBit(i)), j) == (Bit(w, j) || i == j)
  {
    hide BitAt;
    hide Amount;
    AmountOrder(i, j);
    AmountOrder(j, i);
    SetAt(w, Amount(i), Amount(j));
  }

  lemma BitAnd(v: Word, w: Word, i: nat)
    requires i < 64
    ensures Bit(AndW(v, w), i) == (Bit(v, i) && Bit(w, i))
  {
    hide BitAt;
    hide Amount;
    AndAt(v, w, Amount(i));
  }

  lemma BitHighMask(s: nat, i: nat)
    requires s < 64 && i < 64
    ensures Bit(HighMask(s), i) == (s <= i)
  {
    hide BitAt;
    hide Amount;
    AmountOrder(i, s);
    HighOnesAt(Amount(s), Amount(i));
  }

  lemma BitLowMask(e: nat, i: nat)
    requires e < 64 && i < 64
    ensures Bit(LowMask(e), i) == (i < e)
  {
    hide BitAt;
    hide Amount;
    AmountOrder(i, e);
    LowOnesAt(Amount(e), Amount(i));
  }

  // ---------- the zero word ----------

  function ShiftRight(w: Word, a: Word): Word
    requires a < 64
  {
    w >> a
  }

  function Shifted(w: Word, k: nat): Word {
    ShiftRight(w, Amount(k))
  }

  lemma ShiftStep(w: Word, a: Word, b: Word)
    requires a < 63 && b == a + 1 && ShiftRight(w, b) == 0 && !BitAt(w, a)
    ensures ShiftRight(w, a) == 0
  {
  }

  lemma ShiftStepAt(w: Word, k: nat)
    requires k < 63 && Shifted(w, k + 1) == 0 && !Bit(w, k)
    ensures Shifted(w, k) == 0
  {
    hide Amount;
    hide BitAt;
    hide ShiftRight;
    AmountNext(k);
    ShiftStep(w, Amount(k), Amount(k + 1));
  }

  lemma {:induction false} HighBitsClear(w: Word, k: nat)
    requires k < 64 && forall i :: k <= i < 64 ==> !Bit(w, i)
    ensures Shifted(w, k) == 0
    decreases 64 - k
  {
    hide Shifted;
    hide Bit;
    assert !Bit(w, k);
    if k == 63 {
      TopBit(w);
    } else {
      HighBitsClear(w, k + 1);
      ShiftStepAt(w, k);
    }
  }

  lemma TopBit(w: Word)
    requires !Bit(w, 63)
    ensures Shifted(w, 63) == 0
  {
    assert Amount(63) == 63;
  }

  /** A word is zero exactly when all its 64 bits are. */
  lemma ZeroWord(w: Word)
    ensures w == 0 <==> forall i :: 0 <= i < 64 ==> !Bit(w, i)
  {
    if w == 0 {
      forall i | 0 <= i < 64 ensures !Bit(w, i) {
        ZeroAt(Amount(i));
      }
    }
    if forall i :: 0 <= i < 64 ==> !Bit(w, i) {
      HighBitsClear(w, 0);
      assert Amount(0) == 0;
    }
  }

  lemma ZeroAt(a: Word)
    ensures a < 64 ==> !BitAt(0, a)
  {
  }
}
