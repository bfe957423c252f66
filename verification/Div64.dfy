/**
  The multi-word division of the ANSI build of the fixed-point library: a value of two
  32-bit cells is divided by one cell, using only cell arithmetic that wraps around.
  */
module Div64 {
  import opened Arith
  import opened Words

  const WORD := 0x1_0000

  /** An unsigned half cell (`word_t`). */
  type Word = x: int | 0 <= x < 0x1_0000

  function HiWord(v: UCell): Word { v / WORD }

  function LoWord(v: UCell): Word { v % WORD }

  /** Cell subtraction and the left shift over half a cell, both of which drop the carry. */
  function Sub(a: UCell, b: UCell): UCell { (a - b) % CELL }

  function ShiftUp(v: UCell): UCell { (v * WORD) % CELL }

  /** The double-cell value held in `t`, with the low cell first. */
  function Value(t: seq<UCell>): nat
    requires |t| == 2
  {
    t[1] * CELL + t[0]
  }

  /** The test `(x -= b) > ucell(-1) - b` that the routine uses holds exactly on a borrow. */
  lemma BorrowTestIsExact(a: UCell, b: UCell)
    ensures Sub(a, b) > CELL - 1 - b <==> a < b
    ensures Sub(a, b) == if a < b then a - b + CELL else a - b
  {
    if a < b {
      DivUnique(a - b, CELL, -1, a - b + CELL);
    } else {
      DivUnique(a - b, CELL, 0, a - b);
    }
  }

  /** What subtracting `d` from a dividend `k` times takes away. */
  ghost function Times(k: nat, d: nat): nat
  {
    if k == 0 then 0 else Times(k - 1, d) + d
  }

  lemma {:induction false} TimesIsProduct(k: nat, d: nat)
    ensures Times(k, d) == k * d
  {
    if k > 0 {
      TimesIsProduct(k - 1, d);
    }
  }

  /** Each digit is estimated with the divisor rounded up, so the estimate is never too large. */
  lemma EstimateNeverTooLarge(top: nat, r: nat, dHigh: Word, dLow: Word)
    requires r == top / (dHigh as int + 1)
    requires top < (dHigh + 1) * WORD
    ensures r < WORD
    ensures r * (dHigh * WORD + dLow) <= top * WORD
  {
    var m: int := dHigh + 1;
    DivBounds(top, m);
    MulLtCancel(r, WORD, m);
    MulLe(dHigh * WORD + dLow, m * WORD, r);
    assert r * (m * WORD) == (r * m) * WORD;
    MulLe(r * m, top, WORD);
  }

  /** One estimated digit and its partial products with the two halves of the divisor. */
  method EstimateDigit(top: UCell, dHigh: Word, dLow: Word) returns (r: Word, u: UCell, v: UCell)
    requires top < (dHigh + 1) * WORD
    ensures Times(r, dHigh * WORD + dLow) == v * WORD + u <= top * WORD
  {
    EstimateNeverTooLarge(top, top / (dHigh as int + 1), dHigh, dLow);
    r := (top / (dHigh as int + 1)) % WORD;
    MulLe(r, WORD, dLow);
    MulLe(r, WORD, dHigh);
    Distribute(r, dHigh, dLow, WORD);
    TimesIsProduct(r, dHigh * WORD + dLow);
    u := r * dLow;
    v := r * dHigh;
  }

  /** Incrementing a half cell wraps; the counter it stands for does not. */
  lemma IncrementWraps(h: nat)
    ensures (h % WORD + 1) % WORD == (h + 1) % WORD
  {
    var l := h % WORD + 1;
    if l < WORD {
      DivUnique(h + 1, WORD, h / WORD, l);
    } else {
      DivUnique(h + 1, WORD, h / WORD + 1, 0);
    }
  }

  /** The statement pair `if ((t[0] -= b) > (ucell)-1L - b) t[1]--`. */
  method SubtractLow(t: array<UCell>, b: UCell)
    requires t.Length == 2 && Value(t[..]) >= b
    modifies t
    ensures Value(t[..]) == old(Value(t[..])) - b
  {
    BorrowTestIsExact(t[0], b);
    t[0] := Sub(t[0], b);
    if t[0] > CELL - 1 - b {
      BorrowTestIsExact(t[1], 1);
      t[1] := Sub(t[1], 1);
    }
  }

  /** The statement `t[1] -= b`. */
  method SubtractHigh(t: array<UCell>, b: UCell)
    requires t.Length == 2 && Value(t[..]) >= b * CELL
    modifies t
    ensures Value(t[..]) == old(Value(t[..])) - b * CELL
  {
    BorrowTestIsExact(t[1], b);
    t[1] := Sub(t[1], b);
  }

  /** What the left shift drops is the high half. */
  lemma ShiftUpSplits(v: UCell)
    ensures ShiftUp(v) == LoWord(v) * WORD
    ensures v * WORD == HiWord(v) * CELL + ShiftUp(v)
  {
    DivUnique(v * WORD, CELL, HiWord(v), LoWord(v) * WORD);
  }

  lemma MoveWord(h: nat, d: nat)
    ensures h * WORD * d == h * d * WORD
  {}

  /** Two digits of the quotient, and the cell that is left of it when it is too large. */
  lemma DigitsMakeQuotient(n: nat, d: nat, h: nat, l: nat, rest: nat)
    requires rest < d
    requires n == Times(h, d) * WORD + Times(l, d) + rest
    ensures n / d == h * WORD + l && n % d == rest
  {
    hide Times;
    TimesIsProduct(h, d);
    TimesIsProduct(l, d);
    DistributeRight(h * WORD, l, d);
    MoveWord(h, d);
    DivUnique(n, d, h * WORD + l, rest);
  }

  lemma DigitsMakeCell(h: nat, rHigh: Word, rLow: Word)
    requires rHigh == h % WORD
    ensures (ShiftUp(rHigh) + rLow) % CELL == (h * WORD + rLow) % CELL
  {
    ShiftUpSplits(rHigh);
    DivUnique(h * WORD + rLow, CELL, h / WORD, rHigh * WORD + rLow);
    DivUnique(rHigh * WORD + rLow, CELL, 0, rHigh * WORD + rLow);
  }

  /** First correction loop: raises the high digit while the rest of the dividend allows it.
      The true digit `h` may need 17 bits; the half cell keeps the low 16. */
  method CorrectHighDigit(t: array<UCell>, divisor: UCell, estimate: Word, ghost n: nat)
    returns (rHigh: Word, ghost h: nat)
    requires t.Length == 2 && divisor != 0
    requires Value(t[..]) == n - Times(estimate, divisor) * WORD
    modifies t
    ensures rHigh == h % WORD
    ensures Value(t[..]) == n - Times(h, divisor) * WORD < divisor * WORD
  {
    rHigh, h := estimate, estimate;
    var dHigh: int, dLow: int := HiWord(divisor), LoWord(divisor);
    ShiftUpSplits(dLow);
    while t[1] > dHigh || (t[1] == dHigh && t[0] >= ShiftUp(dLow))
      invariant rHigh == h % WORD
      invariant Value(t[..]) == n - Times(h, divisor) * WORD
      decreases Value(t[..])
    {
      SubtractLow(t, ShiftUp(dLow));
      SubtractHigh(t, dHigh);
      IncrementWraps(h);
      rHigh := (rHigh + 1) % WORD;
      h := h + 1;
    }
  }

  /** First half of `div64_32`: estimate the high half of the quotient, subtract its product
      and correct the estimate. */
  method HighDigit(t: array<UCell>, divisor: UCell) returns (rHigh: Word, ghost h: nat)
    requires t.Length == 2
    requires divisor != 0 && divisor >= t[1]
    modifies t
    ensures rHigh == h % WORD
    ensures Value(t[..]) == old(Value(t[..])) - Times(h, divisor) * WORD < divisor * WORD
  {
    var u, v;
    rHigh, u, v := EstimateDigit(t[1], HiWord(divisor), LoWord(divisor));
    ShiftUpSplits(u);
    SubtractLow(t, ShiftUp(u));
    SubtractHigh(t, HiWord(u));
    SubtractHigh(t, v);
    rHigh, h := CorrectHighDigit(t, divisor, rHigh, old(Value(t[..])));
  }

  /** Second correction loop. */
  method CorrectLowDigit(t: array<UCell>, divisor: UCell, estimate: Word, ghost n: nat)
    returns (rLow: Word)
    requires t.Length == 2 && divisor != 0
    requires n < divisor * WORD
    requires Value(t[..]) == n - Times(estimate, divisor)
    modifies t
    ensures Value(t[..]) == n - Times(rLow, divisor) < divisor
  {
    rLow := estimate;
    while t[1] > 0 || (t[1] == 0 && t[0] >= divisor)
      invariant Value(t[..]) == n - Times(rLow, divisor)
      decreases Value(t[..])
    {
      SubtractLow(t, divisor);
      LowDigitStaysBelowBase(n, rLow, divisor);
      DivUnique(rLow + 1, WORD, 0, rLow + 1);
      rLow := (rLow + 1) % WORD;
    }
  }

  /** Second half of `div64_32`: the same for the low half of the quotient. */
  method LowDigit(t: array<UCell>, divisor: UCell) returns (rLow: Word)
    requires t.Length == 2 && divisor != 0
    requires Value(t[..]) < divisor * WORD
    modifies t
    ensures Value(t[..]) == old(Value(t[..])) - Times(rLow, divisor) < divisor
  {
    ShiftUpSplits(t[1]);
    var u, v;
    rLow, u, v := EstimateDigit(ShiftUp(t[1]) + HiWord(t[0]), HiWord(divisor), LoWord(divisor));
    ShiftUpSplits(v);
    SubtractLow(t, u);
    SubtractLow(t, ShiftUp(v));
    SubtractHigh(t, HiWord(v));
    rLow := CorrectLowDigit(t, divisor, rLow, old(Value(t[..])));
  }

  /** `div64_32`. The assertions on entry are the source's; a quotient that does not fit
      is cut to its low cell. The dividend is consumed: the remainder is left in `t`. */
  method Divide(t: array<UCell>, divisor: UCell) returns (q: UCell)
    requires t.Length == 2
    requires divisor != 0 && divisor >= t[1]
    modifies t
    ensures q == (old(Value(t[..])) / divisor) % CELL
    ensures t[..] == [old(Value(t[..])) % divisor, 0]
  {
    ghost var n := Value(t[..]);
    var rHigh, h := HighDigit(t, divisor);
    var rLow := LowDigit(t, divisor);
    DigitsMakeQuotient(n, divisor, h, rLow, t[0]);
    DigitsMakeCell(h, rHigh, rLow);
    q := (ShiftUp(rHigh) + rLow) % CELL;
  }

  /** The correction of the low digit cannot push it past half a cell. */
  lemma LowDigitStaysBelowBase(n: nat, l: nat, d: nat)
    requires n < d * WORD && n - Times(l, d) >= d
    ensures l + 1 < WORD
  {
    TimesIsProduct(l, d);
    MulLtCancel(l + 1, WORD, d);
  }

  /** The routine is exact if and only if the high cell is below the divisor: its own
      assertion also lets equality through, where the quotient needs a third half cell. */
  lemma ExactIffQuotientFits(t: seq<UCell>, divisor: UCell)
    requires |t| == 2 && divisor != 0 && divisor >= t[1]
    ensures (Value(t) / divisor) % CELL == Value(t) / divisor <==> t[1] < divisor
  {
    var q := Value(t) / divisor;
    DivBounds(Value(t), divisor);
    if t[1] < divisor {
      MulLe(t[1] + 1, divisor, CELL);
      MulLtCancel(q, CELL, divisor);
      DivUnique(q, CELL, 0, q);
    } else {
      MulLtCancel(CELL, q + 1, divisor);
    }
  }
}
