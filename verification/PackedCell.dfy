/**
  A 32-bit cell as four packed characters, the first one in the most significant byte, and
  what the shifts and masks of the string functions do to these characters. A left shift and
  a mask are arithmetic modulo a power of 256; `|` only ever joins characters that the other
  side has cleared, so it is a sum.
  */
module PackedCell {
  import opened Arith
  import opened Words

  const UNPACKEDMAX := 0xFF_FFFF

  /** 256 to the power of `k`: the weight of `k` characters. */
  function W(k: nat): (w: nat)
    requires k <= 4
    ensures w > 0
  {
    if k == 0 then 1 else if k == 1 then 0x100 else if k == 2 then 0x1_0000
    else if k == 3 then 0x100_0000 else CELL
  }

  function Char(c: UCell, i: nat): Byte
    requires i < 4
  {
    c / W(3 - i) % 0x100
  }

  function Pack(b0: Byte, b1: Byte, b2: Byte, b3: Byte): UCell {
    0x100_0000 * b0 as int + 0x1_0000 * b1 as int + 0x100 * b2 as int + b3
  }

  lemma PackedChars(b0: Byte, b1: Byte, b2: Byte, b3: Byte)
    ensures var c := Pack(b0, b1, b2, b3);
      Char(c, 0) == b0 && Char(c, 1) == b1 && Char(c, 2) == b2 && Char(c, 3) == b3
  {
    var c := Pack(b0, b1, b2, b3);
    DivUnique(c, 0x100_0000, b0, c - 0x100_0000 * b0 as int);
    DivUnique(c, 0x1_0000, 0x100 * b0 as int + b1, 0x100 * b2 as int + b3);
    DivUnique(c, 0x100, 0x1_0000 * b0 as int + 0x100 * b1 as int + b2, b3);
    DivUnique(0x100 * b0 as int + b1, 0x100, b0, b1);
    DivUnique(0x1_0000 * b0 as int + 0x100 * b1 as int + b2, 0x100, 0x100 * b0 as int + b1, b2);
  }

  lemma CharsPacked(c: UCell)
    ensures c == Pack(Char(c, 0), Char(c, 1), Char(c, 2), Char(c, 3))
  {
    var q1, q2, q3 := c / 0x100, c / 0x100 / 0x100, c / 0x100 / 0x100 / 0x100;
    DivUnique(c, 0x1_0000, q2, c - 0x1_0000 * q2);
    DivUnique(c, 0x100_0000, q3, c - 0x100_0000 * q3);
    DivUnique(q3, 0x100, 0, q3);
  }

  /** The characters of a cell cut before its last `k` characters. */
  lemma CutCell(c: UCell, k: nat, b0: Byte, b1: Byte, b2: Byte, b3: Byte)
    requires k <= 4 && c == Pack(b0, b1, b2, b3)
    ensures c % W(k) == Pack(if k > 3 then b0 else 0, if k > 2 then b1 else 0,
                             if k > 1 then b2 else 0, if k > 0 then b3 else 0)
    ensures c / W(k) == if k == 0 then c else if k == 1 then Pack(0, b0, b1, b2) else if k == 2 then Pack(0, 0, b0, b1)
                        else if k == 3 then Pack(0, 0, 0, b0) else Pack(0, 0, 0, 0)
  {
    if k == 0 {
      DivUnique(c, 1, c, 0);
    } else if k == 1 {
      DivUnique(c, W(1), Pack(0, b0, b1, b2), b3);
    } else if k == 2 {
      DivUnique(c, W(2), Pack(0, 0, b0, b1), Pack(0, 0, b2, b3));
    } else if k == 3 {
      DivUnique(c, W(3), b0, Pack(0, b1, b2, b3));
    } else {
      DivUnique(c, W(4), 0, c);
    }
  }

  lemma CutHigh(c: UCell, k: nat, b0: Byte, b1: Byte, b2: Byte, b3: Byte)
    requires k <= 4 && c == Pack(b0, b1, b2, b3)
    ensures c - c % W(k) == Pack(if k > 3 then 0 else b0, if k > 2 then 0 else b1,
                                 if k > 1 then 0 else b2, if k > 0 then 0 else b3)
  {
    hide W;
    CutCell(c, k, b0, b1, b2, b3);
  }

  /** `c & mask` and `c & ~mask` for the mask of the last `k` characters. */
  function Low(c: UCell, k: nat): UCell
    requires k <= 4
  {
    c % W(k)
  }

  function High(c: UCell, k: nat): UCell
    requires k <= 4
  {
    c - c % W(k)
  }

  /** `c << k*CHARBITS`. */
  function ShiftLeft(c: UCell, k: nat): UCell
    requires k <= 4
  {
    (c * W(k)) % W(4)
  }

  /** `c >> k*CHARBITS` for a signed cell: the sign is shifted in. */
  function ShiftRight(c: UCell, k: nat): UCell
    requires k <= 4
  {
    ((if c < 0x8000_0000 then c else c - W(4)) / W(k)) % W(4)
  }

  lemma CharsOfLow(c: UCell, k: nat, i: nat)
    requires k <= 4 && i < 4
    ensures Char(Low(c, k), i) == if i < 4 - k then 0 else Char(c, i)
  {
    hide Char, Pack, W;
    var b0, b1, b2, b3 := Char(c, 0), Char(c, 1), Char(c, 2), Char(c, 3);
    CharsPacked(c);
    CutCell(c, k, b0, b1, b2, b3);
    PackedChars(if k > 3 then b0 else 0, if k > 2 then b1 else 0, if k > 1 then b2 else 0, if k > 0 then b3 else 0);
  }

  lemma CharsOfHigh(c: UCell, k: nat, i: nat)
    requires k <= 4 && i < 4
    ensures Char(High(c, k), i) == if i < 4 - k then Char(c, i) else 0
  {
    hide Char, Pack, W;
    var b0, b1, b2, b3 := Char(c, 0), Char(c, 1), Char(c, 2), Char(c, 3);
    CharsPacked(c);
    CutHigh(c, k, b0, b1, b2, b3);
    PackedChars(if k > 3 then 0 else b0, if k > 2 then 0 else b1, if k > 1 then 0 else b2, if k > 0 then 0 else b3);
  }

  lemma ShiftLeftMoves(c: UCell, k: nat, b0: Byte, b1: Byte, b2: Byte, b3: Byte)
    requires k <= 4 && c == Pack(b0, b1, b2, b3)
    ensures ShiftLeft(c, k) == if k == 0 then c else if k == 1 then Pack(b1, b2, b3, 0)
                               else if k == 2 then Pack(b2, b3, 0, 0)
                               else if k == 3 then Pack(b3, 0, 0, 0) else Pack(0, 0, 0, 0)
  {
    if k == 0 {
      DivUnique(c, W(4), 0, c);
    } else if k == 1 {
      DivUnique(c * W(1), W(4), b0, Pack(b1, b2, b3, 0));
    } else if k == 2 {
      DivUnique(c * W(2), W(4), Pack(0, 0, b0, b1), Pack(b2, b3, 0, 0));
    } else if k == 3 {
      DivUnique(c * W(3), W(4), Pack(0, b0, b1, b2), Pack(b3, 0, 0, 0));
    } else {
      DivUnique(c * W(4), W(4), c, 0);
    }
  }

  lemma CharsOfShiftLeft(c: UCell, k: nat, i: nat)
    requires k <= 4 && i < 4
    ensures Char(ShiftLeft(c, k), i) == if i + k < 4 then Char(c, i + k) else 0
  {
    hide Char, Pack, W, ShiftLeft;
    var b0, b1, b2, b3 := Char(c, 0), Char(c, 1), Char(c, 2), Char(c, 3);
    CharsPacked(c);
    ShiftLeftMoves(c, k, b0, b1, b2, b3);
    if k == 0 { PackedChars(b0, b1, b2, b3); }
    if k == 1 { PackedChars(b1, b2, b3, 0); }
    if k == 2 { PackedChars(b2, b3, 0, 0); }
    if k == 3 { PackedChars(b3, 0, 0, 0); }
    if k == 4 { PackedChars(0, 0, 0, 0); }
  }

  /** A masked right shift does not see the sign. */
  lemma ShiftRightBySign(c: UCell, k: nat)
    requires k <= 4
    ensures Low(ShiftRight(c, k), 4 - k) == c / W(k) < W(4 - k)
  {
    var q, r := c / W(k), c % W(k);
    if c < 0x8000_0000 {
      DivUnique(q, W(4), 0, q);
      DivUnique(q, W(4 - k), 0, q);
    } else {
      DivUnique(c - W(4), W(k), q - W(4 - k), r);
      DivUnique(q - W(4 - k), W(4), -1, q - W(4 - k) + W(4));
      DivUnique(q - W(4 - k) + W(4), W(4 - k), W(k) - 1, q);
    }
  }

  lemma CharsOfShiftRight(c: UCell, k: nat, i: nat)
    requires k <= 4 && i < 4
    ensures Char(Low(ShiftRight(c, k), 4 - k), i) == if i < k then 0 else Char(c, i - k)
    ensures k <= i ==> Char(ShiftRight(c, k), i) == Char(c, i - k)
  {
    hide Char, Pack, W, ShiftRight;
    var b0, b1, b2, b3 := Char(c, 0), Char(c, 1), Char(c, 2), Char(c, 3);
    CharsPacked(c);
    CutCell(c, k, b0, b1, b2, b3);
    ShiftRightBySign(c, k);
    if k == 0 { PackedChars(b0, b1, b2, b3); }
    if k == 1 { PackedChars(0, b0, b1, b2); }
    if k == 2 { PackedChars(0, 0, b0, b1); }
    if k == 3 { PackedChars(0, 0, 0, b0); }
    if k == 4 { PackedChars(0, 0, 0, 0); }
    CharsOfLow(ShiftRight(c, k), 4 - k, i);
  }

  lemma CharsOfSum(a: UCell, b: UCell, k: nat, i: nat)
    requires k <= 4 && i < 4
    requires forall j :: 0 <= j < 4 ==> if j < k then Char(b, j) == 0 else Char(a, j) == 0
    ensures a + b < CELL
    ensures Char(a + b, i) == if i < k then Char(a, i) else Char(b, i)
  {
    hide Char, Pack;
    CharsPacked(a);
    CharsPacked(b);
    var c0, c1 := Char(if 0 < k then a else b, 0), Char(if 1 < k then a else b, 1);
    var c2, c3 := Char(if 2 < k then a else b, 2), Char(if 3 < k then a else b, 3);
    assert c0 == Char(a, 0) + Char(b, 0) && c1 == Char(a, 1) + Char(b, 1);
    assert c2 == Char(a, 2) + Char(b, 2) && c3 == Char(a, 3) + Char(b, 3);
    PackedSum(Char(a, 0), Char(a, 1), Char(a, 2), Char(a, 3), Char(b, 0), Char(b, 1), Char(b, 2), Char(b, 3));
    PackedChars(c0, c1, c2, c3);
  }

  lemma PackedSum(a0: Byte, a1: Byte, a2: Byte, a3: Byte, b0: Byte, b1: Byte, b2: Byte, b3: Byte)
    requires a0 + b0 < 0x100 && a1 + b1 < 0x100 && a2 + b2 < 0x100 && a3 + b3 < 0x100
    ensures Pack(a0, a1, a2, a3) + Pack(b0, b1, b2, b3) == Pack(a0 + b0, a1 + b1, a2 + b2, a3 + b3)
  {}

  /** `a | b` for cells that share no bits. */
  function Or(a: UCell, b: UCell): UCell { (a + b) % CELL }

  /** `a | b` where each character is zero on one side. */
  lemma CharsOfOr(a: UCell, b: UCell, k: nat, i: nat)
    requires k <= 4 && i < 4
    requires forall j :: 0 <= j < 4 ==> if j < k then Char(b, j) == 0 else Char(a, j) == 0
    ensures Or(a, b) == a + b
    ensures Char(Or(a, b), i) == if i < k then Char(a, i) else Char(b, i)
  {
    hide Char;
    CharsOfSum(a, b, k, i);
    DivUnique(a + b, CELL, 0, a + b);
  }
}
