/**
  The arithmetic, logic, shift and comparison instructions on PRI and ALT. Results are cut down to
  a cell; a shift count outside the width of a cell is left undefined, as C leaves it.
  */
module AmxAlu {
  import opened AmxMemory
  import opened Arith
  import opened Words

  /** What an instruction makes of the two registers, or that it divides by zero. */
  datatype Alu = Values(pri: int, alt: int) | ByZero | Undefined

  // ----- Shifts -----

  function Pow2(n: nat): (p: nat)
    ensures p > 0
  {
    if n == 0 then 1 else 2 * Pow2(n - 1)
  }

  predicate IsCount(n: int) { 0 <= n < 32 }

  function ShiftLeft(v: int, n: nat): int {
    Wrap(v * Pow2(n))
  }

  /** The shift of the unsigned value. */
  function ShiftRight(v: int, n: nat): int {
    Wrap(Unsigned(v) / Pow2(n))
  }

  /** The shift that keeps the sign. */
  function ShiftSigned(v: int, n: nat): int {
    Wrap(v / Pow2(n))
  }

  // ----- Bits -----

  /** Bit `i` of a cell. */
  predicate BitOf(v: nat, i: nat) {
    if i == 0 then v % 2 == 1 else BitOf(v / 2, i - 1)
  }

  /** Joins the low `n` bits of two values, bit by bit. */
  function Joined(x: nat, y: nat, n: nat, f: (bool, bool) -> bool): nat {
    if n == 0 then 0
    else 2 * Joined(x / 2, y / 2, n - 1, f) + if f(x % 2 == 1, y % 2 == 1) then 1 else 0
  }

  predicate Both(a: bool, b: bool) { a && b }

  predicate Either(a: bool, b: bool) { a || b }

  predicate Differ(a: bool, b: bool) { a != b }

  function And(x: int, y: int): int { Wrap(Joined(Unsigned(x), Unsigned(y), 32, Both)) }

  function Or(x: int, y: int): int { Wrap(Joined(Unsigned(x), Unsigned(y), 32, Either)) }

  function Xor(x: int, y: int): int { Wrap(Joined(Unsigned(x), Unsigned(y), 32, Differ)) }

  lemma {:induction false} BitsOfJoined(x: nat, y: nat, n: nat, f: (bool, bool) -> bool, i: nat)
    ensures BitOf(Joined(x, y, n, f), i) <==> i < n && f(BitOf(x, i), BitOf(y, i))
    ensures Joined(x, y, n, f) < Pow2(n)
    decreases n
  {
    if n == 0 {
      NoBits(i);
    } else {
      var rest := Joined(x / 2, y / 2, n - 1, f);
      BitsOfJoined(x / 2, y / 2, n - 1, f, if i > 0 then i - 1 else 0);
      assert Joined(x, y, n, f) / 2 == rest;
    }
  }

  lemma {:induction false} NoBits(i: nat)
    ensures !BitOf(0, i)
  {
    if i > 0 {
      NoBits(i - 1);
    }
  }

  lemma CellOfBits(v: nat)
    requires v < Pow2(32)
    ensures Unsigned(Wrap(v)) == v
  {
    hide Pow2;
    CellIsPow2();
  }

  lemma CellIsPow2()
    ensures Pow2(32) == CELL
  {
    assert Pow2(4) == 0x10;
    assert Pow2(8) == 0x100;
    assert Pow2(12) == 0x1000;
    assert Pow2(16) == 0x1_0000;
    assert Pow2(20) == 0x10_0000;
    assert Pow2(24) == 0x100_0000;
    assert Pow2(28) == 0x1000_0000;
  }

  /** AND, OR and XOR work on each of the 32 bits. */
  lemma BitwiseIsBitwise(x: int, y: int, i: nat)
    requires i < 32
    ensures BitOf(Unsigned(And(x, y)), i) <==> BitOf(Unsigned(x), i) && BitOf(Unsigned(y), i)
    ensures BitOf(Unsigned(Or(x, y)), i) <==> BitOf(Unsigned(x), i) || BitOf(Unsigned(y), i)
    ensures BitOf(Unsigned(Xor(x, y)), i) <==> BitOf(Unsigned(x), i) != BitOf(Unsigned(y), i)
  {
    hide Wrap, Unsigned, Joined, BitOf, Pow2;
    var u, v := Unsigned(x), Unsigned(y);
    BitsOfJoined(u, v, 32, Both, i);
    BitsOfJoined(u, v, 32, Either, i);
    BitsOfJoined(u, v, 32, Differ, i);
    CellOfBits(Joined(u, v, 32, Both));
    CellOfBits(Joined(u, v, 32, Either));
    CellOfBits(Joined(u, v, 32, Differ));
  }

  lemma {:induction false} JoinedWithZero(x: nat, n: nat)
    requires x < Pow2(n)
    ensures Joined(x, 0, n, Differ) == x
    decreases n
  {
    if n > 0 {
      JoinedWithZero(x / 2, n - 1);
    }
  }

  /** The last two bits turned over: the other way round in its group of four. */
  lemma XorWithThree(v: int)
    requires 0 <= v <= CELLMAX
    ensures Xor(v, 3) == v / 4 * 4 + 3 - v % 4
  {
    hide Joined, Pow2;
    LowBitJoined(v, 3, 32);
    LowBitJoined(v / 2, 1, 31);
    CellIsPow2();
    PowOfThirty();
    JoinedWithZero(v / 2 / 2, 30);
    TwoBits(v);
  }

  lemma TwoBits(v: nat)
    ensures v / 4 * 4 + 3 - v % 4 ==
      2 * (2 * (v / 2 / 2) + if v / 2 % 2 == 1 then 0 else 1) + if v % 2 == 1 then 0 else 1
  {
    var half, quarter := v / 2, v / 2 / 2;
    assert v == 2 * half + v % 2 && half == 2 * quarter + half % 2;
    assert v / 4 == quarter by {
      assert 4 * quarter <= v < 4 * quarter + 4;
    }
    assert v % 4 == v - 4 * quarter;
  }

  lemma LowBitJoined(x: nat, y: nat, n: nat)
    requires n > 0
    ensures Joined(x, y, n, Differ) ==
      2 * Joined(x / 2, y / 2, n - 1, Differ) + if (x % 2 == 1) != (y % 2 == 1) then 1 else 0
  {}

  lemma PowOfThirty()
    ensures Pow2(30) == 0x4000_0000
  {
    CellIsPow2();
    assert Pow2(32) == 4 * Pow2(30);
  }

  // ----- Division -----

  function Abs(v: int): nat { if v < 0 then -v else v }

  /** The division of C, which drops the fraction. */
  function Truncated(a: int, b: int): int
    requires b != 0
  {
    if (a < 0) != (b < 0) then -(Abs(a) / Abs(b)) else Abs(a) / Abs(b)
  }

  /** The remainder of C, with the sign of the dividend. */
  function Remainder(a: int, b: int): int
    requires b != 0
  {
    a - Truncated(a, b) * b
  }

  /** The correction that both instructions end in. */
  function Fiddled(q: int, r: int, b: int): (s: Alu)
    ensures s.Values?
  {
    if r != 0 && (r < 0) != (b < 0) then Values(Wrap(q - 1), Wrap(r + b)) else Values(Wrap(q), Wrap(r))
  }

  /** SDIV: the remainder is taken of the quotient, which has replaced the dividend. */
  function Sdiv(pri: int, alt: int): Alu {
    if alt == 0 then ByZero
    else if alt == -1 && pri == CELLMIN then Values(pri, 0)
    else
      var q := Truncated(pri, alt);
      Fiddled(q, Remainder(q, alt), alt)
  }

  /** SDIV.ALT */
  function SdivAlt(pri: int, alt: int): Alu {
    if pri == 0 then ByZero
    else if pri == -1 && alt == CELLMIN then Values(alt, 0)
    else Fiddled(Truncated(alt, pri), Remainder(alt, pri), pri)
  }

  /** The quotient rounded down, with the remainder that has the sign of the divisor. */
  predicate IsFloored(a: int, b: int, q: int, r: int) {
    a == q * b + r && if b > 0 then 0 <= r < b else b < r <= 0
  }

  lemma TruncatedParts(a: int, b: int)
    requires b != 0
    ensures Abs(Remainder(a, b)) < Abs(b)
    ensures Remainder(a, b) != 0 ==> (Remainder(a, b) < 0) == (a < 0)
    ensures Abs(Truncated(a, b)) <= Abs(a)
  {
    hide Truncated;
    QuotientParts(Abs(a), Abs(b));
    TruncatedTimes(a, b);
    TruncatedSize(a, b);
    RestOfProduct(a, b, Truncated(a, b) * b, Abs(a) / Abs(b) * Abs(b));
  }

  lemma TruncatedSize(a: int, b: int)
    requires b != 0
    ensures Abs(Truncated(a, b)) == Abs(a) / Abs(b)
  {}

  lemma RestOfProduct(a: int, b: int, t: int, p: int)
    requires p <= Abs(a) < p + Abs(b) && t == if a < 0 then -p else p
    ensures Abs(a - t) < Abs(b) && (a - t != 0 ==> (a - t < 0) == (a < 0))
  {}

  lemma TruncatedTimes(a: int, b: int)
    requires b != 0
    ensures Truncated(a, b) * b == if a < 0 then -(Abs(a) / Abs(b) * Abs(b)) else Abs(a) / Abs(b) * Abs(b)
  {
    Signs(Abs(a) / Abs(b), b);
  }

  lemma QuotientParts(m: nat, n: nat)
    requires n > 0
    ensures m / n * n <= m < m / n * n + n && m / n <= m
  {
    var q := m / n;
    DivBounds(m, n);
    DistributeRight(q, 1, n);
    MulLe(1, n, q);
  }

  lemma Signs(q: int, b: int)
    ensures q * b == if b < 0 then -(q * Abs(b)) else q * Abs(b)
    ensures -q * b == if b < 0 then q * Abs(b) else -(q * Abs(b))
  {}

  lemma FiddledIsFloored(a: int, b: int, q: int, r: int)
    requires IsCell(a) && IsCell(b) && b != 0 && a == q * b + r && Abs(r) < Abs(b)
    requires r != 0 ==> (r < 0) == (a < 0)
    requires Abs(q) <= Abs(a) && !(a == CELLMIN && b == -1)
    ensures
      var s := Fiddled(q, r, b);
      IsFloored(a, b, s.pri, s.alt)
  {
    assert (q - 1) * b + (r + b) == a;
    FlooredIsCell(a, b, q, r);
  }

  lemma FlooredIsCell(a: int, b: int, q: int, r: int)
    requires IsCell(a) && IsCell(b) && b != 0 && a == q * b + r && Abs(r) < Abs(b)
    requires r != 0 ==> (r < 0) == (a < 0)
    requires Abs(q) <= Abs(a) && !(a == CELLMIN && b == -1)
    ensures IsCell(q) && IsCell(r)
    ensures r != 0 && (r < 0) != (b < 0) ==> IsCell(q - 1) && IsCell(r + b)
  {
  }

  /** SDIV.ALT divides rounding down, for all cells: the one quotient that does not fit wraps. */
  lemma SdivAltIsFloored(pri: int, alt: int)
    requires IsCell(pri) && IsCell(alt)
    ensures SdivAlt(pri, alt).ByZero? <==> pri == 0
    ensures pri != 0 ==>
      var s := SdivAlt(pri, alt);
      s.Values? && if pri == -1 && alt == CELLMIN then s == Values(CELLMIN, 0) else IsFloored(alt, pri, s.pri, s.alt)
  {
    hide Truncated, Fiddled;
    if pri != 0 && !(pri == -1 && alt == CELLMIN) {
      TruncatedParts(alt, pri);
      FiddledIsFloored(alt, pri, Truncated(alt, pri), Remainder(alt, pri));
    }
  }

  lemma FlooredIsUnique(a: int, b: int, q: int, r: int, p: int, s: int)
    requires IsFloored(a, b, q, r) && IsFloored(a, b, p, s)
    ensures q == p && r == s
  {
    assert (q - p) * b == s - r;
    Signs(q - p, b);
    if q > p {
      MulLe(1, q - p, Abs(b));
    } else if q < p {
      MulLe(q - p, -1, Abs(b));
    }
  }

  /** SDIV does so exactly if the dividend and the quotient leave the same remainder. */
  lemma SdivIsFlooredIff(pri: int, alt: int)
    requires IsCell(pri) && IsCell(alt)
    ensures Sdiv(pri, alt).ByZero? <==> alt == 0
    ensures alt == -1 && pri == CELLMIN ==> Sdiv(pri, alt) == Values(CELLMIN, 0)
    ensures alt != 0 && !(alt == -1 && pri == CELLMIN) ==>
      var s := Sdiv(pri, alt);
      s.Values? && (IsFloored(pri, alt, s.pri, s.alt) <==>
        Remainder(Truncated(pri, alt), alt) == Remainder(pri, alt))
  {
    hide Truncated, Remainder, IsFloored;
    if alt != 0 && !(alt == -1 && pri == CELLMIN) {
      SdivWithoutOverflow(pri, alt);
    }
  }

  lemma SdivWithoutOverflow(pri: int, alt: int)
    requires IsCell(pri) && IsCell(alt) && alt != 0 && !(alt == -1 && pri == CELLMIN)
    ensures
      var s := Sdiv(pri, alt);
      s.Values? && (IsFloored(pri, alt, s.pri, s.alt) <==>
        Remainder(Truncated(pri, alt), alt) == Remainder(pri, alt))
  {
    hide Truncated, Remainder, IsFloored;
    var q, r := Truncated(pri, alt), Remainder(pri, alt);
    TruncatedParts(pri, alt);
    QuotientAndRest(pri, alt);
    FlooredIsCell(pri, alt, q, r);
    FiddledIsFloored(pri, alt, q, r);
    var right := Fiddled(q, r, alt);
    var s := Sdiv(pri, alt);
    TruncatedParts(q, alt);
    if IsFloored(pri, alt, s.pri, s.alt) {
      FlooredIsUnique(pri, alt, s.pri, s.alt, right.pri, right.alt);
    }
  }

  lemma QuotientAndRest(a: int, b: int)
    requires b != 0
    ensures a == Truncated(a, b) * b + Remainder(a, b)
  {}

  /** Six by two: the quotient three leaves one. */
  lemma SdivOfSix()
    ensures Sdiv(6, 2) == Values(3, 1) && SdivAlt(2, 6) == Values(3, 0)
  {}

  // ----- The instructions -----

  function Flag(b: bool): int { if b then 1 else 0 }

  function Udiv(a: int, b: int): Alu {
    if Unsigned(b) == 0 then ByZero else Values(Wrap(Unsigned(a) / Unsigned(b)), Wrap(Unsigned(a) % Unsigned(b)))
  }

  /** The low byte with its sign; any other cell as it is. */
  function SignExtended(v: int): int {
    if Unsigned(v) % 0x100 >= 0x80 then Unsigned(v) % 0x100 - 0x100 else v
  }

  /** ALIGN for a character of `a` bytes, on a little-endian machine. */
  function Aligned(v: int, a: int): int {
    if a < 4 then Xor(v, 4 - a) else v
  }

  function ToFirst(v: int, alt: int): Alu { Values(Wrap(v), alt) }

  /** What instruction `op` with operand `a` makes of the registers. */
  function Compute(op: int, pri: int, alt: int, a: int): Alu {
    match op
    case 28 => if IsCount(a) then ToFirst(ShiftLeft(pri, a) + alt, alt) else Undefined
    case 29 => ToFirst(Aligned(pri, a), alt)
    case 30 => Values(pri, Aligned(alt, a))
    case 65 => if IsCount(alt) then ToFirst(ShiftLeft(pri, alt), alt) else Undefined
    case 66 => if IsCount(alt) then ToFirst(ShiftRight(pri, alt), alt) else Undefined
    case 67 => if IsCount(alt) then ToFirst(ShiftSigned(pri, alt), alt) else Undefined
    case 68 => if IsCount(a) then ToFirst(ShiftLeft(pri, a), alt) else Undefined
    case 69 => if IsCount(a) then Values(pri, ShiftLeft(alt, a)) else Undefined
    case 70 => if IsCount(a) then ToFirst(ShiftRight(pri, a), alt) else Undefined
    case 71 => if IsCount(a) then Values(pri, ShiftRight(alt, a)) else Undefined
    case 72 => ToFirst(pri * alt, alt)
    case 73 => Sdiv(pri, alt)
    case 74 => SdivAlt(pri, alt)
    case 75 => ToFirst(Unsigned(pri) * Unsigned(alt), alt)
    case 76 => Udiv(pri, alt)
    case 77 => Udiv(alt, pri)
    case 78 => ToFirst(pri + alt, alt)
    case 79 => ToFirst(pri - alt, alt)
    case 80 => ToFirst(alt - pri, alt)
    case 81 => ToFirst(And(pri, alt), alt)
    case 82 => ToFirst(Or(pri, alt), alt)
    case 83 => ToFirst(Xor(pri, alt), alt)
    case 84 => ToFirst(Flag(pri == 0), alt)
    case 85 => ToFirst(-pri, alt)
    case 86 => ToFirst(-1 - pri, alt)
    case 87 => ToFirst(pri + a, alt)
    case 88 => ToFirst(pri * a, alt)
    case 93 => ToFirst(SignExtended(pri), alt)
    case 94 => Values(pri, Wrap(SignExtended(alt)))
    case 95 => ToFirst(Flag(pri == alt), alt)
    case 96 => ToFirst(Flag(pri != alt), alt)
    case 97 => ToFirst(Flag(Unsigned(pri) < Unsigned(alt)), alt)
    case 98 => ToFirst(Flag(Unsigned(pri) <= Unsigned(alt)), alt)
    case 99 => ToFirst(Flag(Unsigned(pri) > Unsigned(alt)), alt)
    case 100 => ToFirst(Flag(Unsigned(pri) >= Unsigned(alt)), alt)
    case 101 => ToFirst(Flag(pri < alt), alt)
    case 102 => ToFirst(Flag(pri <= alt), alt)
    case 103 => ToFirst(Flag(pri > alt), alt)
    case 104 => ToFirst(Flag(pri >= alt), alt)
    case 105 => ToFirst(Flag(pri == a), alt)
    case 106 => ToFirst(Flag(alt == a), alt)
    case 107 => ToFirst(pri + 1, alt)
    case 108 => Values(pri, Wrap(alt + 1))
    case 112 => ToFirst(pri - 1, alt)
    case 113 => Values(pri, Wrap(alt - 1))
    case _ => Values(pri, alt)
  }
}
