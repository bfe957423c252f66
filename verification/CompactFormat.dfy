/**
  The compact format of a compiled program: every 32-bit cell is a group of 7-bit bytes,
  most significant first. All bytes of a group but the last carry the continuation bit
  0x80; bit 0x40 of the first byte is the sign.

  Cells and bytes are bounded integers here. A shift is a multiplication modulo 2^32, and
  the `|=` statements of the sources, which always add bits above the ones already present,
  are sums.
  */
module CompactFormat {
  import opened Arith
  import opened Words

  /** The cells that the loader can park, and the lead in bytes that the assembler allows. */
  const COMPACTMARGIN := 64

  function Payload(b: Byte): nat { b % 0x80 }

  predicate Continues(b: Byte) { b >= 0x80 }

  predicate Negative(b: Byte) { b / 0x40 % 2 == 1 }

  predicate IsGroup(g: seq<Byte>) {
    && 1 <= |g| <= 5
    && (forall i :: 0 <= i < |g| - 1 ==> Continues(g[i]))
    && !Continues(g[|g| - 1])
  }

  /** The forward decoder: shift in the bytes one at a time, starting from the sign. */
  function Accumulate(acc: UCell, g: seq<Byte>): UCell
    decreases |g|
  {
    if g == [] then acc else Accumulate((acc * 0x80 + Payload(g[0])) % CELL, g[1..])
  }

  function Value(g: seq<Byte>): UCell
    requires g != []
  {
    Accumulate(if Negative(g[0]) then CELL - 1 else 0, g)
  }

  function Pow128(k: nat): (p: nat)
    ensures p > 0
  {
    if k == 0 then 1 else 0x80 * Pow128(k - 1)
  }

  lemma SmallPowers()
    ensures Pow128(0) == 1 && Pow128(1) == 0x80 && Pow128(2) == 0x4000
    ensures Pow128(3) == 0x20_0000 && Pow128(4) == 0x1000_0000 && Pow128(5) == 8 * CELL
  {
  }

  /** The payload bytes read as digits in base 128. */
  function Digits(g: seq<Byte>): nat
    decreases |g|
  {
    if g == [] then 0 else Payload(g[0]) * Pow128(|g| - 1) + Digits(g[1..])
  }

  lemma FirstDigit(g: seq<Byte>)
    requires g != []
    ensures Digits(g) == Payload(g[0]) * Pow128(|g| - 1) + Digits(g[1..])
    ensures Pow128(|g|) == 0x80 * Pow128(|g| - 1)
  {
  }

  lemma {:induction false} DigitsBelow(g: seq<Byte>)
    ensures Digits(g) < Pow128(|g|)
    decreases |g|
  {
    if g != [] {
      DigitsBelow(g[1..]);
      MulLe(Payload(g[0]), 0x7f, Pow128(|g| - 1));
    }
  }

  /** A sum in a cell only depends on its terms modulo the cell. */
  lemma DropCells(x: int, k: int)
    ensures (x + k * CELL) % CELL == x % CELL
  {
    DivUnique(x + k * CELL, CELL, x / CELL + k, x % CELL);
  }

  lemma ShiftInDigit(acc: nat, p: nat, pow: nat, rest: nat)
    ensures ((acc * 0x80 + p) % CELL * pow + rest) % CELL == (acc * (0x80 * pow) + p * pow + rest) % CELL
  {
    var wide := acc * 0x80 + p;
    var next, k := wide % CELL, wide / CELL;
    Distribute(pow, k, next, CELL);
    Distribute(pow, acc, p, 0x80);
    Commute(acc, pow);
    DropCells(next * pow + rest, pow * k);
  }

  lemma Commute(acc: nat, pow: nat)
    ensures acc * (0x80 * pow) == pow * acc * 0x80
  {
  }

  lemma {:induction false} AccumulateIsDigits(acc: UCell, g: seq<Byte>)
    ensures Accumulate(acc, g) == (acc * Pow128(|g|) + Digits(g)) % CELL
    decreases |g|
  {
    if g == [] {
      DivUnique(acc, CELL, 0, acc);
    } else {
      var p := Payload(g[0]);
      AccumulateIsDigits((acc * 0x80 + p) % CELL, g[1..]);
      ShiftInDigit(acc, p, Pow128(|g| - 1), Digits(g[1..]));
    }
  }

  /** What a group stands for: its digits as a number in two's complement, cut to a cell. */
  lemma ValueIsTwosComplement(g: seq<Byte>)
    requires g != []
    ensures Value(g) == (Digits(g) - if Negative(g[0]) then Pow128(|g|) else 0) % CELL
  {
    if Negative(g[0]) {
      AccumulateIsDigits(CELL - 1, g);
      DropCells(Digits(g) - Pow128(|g|), Pow128(|g|));
      assert (CELL - 1) * Pow128(|g|) == Pow128(|g|) * CELL - Pow128(|g|);
    } else {
      AccumulateIsDigits(0, g);
    }
  }

  /** The bytes of a stream of groups, and the cells they stand for. */
  function Concat(gs: seq<seq<Byte>>): seq<Byte> {
    if gs == [] then [] else Concat(gs[..|gs| - 1]) + gs[|gs| - 1]
  }

  ghost predicate AreGroups(gs: seq<seq<Byte>>) {
    forall i :: 0 <= i < |gs| ==> IsGroup(gs[i])
  }

  function Values(gs: seq<seq<Byte>>): (cells: seq<UCell>)
    requires forall i :: 0 <= i < |gs| ==> gs[i] != []
    ensures |cells| == |gs|
    ensures forall i :: 0 <= i < |gs| ==> cells[i] == Value(gs[i])
  {
    seq(|gs|, i requires 0 <= i < |gs| => Value(gs[i]))
  }

  /** The length of the first group of a stream: up to its first byte without continuation. */
  function FirstLength(s: seq<Byte>): (n: nat)
    requires s != []
    ensures 1 <= n <= |s|
    ensures forall i :: 0 <= i < n - 1 ==> Continues(s[i])
    ensures n < |s| ==> !Continues(s[n - 1])
  {
    if !Continues(s[0]) || |s| == 1 then 1 else 1 + FirstLength(s[1..])
  }

  /** The forward parser: cuts a stream after every byte without continuation bit. */
  function Groups(s: seq<Byte>): seq<seq<Byte>> {
    if s == [] then [] else [s[..FirstLength(s)]] + Groups(s[FirstLength(s)..])
  }

  ghost predicate WellFormed(s: seq<Byte>) { AreGroups(Groups(s)) }

  /** The forward decoder of a whole stream. */
  ghost function Decode(s: seq<Byte>): seq<UCell>
    requires WellFormed(s)
  {
    Values(Groups(s))
  }

  lemma {:induction false} ConcatPrepend(g: seq<Byte>, gs: seq<seq<Byte>>)
    ensures Concat([g] + gs) == g + Concat(gs)
    decreases |gs|
  {
    var all := [g] + gs;
    if gs == [] {
      assert all[..0] == [];
    } else {
      var init := gs[..|gs| - 1];
      assert all[..|all| - 1] == [g] + init;
      ConcatPrepend(g, init);
    }
  }

  /** Cutting a stream into groups loses no byte. */
  lemma {:induction false} ConcatGroups(s: seq<Byte>)
    ensures Concat(Groups(s)) == s
    decreases |s|
  {
    if s != [] {
      hide FirstLength;
      var n := FirstLength(s);
      assert Groups(s) == [s[..n]] + Groups(s[n..]);
      ConcatGroups(s[n..]);
      ConcatPrepend(s[..n], Groups(s[n..]));
    }
  }

  /** The format is a prefix code: a stream has only one cut into groups. */
  lemma {:induction false} GroupsConcat(gs: seq<seq<Byte>>)
    requires AreGroups(gs)
    ensures Groups(Concat(gs)) == gs
    decreases |gs|
  {
    if gs != [] {
      var g, rest := gs[0], gs[1..];
      assert gs == [g] + rest;
      ConcatPrepend(g, rest);
      GroupsConcat(rest);
      var s := Concat(gs);
      var n := FirstLength(s);
      assert forall i :: 0 <= i < |g| ==> s[i] == g[i];
      assert n == |g|;
      assert s[..n] == g && s[n..] == Concat(rest);
    }
  }
}
