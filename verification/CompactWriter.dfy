/**
  The compiler's side of the compact format: the encoding of one cell, and the writer that
  gives up on compression as soon as the stream runs too far ahead of the cells it stands for.
  */
module CompactWriter {
  import opened Arith
  import opened CompactFormat
  import opened Words

  const ENC_MAX := 5
  const ENC_MASK := 0x0f

  /** Five base-128 digits of a cell, not yet marked with continuation bits. */
  ghost predicate IsBuffer(b: seq<Byte>, c: UCell) {
    && |b| == ENC_MAX
    && (forall i :: 0 <= i < ENC_MAX ==> b[i] < 0x80)
    && Digits(b) == c
  }

  /** The first `j` digits only repeat the sign that digit `j` already shows. */
  ghost predicate Redundant(b: seq<Byte>, j: nat)
    requires |b| == ENC_MAX && j < ENC_MAX
  {
    || j == 0
    || ((forall i :: 0 <= i < j ==> b[i] == 0) && !Negative(b[j]))
    || (b[0] == ENC_MASK && (forall i :: 1 <= i < j ==> b[i] == 0x7f) && Negative(b[j]))
  }

  /** The continuation bit on all bytes but the last. */
  function Mark(g: seq<Byte>): (m: seq<Byte>)
    requires forall i :: 0 <= i < |g| ==> g[i] < 0x80
    ensures |m| == |g|
    ensures 1 <= |g| <= 5 ==> IsGroup(m)
  {
    seq(|g|, i requires 0 <= i < |g| => if i < |g| - 1 then g[i] + 0x80 else g[i])
  }

  lemma {:induction false} MarkKeepsDigits(g: seq<Byte>)
    requires forall i :: 0 <= i < |g| ==> g[i] < 0x80
    ensures Digits(Mark(g)) == Digits(g)
    ensures g != [] ==> Negative(Mark(g)[0]) == Negative(g[0])
    decreases |g|
  {
    hide Digits, Pow128, IsGroup, Payload, Negative;
    if g == [] {
      assert Mark(g) == g;
    } else {
      assert Mark(g)[1..] == Mark(g[1..]);
      MarkedByte(g[0]);
      FirstDigit(g);
      FirstDigit(Mark(g));
      MarkKeepsDigits(g[1..]);
    }
  }

  lemma MarkedByte(b: Byte)
    requires b < 0x80
    ensures Payload(b + 0x80) == Payload(b) && Negative(b + 0x80) == Negative(b)
  {}

  /** The length from which on a cell has an encoding: 7 bits a byte, one of them the sign. */
  predicate FitsIn(c: UCell, n: nat) {
    n >= ENC_MAX || (n > 0 && (c < Half(n) || c >= CELL - Half(n)))
  }

  function Half(n: nat): nat
    requires 0 < n < ENC_MAX
  {
    if n == 1 then 0x40 else if n == 2 then 0x2000 else if n == 3 then 0x10_0000 else 0x800_0000
  }

  /** Every group of `n` bytes stands for a cell that fits in `n` bytes. */
  lemma GroupFits(g: seq<Byte>)
    requires IsGroup(g)
    ensures FitsIn(Value(g), |g|)
  {
    var n := |g|;
    if n < ENC_MAX {
      ValueIsTwosComplement(g);
      DigitsBelow(g);
      DigitsBelow(g[1..]);
      HalfIsSignBit(g);
      if Negative(g[0]) {
        DivUnique(Digits(g) - Pow128(n), CELL, -1, Digits(g) - Pow128(n) + CELL);
      } else {
        DivUnique(Digits(g), CELL, 0, Digits(g));
      }
    }
  }

  lemma HalfIsSignBit(g: seq<Byte>)
    requires 1 <= |g| < ENC_MAX
    ensures Pow128(|g|) == 2 * Half(|g|) < CELL
    ensures Negative(g[0]) <==> Digits(g) >= Half(|g|)
  {
    hide Digits, Pow128, Payload;
    SmallPowers();
    FirstDigit(g);
    DigitsBelow(g[1..]);
    SignOfDigit(g[0]);
    if |g| == 1 {
    } else if |g| == 2 {
    } else if |g| == 3 {
    } else {
      assert |g| == 4;
    }
  }

  lemma SignOfDigit(b: Byte)
    ensures Payload(b) < 0x80 && (Negative(b) <==> Payload(b) >= 0x40)
  {}

  /** Digits that only repeat the sign may be left off. */
  lemma TailHasValue(b: seq<Byte>, j: nat, c: UCell)
    requires IsBuffer(b, c) && j < ENC_MAX && Redundant(b, j)
    ensures Value(Mark(b[j..])) == c
  {
    hide Digits, Pow128, Value, Mark;
    var g := b[j..];
    MarkKeepsDigits(g);
    ValueIsTwosComplement(Mark(g));
    TailDigits(b, j, c);
    FirstDigitIsSmall(b, c);
    if Negative(b[j]) {
      DivUnique(Digits(g) - Pow128(5 - j), CELL, -1, c);
    } else {
      DivUnique(c, CELL, 0, c);
    }
  }

  lemma FirstDigitIsSmall(b: seq<Byte>, c: UCell)
    requires IsBuffer(b, c)
    ensures b[0] <= ENC_MASK && !Negative(b[0])
  {
    hide Digits, Pow128;
    AllDigits(b);
  }

  /** The digits of a buffer, from each position on. */
  lemma DigitsFrom(b: seq<Byte>, j: nat)
    requires |b| == ENC_MAX && j < ENC_MAX
    requires forall i :: 0 <= i < ENC_MAX ==> b[i] < 0x80
    ensures Digits(b[j..]) == Pow128(4 - j) * b[j] as int + Digits(b[j + 1..])
    ensures Pow128(4 - j) == if j == 0 then 0x1000_0000 else if j == 1 then 0x20_0000
                             else if j == 2 then 0x4000 else if j == 3 then 0x80 else 1
  {
    assert b[j..][1..] == b[j + 1..];
    assert Digits(b[j..]) == Payload(b[j]) * Pow128(4 - j) + Digits(b[j + 1..]);
    assert Payload(b[j]) == b[j];
    SmallPowers();
  }

  lemma AllDigits(b: seq<Byte>)
    requires |b| == ENC_MAX
    requires forall i :: 0 <= i < ENC_MAX ==> b[i] < 0x80
    ensures b[0..] == b && Digits(b[5..]) == 0
    ensures Digits(b[4..]) == b[4]
    ensures Digits(b[3..]) == 0x80 * b[3] as int + Digits(b[4..])
    ensures Digits(b[2..]) == 0x4000 * b[2] as int + Digits(b[3..])
    ensures Digits(b[1..]) == 0x20_0000 * b[1] as int + Digits(b[2..])
    ensures Digits(b) == 0x1000_0000 * b[0] as int + Digits(b[1..])
  {
    assert b[0..] == b;
    DigitsFrom(b, 0);
    DigitsFrom(b, 1);
    DigitsFrom(b, 2);
    DigitsFrom(b, 3);
    DigitsFrom(b, 4);
  }

  lemma TailDigits(b: seq<Byte>, j: nat, c: UCell)
    requires IsBuffer(b, c) && j < ENC_MAX && Redundant(b, j)
    ensures Digits(b[j..]) == c - if j > 0 && Negative(b[j]) then CELL - Pow128(5 - j) else 0
  {
    hide Digits, Pow128;
    SmallPowers();
    AllDigits(b);
  }

  /** When no more digits can be left off, no shorter encoding exists. */
  lemma NoShorterTail(b: seq<Byte>, j: nat, c: UCell)
    requires IsBuffer(b, c) && j < ENC_MAX
    requires j < ENC_MAX - 1 ==> !Redundant(b, j + 1)
    ensures forall n: nat :: FitsIn(c, n) ==> n >= ENC_MAX - j
  {
    forall n: nat | n < ENC_MAX && FitsIn(c, n)
      ensures n >= ENC_MAX - j
    {
      if n < ENC_MAX - j {
        FittingDigits(b, ENC_MAX - 1 - n, c);
        RedundantDownward(b, j + 1, ENC_MAX - n);
      }
    }
  }

  lemma FittingDigits(b: seq<Byte>, j: nat, c: UCell)
    requires IsBuffer(b, c) && j < ENC_MAX - 1 && FitsIn(c, ENC_MAX - 1 - j)
    ensures Redundant(b, j + 1)
  {
    hide Digits;
    AllDigits(b);
    if j == 0 {
      assert b[1] < 0x40 <==> !Negative(b[1]);
    } else if j == 1 {
      assert b[2] < 0x40 <==> !Negative(b[2]);
    } else if j == 2 {
      assert b[3] < 0x40 <==> !Negative(b[3]);
    } else {
      assert b[4] < 0x40 <==> !Negative(b[4]);
    }
  }

  lemma RedundantDownward(b: seq<Byte>, i: nat, j: nat)
    requires |b| == ENC_MAX && i <= j < ENC_MAX && Redundant(b, j)
    ensures Redundant(b, i)
  {
  }

  /** The number of bytes of the shortest encoding of a cell. */
  function Length(c: UCell): (n: nat)
    ensures 1 <= n <= ENC_MAX && FitsIn(c, n)
    ensures forall m: nat :: FitsIn(c, m) ==> n <= m
  {
    if FitsIn(c, 1) then 1 else if FitsIn(c, 2) then 2
    else if FitsIn(c, 3) then 3 else if FitsIn(c, 4) then 4 else 5
  }

  /** The last loop of `encode_cell`: continuation bits from `start` on. */
  method MarkTail(buffer: array<Byte>, start: nat) returns (bytes: seq<Byte>)
    requires start < buffer.Length
    requires forall i :: 0 <= i < buffer.Length ==> buffer[i] < 0x80
    modifies buffer
    ensures bytes == Mark(old(buffer[start..]))
  {
    var index := start;
    while index < buffer.Length - 1
      invariant start <= index < buffer.Length
      invariant forall i :: start <= i < index ==> buffer[i] == old(buffer[i]) + 0x80
      invariant forall i :: index <= i < buffer.Length ==> buffer[i] == old(buffer[i])
    {
      buffer[index] := buffer[index] + 0x80;
      index := index + 1;
    }
    bytes := buffer[start..];
  }

  /** `encode_cell`: cut the cell into digits, then skip leading zeros and leading -1s. The
      result is an encoding of the cell, and none is shorter. */
  method EncodeCell(c: UCell) returns (bytes: seq<Byte>)
    ensures IsGroup(bytes) && Value(bytes) == c && |bytes| == Length(c)
    ensures forall g :: IsGroup(g) && Value(g) == c ==> |bytes| <= |g|
  {
    hide Digits, Value, IsGroup, Mark, FitsIn;
    var buffer := CutDigits(c);
    var index := -1;
    while index < ENC_MAX - 2 && buffer[index + 1] == 0 && !Negative(buffer[index + 2])
      invariant -1 <= index <= ENC_MAX - 2
      invariant forall i :: 0 <= i <= index ==> buffer[i] == 0
      invariant index >= 0 ==> !Negative(buffer[index + 1])
    {
      index := index + 1;
    }
    ghost var zeros := index;
    if index == -1 && buffer[index + 1] == ENC_MASK && Negative(buffer[index + 2]) {
      index := index + 1;
    }
    while index < ENC_MAX - 2 && buffer[index + 1] == 0x7f && Negative(buffer[index + 2])
      invariant zeros <= index <= ENC_MAX - 2
      invariant index > zeros ==> zeros == -1
      invariant zeros == -1 && index >= 0 ==> buffer[0] == ENC_MASK && Negative(buffer[index + 1])
      invariant zeros == -1 && index == -1 ==> buffer[0] != ENC_MASK || !Negative(buffer[1])
      invariant zeros == -1 ==> forall i :: 1 <= i <= index ==> buffer[i] == 0x7f
    {
      index := index + 1;
    }
    assert index < ENC_MAX - 1;
    index := index + 1;
    TailHasValue(buffer[..], index, c);
    NoShorterTail(buffer[..], index, c);
    RedundantFits(buffer[..], index, c);
    bytes := MarkTail(buffer, index);
    NoShorterGroup(c);
  }

  lemma NoShorterGroup(c: UCell)
    ensures forall g :: IsGroup(g) && Value(g) == c ==> Length(c) <= |g|
  {
    forall g | IsGroup(g) && Value(g) == c
      ensures Length(c) <= |g|
    {
      GroupFits(g);
    }
  }

  lemma RedundantFits(b: seq<Byte>, j: nat, c: UCell)
    requires IsBuffer(b, c) && j < ENC_MAX && Redundant(b, j)
    ensures FitsIn(c, ENC_MAX - j)
  {
    TailHasValue(b, j, c);
    GroupFits(Mark(b[j..]));
  }

  ghost function Weight(x: nat, k: nat): nat { x * Pow128(k) }

  lemma Reorder(q: nat, pow: nat)
    ensures pow * q * 0x80 == q * (0x80 * pow)
  {}

  lemma CutStep(b: seq<Byte>, index: nat, rest: nat)
    requires |b| == ENC_MAX && index < ENC_MAX && b[index] == rest % 0x80
    requires forall i :: 0 <= i < ENC_MAX ==> b[i] < 0x80
    ensures Weight(rest, 4 - index) + Digits(b[index + 1..]) == Weight(rest / 0x80, 5 - index) + Digits(b[index..])
  {
    hide Digits, Pow128;
    DigitsFrom(b, index);
    FirstDigit(b[index..]);
    Distribute(Pow128(4 - index), rest / 0x80, rest % 0x80, 0x80);
    Reorder(rest / 0x80, Pow128(4 - index));
  }

  lemma CutEnds(c: UCell, rest: nat, d: nat)
    ensures Weight(c, 0) == c
    ensures Weight(rest, ENC_MAX) + d == c ==> d == c
  {
    SmallPowers();
  }

  /** The first loop of `encode_cell`: the digits of a cell, the last one first. */
  method CutDigits(c: UCell) returns (buffer: array<Byte>)
    ensures fresh(buffer) && buffer.Length == ENC_MAX
    ensures IsBuffer(buffer[..], c) && buffer[0] <= ENC_MASK
  {
    hide Digits, Weight;
    buffer := new Byte[ENC_MAX](_ => 0);
    var rest: nat := c;
    var index := ENC_MAX - 1;
    AllDigits(buffer[..]);
    CutEnds(c, 0, 0);
    while index >= 0
      invariant -1 <= index < ENC_MAX
      invariant forall i :: 0 <= i < ENC_MAX ==> buffer[i] < 0x80
      invariant Weight(rest, ENC_MAX - 1 - index) + Digits(buffer[..][index + 1..]) == c
    {
      ghost var before := buffer[..];
      buffer[index] := rest % 0x80;
      CutStep(buffer[..], index, rest);
      assert buffer[..][index + 1..] == before[index + 1..];
      rest := rest / 0x80;
      index := index - 1;
    }
    AllDigits(buffer[..]);
    CutEnds(c, rest, Digits(buffer[..]));
  }

  /** The bytes the compact format needs for a run of cells. */
  function StreamLength(cells: seq<UCell>): nat {
    if cells == [] then 0 else StreamLength(cells[..|cells| - 1]) + Length(cells[|cells| - 1])
  }

  /** The writer's own condition: no prefix gets too far ahead of its cells. */
  ghost predicate KeepsMargin(cells: seq<UCell>) {
    forall k :: 0 <= k <= |cells| ==> StreamLength(cells[..k]) - 4 * k < COMPACTMARGIN - 2
  }

  /** The groups are the shortest encodings of the cells. */
  ghost predicate Encodes(gs: seq<seq<Byte>>, cells: seq<UCell>) {
    && |gs| == |cells|
    && forall i :: 0 <= i < |cells| ==>
         IsGroup(gs[i]) && Value(gs[i]) == cells[i] && |gs[i]| == Length(cells[i])
  }

  lemma StreamLengthNext(cells: seq<UCell>, k: nat)
    requires k < |cells|
    ensures StreamLength(cells[..k + 1]) == StreamLength(cells[..k]) + Length(cells[k])
  {
    assert cells[..k + 1][..k] == cells[..k];
  }

  lemma {:induction false} EncodedStreamLength(gs: seq<seq<Byte>>, cells: seq<UCell>, k: nat)
    requires Encodes(gs, cells) && k <= |gs|
    ensures |Concat(gs[..k])| == StreamLength(cells[..k])
  {
    if k > 0 {
      EncodedStreamLength(gs, cells, k - 1);
      StreamLengthNext(cells, k - 1);
      assert gs[..k][..k - 1] == gs[..k - 1];
    }
  }

  lemma MarginNext(cells: seq<UCell>, c: UCell)
    ensures StreamLength(cells + [c]) == StreamLength(cells) + Length(c)
    ensures KeepsMargin(cells + [c]) <==>
              KeepsMargin(cells) && StreamLength(cells + [c]) - 4 * |cells + [c]| < COMPACTMARGIN - 2
  {
    var all := cells + [c];
    assert all[..|cells|] == cells && all[..|all|] == all;
    forall k | 0 <= k <= |cells|
      ensures all[..k] == cells[..k]
    {
    }
  }

  /** A margin broken by a prefix stays broken. */
  lemma BrokenMarginStays(cells: seq<UCell>, more: seq<UCell>)
    requires !KeepsMargin(cells)
    ensures !KeepsMargin(cells + more)
  {
    assert forall k :: 0 <= k <= |cells| ==> (cells + more)[..k] == cells[..k];
    var k :| 0 <= k <= |cells| && StreamLength(cells[..k]) - 4 * k >= COMPACTMARGIN - 2;
    assert StreamLength((cells + more)[..k]) - 4 * k >= COMPACTMARGIN - 2;
  }

  lemma LastPrefix(cells: seq<UCell>)
    requires KeepsMargin(cells)
    ensures StreamLength(cells) - 4 * |cells| < COMPACTMARGIN - 2
  {
    assert cells[..|cells|] == cells;
  }

  lemma RepeatOnce(c: UCell, num: nat)
    requires num > 0
    ensures Repeat(c, num) == Repeat(c, num - 1) + [c]
  {}

  /** A run of equal cells breaks the margin inside if and only if it does at its end. */
  lemma {:induction false} MarginOfRun(cells: seq<UCell>, c: UCell, num: nat)
    requires KeepsMargin(cells)
    ensures StreamLength(cells + Repeat(c, num)) == StreamLength(cells) + num * Length(c)
    ensures KeepsMargin(cells + Repeat(c, num)) <==>
              StreamLength(cells) + num * Length(c) - 4 * (|cells| + num) < COMPACTMARGIN - 2
  {
    hide KeepsMargin, StreamLength, Length, Repeat;
    LastPrefix(cells);
    if num == 0 {
      assert cells + Repeat(c, 0) == cells;
    } else {
      MarginOfRun(cells, c, num - 1);
      RepeatOnce(c, num);
      assert cells + Repeat(c, num) == (cells + Repeat(c, num - 1)) + [c];
      MarginNext(cells + Repeat(c, num - 1), c);
      assert num * Length(c) == (num - 1) * Length(c) + Length(c);
      var ahead := StreamLength(cells) - 4 * |cells|;
      AheadIsLinear(ahead, Length(c), num);
    }
  }

  lemma AheadIsLinear(ahead: int, length: nat, num: nat)
    requires 1 <= length <= ENC_MAX && num > 0 && ahead < COMPACTMARGIN - 2
    ensures ahead + num * length - 4 * num < COMPACTMARGIN - 2 ==>
              ahead + (num - 1) * length - 4 * (num - 1) < COMPACTMARGIN - 2
  {
    if length == 5 {
    } else {
      MulLe(length, 4, num - 1);
    }
  }

  function Repeat(c: UCell, num: nat): (cells: seq<UCell>)
    ensures |cells| == num
  {
    seq(num, _ => c)
  }

  /** The output file and the counters `bytes_in` and `bytes_out` of the assembler. */
  class Writer {
    var file: seq<Byte>
    var bytesIn: int
    var bytesOut: int
    ghost var groups: seq<seq<Byte>>
    ghost var cells: seq<UCell>

    ghost predicate Valid()
      reads this
    {
      && Encodes(groups, cells)
      && file == Concat(groups)
      && bytesIn == 4 * |cells|
      && bytesOut == StreamLength(cells)
    }

    constructor ()
      ensures Valid() && cells == [] && KeepsMargin(cells)
    {
      file, groups, cells := [], [], [];
      bytesIn, bytesOut := 0, 0;
    }

    /** Appends one encoded cell to the file. */
    method Append(bytes: seq<Byte>, c: UCell)
      requires Encodes(groups, cells) && file == Concat(groups)
      requires IsGroup(bytes) && Value(bytes) == c && |bytes| == Length(c)
      modifies `file, `groups, `cells
      ensures Encodes(groups, cells) && file == Concat(groups)
      ensures cells == old(cells) + [c]
    {
      file := file + bytes;
      groups := groups + [bytes];
      cells := cells + [c];
      assert groups[..|groups| - 1] == old(groups);
    }

    /** `write_encoded`: false stands for the jump that disables compression. */
    method WriteEncoded(c: seq<UCell>) returns (ok: bool)
      requires Valid() && KeepsMargin(cells)
      modifies this
      ensures ok <==> KeepsMargin(old(cells) + c)
      ensures ok ==> Valid() && cells == old(cells) + c
    {
      hide KeepsMargin, StreamLength, Encodes, Concat, IsGroup, Value, FitsIn, Length;
      ghost var before := cells;
      for i := 0 to |c|
        invariant Valid() && KeepsMargin(cells)
        invariant cells == before + c[..i]
      {
        var bytes := EncodeCell(c[i]);
        MarginNext(cells, c[i]);
        Append(bytes, c[i]);
        bytesOut := bytesOut + |bytes|;
        bytesIn := bytesIn + 4;
        assert before + c[..i + 1] == (before + c[..i]) + [c[i]];
        if bytesOut - bytesIn >= COMPACTMARGIN - 2 {
          assert before + c == cells + c[i + 1..];
          BrokenMarginStays(cells, c[i + 1..]);
          return false;
        }
      }
      assert c[..|c|] == c;
      return true;
    }

    /** `write_encoded_n`: the same cell `num` times. The counters are advanced and checked
        once, before the bytes are written. */
    method WriteEncodedN(c: UCell, num: nat) returns (ok: bool)
      requires Valid() && KeepsMargin(cells)
      modifies this
      ensures ok <==> KeepsMargin(old(cells) + Repeat(c, num))
      ensures ok ==> Valid() && cells == old(cells) + Repeat(c, num)
    {
      hide KeepsMargin, StreamLength, Encodes, Concat, IsGroup, Value, FitsIn, Length;
      ghost var before := cells;
      var bytes := EncodeCell(c);
      MarginOfRun(cells, c, num);
      bytesIn := bytesIn + num * 4;
      bytesOut := bytesOut + num * |bytes|;
      if bytesOut - bytesIn >= COMPACTMARGIN - 2 {
        return false;
      }
      for i := 0 to num
        invariant Encodes(groups, cells) && file == Concat(groups)
        invariant cells == before + Repeat(c, i)
        invariant bytesIn == 4 * (|before| + num) && bytesOut == StreamLength(before) + num * Length(c)
      {
        Append(bytes, c);
        assert before + Repeat(c, i + 1) == (before + Repeat(c, i)) + [c];
      }
      return true;
    }
  }
}
