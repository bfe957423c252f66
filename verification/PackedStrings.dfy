/**
  Packing, unpacking and measuring strings on a little-endian machine. A packed string holds
  four characters in a cell, the first in the most significant byte; an unpacked string holds
  one character in a cell. The first cell of a string tells which it is.
  */
module PackedStrings {
  import opened Arith
  import opened PackedCell
  import opened Words

  predicate IsPacked(s: seq<UCell>)
    requires s != []
  {
    s[0] > UNPACKEDMAX
  }

  /** Character `i` of a packed string. */
  function PackedChar(s: seq<UCell>, i: nat): Byte
    requires i < 4 * |s|
  {
    Char(s[i / 4], i % 4)
  }

  /** The byte of little-endian memory at address `p` in a string. */
  function ByteAt(s: seq<UCell>, p: nat): Byte
    requires p < 4 * |s|
  {
    Char(s[p / 4], 3 - p % 4)
  }

  /** `packedptr`: where a character of a packed string lies in memory. */
  function PackedPtr(index: nat): nat { index / 4 * 4 + 3 - index % 4 }

  lemma PackedPtrFindsCharacter(s: seq<UCell>, index: nat)
    requires index < 4 * |s|
    ensures PackedPtr(index) < 4 * |s|
    ensures ByteAt(s, PackedPtr(index)) == PackedChar(s, index)
  {
    DivUnique(PackedPtr(index), 4, index / 4, 3 - index % 4);
  }

  /** Character `i` of a string that is packed or not, as `amx_StrPack` reads it. */
  function SourceChar(s: seq<UCell>, i: nat): Byte
    requires s != [] && i < if IsPacked(s) then 4 * |s| else |s|
  {
    if IsPacked(s) then PackedChar(s, i) else s[i] % 0x100
  }

  function SourceChars(s: seq<UCell>, len: nat): (chars: seq<Byte>)
    requires s != [] && len <= if IsPacked(s) then 4 * |s| else |s|
    ensures |chars| == len
  {
    seq(len, i requires 0 <= i < len => SourceChar(s, i))
  }

  /** `after` is `before` with `chars` packed behind its first `offs` characters, the rest of
      the last cell zero, and nothing else changed. */
  ghost predicate IsAppended(before: seq<UCell>, after: seq<UCell>, offs: nat, chars: seq<Byte>) {
    var n := offs + |chars|;
    && |before| == |after| > n / 4
    && (forall i {:trigger PackedChar(after, i)} :: 0 <= i < n / 4 * 4 + 4 ==>
          PackedChar(after, i) == if i < offs then PackedChar(before, i)
                                  else if i < n then chars[i - offs] else 0)
    && after[n / 4 + 1..] == before[n / 4 + 1..]
  }

  // ----- Packed source, aligned destination -----

  /** `memmove` of whole cells. */
  method MoveCells(dest: array<UCell>, at: nat, source: array<UCell>, n: nat)
    requires at + n <= dest.Length && n <= source.Length
    modifies dest
    ensures dest[..] == old(dest[..at] + source[..n] + dest[at + n..])
  {
    var moved := source[..n];
    for i := 0 to n
      invariant forall k :: 0 <= k < dest.Length ==> dest[k] == if at <= k < at + i then moved[k - at] else old(dest[k])
    {
      dest[at + i] := moved[i];
    }
    assert dest[..] == old(dest[..at]) + moved + old(dest[at + n..]);
  }

  /** The statement `*pdest = 0` for byte `b` of a cell in little-endian order. */
  function ClearByte(c: UCell, b: nat): UCell
    requires b < 4
  {
    High(c, b + 1) + Low(c, b)
  }

  lemma ClearLowBytes(c: UCell, b: nat)
    requires b < 4
    ensures ClearByte(High(c, b), b) == High(c, b + 1)
  {
    CharsPacked(c);
    ZeroCell();
    hide Char, W, Pack;
    var b0, b1, b2, b3 := Char(c, 0), Char(c, 1), Char(c, 2), Char(c, 3);
    CutHigh(c, b, b0, b1, b2, b3);
    CutHigh(c, b + 1, b0, b1, b2, b3);
    var d1, d2, d3: Byte := if b > 2 then 0 else b1, if b > 1 then 0 else b2, if b > 0 then 0 else b3;
    CutHigh(High(c, b), b + 1, b0, d1, d2, d3);
    CutCell(High(c, b), b, b0, d1, d2, d3);
  }

  lemma ZeroCell()
    ensures Pack(0, 0, 0, 0) == 0
  {
  }

  lemma HighOfZero(c: UCell)
    ensures High(c, 0) == c
  {
  }

  lemma MovedChar(before: seq<UCell>, source: seq<UCell>, len: nat, at: nat, moved: seq<UCell>, i: nat)
    requires source != [] && IsPacked(source) && len <= 4 * |source|
    requires at + len / 4 < |before| && i < 4 * |before|
    requires moved == before[..at] + source[..(len + 3) / 4] + before[at + (len + 3) / 4..]
    ensures |moved| == |before|
    ensures i < 4 * at ==> PackedChar(moved, i) == PackedChar(before, i)
    ensures 4 * at <= i < 4 * at + len ==> PackedChar(moved, i) == SourceChars(source, len)[i - 4 * at]
  {
    hide Char;
    if 4 * at <= i < 4 * at + len {
      var k := i - 4 * at;
      DivUnique(i, 4, at + k / 4, k % 4);
      assert moved[i / 4] == source[k / 4];
    }
  }

  /** Whole cells moved behind an aligned offset, with the tail of the last one cleared. */
  lemma AlignedIsAppended(before: seq<UCell>, source: seq<UCell>, len: nat, at: nat, moved: seq<UCell>,
      after: seq<UCell>)
    requires source != [] && IsPacked(source) && len <= 4 * |source|
    requires at + len / 4 < |before| == |moved|
    requires moved == before[..at] + source[..(len + 3) / 4] + before[at + (len + 3) / 4..]
    requires after == moved[at + len / 4 := High(moved[at + len / 4], 4 - len % 4)]
    ensures IsAppended(before, after, 4 * at, SourceChars(source, len))
  {
    hide Char, High, SourceChar, IsPacked;
    var chars, n, last := SourceChars(source, len), 4 * at + len, at + len / 4;
    DivUnique(n, 4, last, len % 4);
    forall i | 0 <= i < n / 4 * 4 + 4
      ensures PackedChar(after, i) == if i < 4 * at then PackedChar(before, i)
                                      else if i < n then chars[i - 4 * at] else 0
    {
      MovedChar(before, source, len, at, moved, i);
      if i / 4 == last {
        CharsOfHigh(moved[last], 4 - len % 4, i % 4);
      }
    }
    assert after[last + 1..] == before[last + 1..];
  }

  method PackAligned(dest: array<UCell>, source: array<UCell>, len: nat, offs: nat)
    requires source.Length > 0 && IsPacked(source[..]) && offs % 4 == 0
    requires len <= 4 * source.Length && (offs + len) / 4 < dest.Length
    modifies dest
    ensures IsAppended(old(dest[..]), dest[..], offs, old(SourceChars(source[..], len)))
  {
    hide IsAppended, High, Low, SourceChars;
    ghost var before, from := dest[..], source[..];
    var at, cells := offs / 4, (len + 3) / 4;
    var last := at + len / 4;
    MoveCells(dest, at, source, cells);
    ghost var moved := dest[..];
    assert moved == before[..at] + from[..cells] + before[at + cells..];
    var count := 4 - len % 4;
    HighOfZero(dest[last]);
    for b := 0 to count
      invariant dest[..] == moved[last := High(moved[last], b)]
    {
      ClearLowBytes(moved[last], b);
      dest[last] := ClearByte(dest[last], b);
    }
    AlignedIsAppended(before, from, len, at, moved, dest[..]);
  }

  // ----- Packed source, unaligned destination -----

  /** What a shifted copy puts at a position, whether or not the source string reaches it. */
  ghost function Shifted(before: seq<UCell>, from: seq<UCell>, offs: nat, cell: nat, i: nat): Byte
    requires offs / 4 < |before| && i < 4
  {
    var at := 4 * cell + i;
    if at < offs then (if cell < |before| then Char(before[cell], i) else 0)
    else if at - offs < 4 * |from| then PackedChar(from, at - offs) else 0
  }

  /** One step of the shift loop: the carried characters of one source cell join the first
      characters of the next, and the rest of that cell is carried on. */
  lemma ShiftStep(c: UCell, s: UCell, o: nat, i: nat)
    requires 1 <= o < 4 && i < 4
    requires forall j :: o <= j < 4 ==> Char(c, j) == 0
    ensures Char(Or(c, Low(ShiftRight(s, o), 4 - o)), i) == if i < o then Char(c, i) else Char(s, i - o)
    ensures Char(High(ShiftLeft(s, 4 - o), 4 - o), i) == if i < o then Char(s, 4 - o + i) else 0
  {
    hide Char, High, Low, ShiftLeft, ShiftRight;
    var right := Low(ShiftRight(s, o), 4 - o);
    forall j | 0 <= j < o
      ensures Char(right, j) == 0
    {
      CharsOfShiftRight(s, o, j);
    }
    CharsOfOr(c, right, o, i);
    CharsOfShiftRight(s, o, i);
    CharsOfHigh(ShiftLeft(s, 4 - o), 4 - o, i);
    CharsOfShiftLeft(s, 4 - o, i);
  }

  /** Where the two halves of a source cell land. */
  lemma ShiftedHalves(before: seq<UCell>, from: seq<UCell>, offs: nat, k: nat, i: nat)
    requires offs / 4 < |before| && k < |from| && i < 4
    ensures i >= offs % 4 ==> Shifted(before, from, offs, offs / 4 + k, i) == Char(from[k], i - offs % 4)
    ensures i < offs % 4 ==> Shifted(before, from, offs, offs / 4 + k + 1, i) == Char(from[k], 4 - offs % 4 + i)
  {
    hide Char;
    var o := offs % 4;
    if i >= o {
      DivUnique(4 * k + (i - o), 4, k, i - o);
    } else {
      DivUnique(4 * k + (4 - o + i), 4, k, 4 - o + i);
    }
  }

  /** One more cell that is read does not change what the cells before it put in place. */
  lemma ShiftedStays(before: seq<UCell>, read: seq<UCell>, c: UCell, offs: nat, cell: nat, i: nat)
    requires offs / 4 < |before| && i < 4 && 4 * cell + i < offs + 4 * |read|
    ensures Shifted(before, read + [c], offs, cell, i) == Shifted(before, read, offs, cell, i)
  {
    hide Char;
  }

  /** The cells that were read hold the first `len` characters of `from`. */
  ghost predicate HasRead(read: seq<UCell>, from: seq<UCell>, len: nat)
    requires len <= 4 * |from|
  {
    forall k, j :: 0 <= k < |read| && 0 <= j < 4 && 4 * k + j < len ==> Char(read[k], j) == Char(from[k], j)
  }

  lemma HasReadMore(read: seq<UCell>, from: seq<UCell>, len: nat, c: UCell)
    requires len <= 4 * |from| && HasRead(read, from, len)
    requires forall j :: 0 <= j < 4 && 4 * |read| + j < len ==> Char(c, j) == Char(from[|read|], j)
    ensures HasRead(read + [c], from, len)
  {
    hide Char;
  }

  /**
    The shift loop. `read` is what it reads: the characters of the source, also if it runs in place
    behind them, and anything at all in a cell behind the source; the caller discards what comes
    from there.
    */
  method ShiftLoop(dest: array<UCell>, source: array<UCell>, len: nat, offs: nat, iterations: nat)
    returns (ghost read: seq<UCell>)
    requires (dest != source || len <= offs) && offs % 4 != 0
    requires iterations == (len + offs % 4) / 4 + 1
    requires offs / 4 + iterations <= dest.Length && source.Length > 0 && len <= 4 * source.Length
    modifies dest
    ensures forall m :: 0 <= m < offs / 4 ==> dest[m] == old(dest[m])
    ensures forall m :: offs / 4 + iterations <= m < dest.Length ==> dest[m] == old(dest[m])
    ensures |read| == iterations && read[0] == old(source[0]) && HasRead(read, old(source[..]), len)
    ensures forall m, j :: offs / 4 <= m < offs / 4 + iterations && 0 <= j < 4 ==>
              Char(dest[m], j) == Shifted(old(dest[..]), read, offs, m, j)
  {
    hide Char, High, Low, ShiftLeft, ShiftRight, Or, Shifted, HasRead;
    ghost var before, from := dest[..], source[..];
    var d, o := offs / 4, offs % 4;
    var c: UCell := High(dest[d], 4 - o);
    read := [];
    NothingRead(from, len);
    forall j | 0 <= j < 4
      ensures Char(c, j) == if j < o then Shifted(before, read, offs, d, j) else 0
    {
      CharsOfHigh(dest[d], 4 - o, j);
      ShiftedPrefix(before, read, offs, j);
    }
    var k := 0;
    var i := 0;
    while i < len + o + 1
      invariant 0 <= k <= iterations && i == 4 * k && |read| == k
      invariant k > 0 ==> read[0] == from[0]
      invariant HasRead(read, from, len)
      invariant dest != source ==> source[..] == from
      invariant forall m :: 0 <= m < d ==> dest[m] == before[m]
      invariant forall m :: d + k <= m < dest.Length ==> dest[m] == before[m]
      invariant forall m, j :: d <= m < d + k && 0 <= j < 4 ==>
                  Char(dest[m], j) == Shifted(before, read, offs, m, j)
      invariant forall j :: 0 <= j < 4 ==>
                  Char(c, j) == if j < o then Shifted(before, read, offs, d + k, j) else 0
    {
      var cell: UCell := *;
      if k < source.Length {
        cell := source[k];
      }
      ReadIsSource(dest[..], source[..], before, from, read, cell, dest == source, len, offs, k);
      HasReadMore(read, from, len, cell);
      ghost var all := read + [cell];
      forall m, j | d <= m < d + k && 0 <= j < 4
        ensures Char(dest[m], j) == Shifted(before, all, offs, m, j)
      {
        ShiftedStays(before, read, cell, offs, m, j);
      }
      var joined := Or(c, Low(ShiftRight(cell, o), 4 - o));
      var carried := High(ShiftLeft(cell, 4 - o), 4 - o);
      forall j | 0 <= j < 4
        ensures Char(joined, j) == Shifted(before, all, offs, d + k, j)
        ensures Char(carried, j) == if j < o then Shifted(before, all, offs, d + k + 1, j) else 0
      {
        if j < o {
          ShiftedStays(before, read, cell, offs, d + k, j);
        }
        ShiftStep(c, cell, o, j);
        ShiftedHalves(before, all, offs, k, j);
      }
      dest[d + k] := joined;
      read := all;
      c := carried;
      k := k + 1;
      i := i + 4;
    }
  }

  lemma NothingRead(from: seq<UCell>, len: nat)
    requires len <= 4 * |from|
    ensures HasRead([], from, len)
  {}

  /** The cell that is read next still holds its characters of the source. */
  lemma ReadIsSource(dest: seq<UCell>, source: seq<UCell>, before: seq<UCell>, from: seq<UCell>, read: seq<UCell>,
      cell: UCell, inPlace: bool, len: nat, offs: nat, k: nat)
    requires |read| == k && |source| == |from| && len <= 4 * |from| && offs % 4 != 0
    requires offs / 4 < |before| == |dest| && (k < |source| ==> cell == source[k])
    requires if inPlace then dest == source && before == from && len <= offs else source == from
    requires forall m :: 0 <= m < offs / 4 || offs / 4 + k <= m < |dest| ==> dest[m] == before[m]
    requires forall m, j :: offs / 4 <= m < offs / 4 + k && m < |dest| && 0 <= j < 4 ==>
      Char(dest[m], j) == Shifted(before, read, offs, m, j)
    ensures forall j :: 0 <= j < 4 && 4 * k + j < len ==> Char(cell, j) == Char(from[k], j)
    ensures k == 0 && from != [] ==> cell == from[0]
  {
    hide Char, Shifted;
    if inPlace && offs / 4 <= k && k > 0 {
      forall j | 0 <= j < 4 && 4 * k + j < len
        ensures Char(cell, j) == Char(from[k], j)
      {
        assert k == offs / 4 && j < offs % 4;
        ShiftedPrefix(before, read, offs, j);
      }
    }
  }

  lemma ShiftedPrefix(before: seq<UCell>, from: seq<UCell>, offs: nat, j: nat)
    requires offs / 4 < |before| && j < 4
    ensures j < offs % 4 ==> Shifted(before, from, offs, offs / 4, j) == Char(before[offs / 4], j)
  {
  }

  /** Clearing what the shift loop read too much completes the append. */
  lemma ShiftedIsAppended(before: seq<UCell>, from: seq<UCell>, len: nat, offs: nat, looped: seq<UCell>,
      after: seq<UCell>)
    requires from != [] && IsPacked(from) && offs % 4 != 0 && len <= 4 * |from|
    requires |looped| == |before| > (offs + len) / 4
    requires forall m :: 0 <= m < offs / 4 || (offs + len) / 4 < m < |before| ==> looped[m] == before[m]
    requires forall m, j :: offs / 4 <= m <= (offs + len) / 4 && 0 <= j < 4 ==>
               Char(looped[m], j) == Shifted(before, from, offs, m, j)
    requires after == looped[(offs + len) / 4 := High(looped[(offs + len) / 4], 4 - (offs + len) % 4)]
    ensures IsAppended(before, after, offs, SourceChars(from, len))
  {
    hide Char, High;
    var chars, n := SourceChars(from, len), offs + len;
    forall i | 0 <= i < n / 4 * 4 + 4
      ensures PackedChar(after, i) == if i < offs then PackedChar(before, i)
                                      else if i < n then chars[i - offs] else 0
    {
      ShiftedChar(before, from, len, offs, i);
      if i / 4 == n / 4 {
        CharsOfHigh(looped[n / 4], 4 - n % 4, i % 4);
      }
    }
  }

  lemma ShiftedChar(before: seq<UCell>, from: seq<UCell>, len: nat, offs: nat, i: nat)
    requires from != [] && IsPacked(from) && len <= 4 * |from|
    requires offs / 4 < |before| && i < 4 * |before|
    ensures i < offs ==> Shifted(before, from, offs, i / 4, i % 4) == PackedChar(before, i)
    ensures offs <= i < offs + len ==> Shifted(before, from, offs, i / 4, i % 4) == SourceChars(from, len)[i - offs]
  {
    hide Char;
    assert 4 * (i / 4) + i % 4 == i;
  }

  /** Cells that hold the same characters stand for the same text. */
  lemma SameText(read: seq<UCell>, from: seq<UCell>, len: nat)
    requires read != [] && from != [] && read[0] == from[0] && IsPacked(from)
    requires len <= 4 * |from| && len <= 4 * |read| && HasRead(read, from, len)
    ensures IsPacked(read) && SourceChars(read, len) == SourceChars(from, len)
  {
    hide Char;
    forall i | 0 <= i < len
      ensures SourceChars(read, len)[i] == SourceChars(from, len)[i]
    {
      assert 4 * (i / 4) + i % 4 == i;
    }
  }

  method PackShifted(dest: array<UCell>, source: array<UCell>, len: nat, offs: nat)
    requires (dest != source || len <= offs) && offs % 4 != 0
    requires source.Length > 0 && IsPacked(source[..])
    requires len <= 4 * source.Length && (offs + len) / 4 < dest.Length
    modifies dest
    ensures IsAppended(old(dest[..]), dest[..], offs, old(SourceChars(source[..], len)))
  {
    hide Char, High, SourceChars, Shifted, IsAppended, IsPacked, HasRead;
    ghost var before, from := dest[..], source[..];
    var last := (offs + len) / 4;
    var r := (offs % 4 + len) % 4;
    assert last == offs / 4 + (len + offs % 4) / 4 && r == (offs + len) % 4;
    ghost var read := ShiftLoop(dest, source, len, offs, (len + offs % 4) / 4 + 1);
    SameText(read, from, len);
    ghost var looped := dest[..];
    dest[last] := High(dest[last], 4 - r);
    ShiftedIsAppended(before, read, len, offs, looped, dest[..]);
  }

  // ----- Unpacked source -----

  /** What packing puts at position `j` of cell `cell`. */
  ghost function Wanted(before: seq<UCell>, from: seq<UCell>, offs: nat, cell: nat, j: nat): Byte
    requires j < 4
  {
    var at := 4 * cell + j;
    if at < offs then (if cell < |before| then Char(before[cell], j) else 0)
    else if at - offs < |from| then from[at - offs] % 0x100 else 0
  }

  /** `(c << CHARBITS) | x`. */
  lemma ShiftInChar(c: UCell, x: Byte, j: nat)
    requires j < 4
    ensures Char(Or(ShiftLeft(c, 1), x), j) == if j < 3 then Char(c, j + 1) else x
  {
    var zeros: UCell := x;
    CharOfSmall(x);
    hide Char, ShiftLeft;
    CharsOfShiftLeft(c, 1, 3);
    CharsOfOr(ShiftLeft(c, 1), zeros, 3, j);
    CharsOfShiftLeft(c, 1, j);
  }

  lemma CharOfSmall(x: Byte)
    ensures Char(x, 0) == Char(x, 1) == Char(x, 2) == 0 && Char(x, 3) == x
  {
  }

  /** The first `p` characters of the cell being filled are the last `p` of the accumulator. */
  ghost predicate Filling(c: UCell, p: nat, before: seq<UCell>, from: seq<UCell>, offs: nat, cell: nat)
    requires p < 4
  {
    forall j {:trigger Wanted(before, from, offs, cell, j)} :: 0 <= j < p ==>
      Char(c, 4 - p + j) == Wanted(before, from, offs, cell, j)
  }

  /** `c = (*dest & ~mask) >> ...` on entry: the characters already in the first cell. */
  lemma FillingStarts(before: seq<UCell>, from: seq<UCell>, offs: nat)
    requires offs / 4 < |before|
    ensures Filling(ShiftRight(High(before[offs / 4], 4 - offs % 4), 4 - offs % 4), offs % 4,
                    before, from, offs, offs / 4)
  {
    hide Char, High, ShiftRight;
    var o, first := offs % 4, before[offs / 4];
    forall j {:trigger Wanted(before, from, offs, offs / 4, j)} | 0 <= j < o
      ensures Char(ShiftRight(High(first, 4 - o), 4 - o), 4 - o + j) == Wanted(before, from, offs, offs / 4, j)
    {
      CharsOfShiftRight(High(first, 4 - o), 4 - o, 4 - o + j);
      CharsOfHigh(first, 4 - o, j);
    }
  }

  lemma FillingGoesOn(c: UCell, p: nat, x: Byte, before: seq<UCell>, from: seq<UCell>, offs: nat, cell: nat)
    requires p < 4 && Filling(c, p, before, from, offs, cell)
    requires x == Wanted(before, from, offs, cell, p)
    ensures p < 3 ==> Filling(Or(ShiftLeft(c, 1), x), p + 1, before, from, offs, cell)
    ensures p == 3 ==> forall j :: 0 <= j < 4 ==> Char(Or(ShiftLeft(c, 1), x), j) == Wanted(before, from, offs, cell, j)
  {
    hide Char, Or, ShiftLeft, Wanted;
    var next := Or(ShiftLeft(c, 1), x);
    forall j {:trigger Wanted(before, from, offs, cell, j)} | 0 <= j < p + 1
      ensures Char(next, 3 - p + j) == Wanted(before, from, offs, cell, j)
    {
      ShiftInChar(c, x, 3 - p + j);
    }
  }

  /** The last, partly filled cell. */
  lemma FillingEnds(c: UCell, p: nat, before: seq<UCell>, from: seq<UCell>, offs: nat, cell: nat, j: nat)
    requires p < 4 && j < 4 && Filling(c, p, before, from, offs, cell)
    ensures Char(ShiftLeft(c, 4 - p), j) == if j < p then Wanted(before, from, offs, cell, j) else 0
  {
    hide Char, ShiftLeft, Wanted;
    CharsOfShiftLeft(c, 4 - p, j);
  }

  method PackUnpacked(dest: array<UCell>, source: array<UCell>, len: nat, offs: nat)
    requires dest != source || offs == 0
    requires source.Length > 0 && !IsPacked(source[..]) && len <= source.Length
    requires (offs + len) / 4 < dest.Length
    modifies dest
    ensures IsAppended(old(dest[..]), dest[..], offs, old(SourceChars(source[..], len)))
  {
    hide Char, High, ShiftRight, ShiftLeft, Or, Wanted, SourceChars, IsAppended, Filling;
    ghost var before, from := dest[..], source[..];
    var d, o := offs / 4, offs % 4;
    // A right shift over a whole cell is only asked for a cell of zeros.
    var c: UCell := ShiftRight(High(dest[d], 4 - o), 4 - o);
    FillingStarts(before, from, offs);
    var i := o;
    while i < len + o
      invariant o <= i <= len + o
      invariant forall m :: 0 <= m < d || d + i / 4 <= m < dest.Length ==> dest[m] == before[m]
      invariant forall m, j :: d <= m < d + i / 4 && 0 <= j < 4 ==>
                  Char(dest[m], j) == Wanted(before, from, offs, m, j)
      invariant Filling(c, i % 4, before, from, offs, d + i / 4)
      invariant dest != source ==> source[..] == from
    {
      var x: Byte := source[i - o] % 0x100;
      WantedSource(before, from, offs, i);
      FillingGoesOn(c, i % 4, x, before, from, offs, d + i / 4);
      c := Or(ShiftLeft(c, 1), x);
      if i % 4 == 3 {
        dest[d + i / 4] := c;
        c := 0;
        NothingFilled(c, before, from, offs, d + i / 4 + 1);
      }
      i := i + 1;
    }
    ghost var last: nat := d + i / 4;
    var rest: UCell := 0;
    ZeroChars();
    if i % 4 != 0 {
      rest := ShiftLeft(c, 4 - i % 4);
      forall j | 0 <= j < 4
        ensures Char(rest, j) == if j < i % 4 then Wanted(before, from, offs, last, j) else 0
      {
        FillingEnds(c, i % 4, before, from, offs, last, j);
      }
    }
    dest[d + i / 4] := rest;
    FilledIsAppended(before, from, len, offs, dest[..], last);
  }

  lemma ZeroChars()
    ensures forall j :: 0 <= j < 4 ==> Char(0, j) == 0
  {
  }

  lemma NothingFilled(c: UCell, before: seq<UCell>, from: seq<UCell>, offs: nat, cell: nat)
    ensures Filling(c, 0, before, from, offs, cell)
  {
  }

  lemma WantedSource(before: seq<UCell>, from: seq<UCell>, offs: nat, i: nat)
    requires offs % 4 <= i && i - offs % 4 < |from|
    ensures Wanted(before, from, offs, offs / 4 + i / 4, i % 4) == from[i - offs % 4] % 0x100
  {
  }

  lemma FilledIsAppended(before: seq<UCell>, from: seq<UCell>, len: nat, offs: nat, after: seq<UCell>, last: nat)
    requires from != [] && !IsPacked(from) && len <= |from|
    requires last == (offs + len) / 4 && |after| == |before| > last
    requires forall m :: 0 <= m < offs / 4 || last < m < |before| ==> after[m] == before[m]
    requires forall m, j :: offs / 4 <= m < last && 0 <= j < 4 ==>
               Char(after[m], j) == Wanted(before, from, offs, m, j)
    requires forall j :: 0 <= j < 4 ==>
               Char(after[last], j) == (if j < (offs + len) % 4 then Wanted(before, from, offs, last, j) else 0)
    ensures IsAppended(before, after, offs, SourceChars(from, len))
  {
    hide Char;
    var chars, n := SourceChars(from, len), offs + len;
    forall i | 0 <= i < n / 4 * 4 + 4
      ensures PackedChar(after, i) == if i < offs then PackedChar(before, i)
                                      else if i < n then chars[i - offs] else 0
    {
      assert 4 * (i / 4) + i % 4 == i;
    }
  }

  /** `amx_StrPack`: three ways to do the same thing. It may be done in place at the first
      character, behind the text of a packed source, and wherever packed cells are moved whole. */
  method StrPack(dest: array<UCell>, source: array<UCell>, len: nat, offs: nat)
    requires source.Length > 0
    requires dest != source || offs == 0 || (IsPacked(source[..]) && (offs % 4 == 0 || len <= offs))
    requires (offs + len) / 4 < dest.Length
    requires len <= if IsPacked(source[..]) then 4 * source.Length else source.Length
    modifies dest
    ensures IsAppended(old(dest[..]), dest[..], offs, old(SourceChars(source[..], len)))
  {
    if source[0] > UNPACKEDMAX && offs % 4 == 0 {
      PackAligned(dest, source, len, offs);
    } else if source[0] > UNPACKEDMAX {
      PackShifted(dest, source, len, offs);
    } else {
      PackUnpacked(dest, source, len, offs);
    }
  }

  // ----- Length -----

  /** Whether `n` is the length of a zero-terminated string. */
  ghost predicate HasLength(s: seq<UCell>, n: nat)
    requires s != []
  {
    if IsPacked(s) then
      n < 4 * |s| && PackedChar(s, n) == 0 && forall i :: 0 <= i < n ==> PackedChar(s, i) != 0
    else
      n < |s| && s[n] == 0 && forall i :: 0 <= i < n ==> s[i] != 0
  }

  /** `strlen((char *)cstr)`: the bytes of the cells in the order in which they lie in memory. */
  method FirstZeroByte(cstr: array<UCell>, ghost n: nat) returns (p: nat)
    requires n < 4 * cstr.Length && PackedChar(cstr[..], n) == 0
    ensures p < 4 * cstr.Length && ByteAt(cstr[..], p) == 0
    ensures forall q :: 0 <= q < p ==> ByteAt(cstr[..], q) != 0
  {
    PackedPtrFindsCharacter(cstr[..], n);
    p := 0;
    while ByteAt(cstr[..], p) != 0
      invariant p <= PackedPtr(n)
      invariant forall q :: 0 <= q < p ==> ByteAt(cstr[..], q) != 0
      decreases 4 * cstr.Length - p
    {
      p := p + 1;
    }
  }

  /** The last loop of `amx_StrLen`: the leading non-zero characters of one cell. */
  method LeadingChars(cell: UCell, ghost z: nat) returns (k: nat)
    requires z < 4 && Char(cell, z) == 0
    ensures k < 4 && Char(cell, k) == 0
    ensures forall j :: 0 <= j < k ==> Char(cell, j) != 0
  {
    hide Char, ShiftLeft;
    var c := cell;
    k := 0;
    while TopChar(c) != 0
      invariant k <= z
      invariant forall j :: 0 <= j < 4 - k ==> Char(c, j) == Char(cell, j + k)
      invariant forall j :: 0 <= j < k ==> Char(cell, j) != 0
      decreases z - k
    {
      TopCharIsFirst(c);
      assert Char(c, 0) == Char(cell, k);
      forall j | 0 <= j < 4 - (k + 1)
        ensures Char(ShiftLeft(c, 1), j) == Char(cell, j + (k + 1))
      {
        CharsOfShiftLeft(c, 1, j);
        assert Char(c, j + 1) == Char(cell, j + 1 + k);
      }
      k := k + 1;
      c := ShiftLeft(c, 1);
    }
    TopCharIsFirst(c);
  }

  /** `c & CHARMASK`. */
  function TopChar(c: UCell): UCell { High(c, 3) }

  lemma TopCharIsFirst(c: UCell)
    ensures TopChar(c) == 0 <==> Char(c, 0) == 0
    ensures c > UNPACKEDMAX <==> Char(c, 0) != 0
  {
  }

  /** The first zero byte in memory lies in the cell of the first zero character. */
  lemma ZeroByteCell(s: seq<UCell>, p: nat, k: nat)
    requires p < 4 * |s| && ByteAt(s, p) == 0
    requires forall q :: 0 <= q < p ==> ByteAt(s, q) != 0
    requires k < 4 && Char(s[p / 4], k) == 0 && forall j :: 0 <= j < k ==> Char(s[p / 4], j) != 0
    ensures PackedChar(s, p / 4 * 4 + k) == 0
    ensures forall i :: 0 <= i < p / 4 * 4 + k ==> PackedChar(s, i) != 0
  {
    hide Char;
    DivUnique(p / 4 * 4 + k, 4, p / 4, k);
    forall i | 0 <= i < p / 4 * 4 + k
      ensures PackedChar(s, i) != 0
    {
      if i / 4 < p / 4 {
        PackedPtrFindsCharacter(s, i);
        assert ByteAt(s, PackedPtr(i)) != 0;
      }
    }
  }

  /** `amx_StrLen`: for a packed string, finds the last cell in memory order and counts on in
      character order. Characters behind the terminator do not matter. */
  method StrLen(cstr: array?<UCell>) returns (ok: bool, length: nat)
    requires cstr != null ==> cstr.Length > 0 && exists n :: HasLength(cstr[..], n)
    ensures ok <==> cstr != null
    ensures ok ==> HasLength(cstr[..], length)
    ensures ok && cstr[0] <= 0xFF_FFFF ==> length < cstr.Length && cstr[length] == 0 && 0 !in cstr[..length]
    ensures ok && cstr[0] > 0xFF_FFFF ==>
      && length < 4 * cstr.Length && PackedChar(cstr[..], length) == 0
      && forall i :: 0 <= i < length ==> PackedChar(cstr[..], i) != 0
    ensures !ok ==> length == 0
  {
    hide Char;
    if cstr == null {
      return false, 0;
    }
    ok, length := true, 0;
    ghost var n: nat :| HasLength(cstr[..], n);
    if cstr[0] > UNPACKEDMAX {
      var p := FirstZeroByte(cstr, n);
      length := p - p % 4;
      var k := LeadingChars(cstr[p / 4], 3 - p % 4);
      ZeroByteCell(cstr[..], p, k);
      length := length + k;
    } else {
      while cstr[length] != 0
        invariant length <= n
        invariant forall i :: 0 <= i < length ==> cstr[i] != 0
        decreases n - length
      {
        length := length + 1;
      }
    }
  }

  // ----- Unpacking -----

  /** A cell of the unpacked copy: a character of a packed string, else the cell as it is. */
  function UnpackedCell(s: seq<UCell>, i: nat): UCell
    requires s != [] && i < if IsPacked(s) then 4 * |s| else |s|
  {
    if IsPacked(s) then PackedChar(s, i) else s[i]
  }

  /** `c = source[i/4] >> (3 - i%4)*CHARBITS; c & UCHAR_MAX`. */
  lemma ShiftedOutChar(c: UCell, j: nat)
    requires j < 4
    ensures ShiftRight(c, 3 - j) % 0x100 == Char(c, j)
  {
    hide ShiftRight;
    CharsOfShiftRight(c, 3 - j, 3);
  }

  /** `amx_StrUnpack`. A packed string is unpacked from its last character to its first, so
      that source and destination may be the same array. */
  method StrUnpack(dest: array<UCell>, source: array<UCell>, len: nat)
    requires source.Length > 0 && len < dest.Length
    requires len <= if IsPacked(source[..]) then 4 * source.Length else source.Length
    modifies dest
    ensures forall i :: 0 <= i < len ==> dest[i] == old(UnpackedCell(source[..], i))
    ensures old(source[0]) <= 0xFF_FFFF ==> dest[..len] == old(source[..len])
    ensures old(source[0]) > 0xFF_FFFF ==> forall i :: 0 <= i < len ==> dest[i] == old(PackedChar(source[..], i))
    ensures dest[len] == 0
    ensures dest[len + 1..] == old(dest[len + 1..])
  {
    hide Char, ShiftRight;
    ghost var from := source[..];
    if source[0] > UNPACKEDMAX {
      var i := len - 1;
      while i >= 0
        invariant -1 <= i < len
        invariant forall k :: i < k < len ==> dest[k] == PackedChar(from, k)
        invariant forall k :: 0 <= k <= i && k < source.Length ==> source[k] == from[k]
        invariant dest != source ==> source[..] == from
        invariant dest[len..] == old(dest[len..])
      {
        assert source[i / 4] == from[i / 4];
        ShiftedOutChar(source[i / 4], i % 4);
        dest[i] := ShiftRight(source[i / 4], 3 - i % 4) % 0x100;
        i := i - 1;
      }
      dest[len] := 0;
    } else {
      for i := 0 to len
        invariant forall k :: 0 <= k < i ==> dest[k] == from[k]
        invariant forall k :: i <= k < source.Length ==> source[k] == from[k]
        invariant dest != source ==> source[..] == from
        invariant dest[len..] == old(dest[len..])
      {
        dest[i] := source[i];
      }
      dest[len] := 0;
    }
  }

  // ----- Whole operations -----

  /** The first cell of an appended string shows that it is packed. */
  lemma AppendedIsPacked(before: seq<UCell>, after: seq<UCell>, offs: nat, chars: seq<Byte>)
    requires IsAppended(before, after, offs, chars) && offs + |chars| > 0
    ensures IsPacked(after) <==> PackedChar(after, 0) != 0
    ensures offs > 0 ==> PackedChar(after, 0) == PackedChar(before, 0)
    ensures offs == 0 ==> PackedChar(after, 0) == chars[0]
  {
    TopCharIsFirst(after[0]);
  }

  /** Appending strings without zero characters gives a string of the summed length. */
  lemma AppendedLength(before: seq<UCell>, after: seq<UCell>, offs: nat, chars: seq<Byte>)
    requires IsAppended(before, after, offs, chars)
    requires forall i :: 0 <= i < offs ==> PackedChar(before, i) != 0
    requires forall i :: 0 <= i < |chars| ==> chars[i] != 0
    ensures HasLength(after, offs + |chars|)
  {
    hide Char;
    var n := offs + |chars|;
    if n == 0 {
      forall j | 0 <= j < 4
        ensures Char(after[0], j) == 0
      {
        assert PackedChar(after, j) == 0;
      }
      AllCharsZero(after[0]);
    } else {
      AppendedIsPacked(before, after, offs, chars);
      assert PackedChar(after, n) == 0;
    }
  }

  lemma AllCharsZero(c: UCell)
    requires forall j :: 0 <= j < 4 ==> Char(c, j) == 0
    ensures c == 0
  {
    CharsPacked(c);
  }

  /** Packing loses nothing: unpacking gives the characters back, the old ones and the new. */
  lemma AppendedUnpacks(before: seq<UCell>, after: seq<UCell>, offs: nat, chars: seq<Byte>, i: nat)
    requires IsAppended(before, after, offs, chars) && PackedChar(after, 0) != 0
    requires i < offs + |chars|
    ensures IsPacked(after)
    ensures UnpackedCell(after, i) == if i < offs then PackedChar(before, i) else chars[i - offs]
    ensures ByteAt(after, PackedPtr(i)) == UnpackedCell(after, i)
  {
    AppendedIsPacked(before, after, offs, chars);
    PackedPtrFindsCharacter(after, i);
  }

  /** A result of packing is determined in every cell. */
  lemma AppendedIsUnique(before: seq<UCell>, after: seq<UCell>, other: seq<UCell>, offs: nat, chars: seq<Byte>)
    requires IsAppended(before, after, offs, chars) && IsAppended(before, other, offs, chars)
    ensures after == other
  {
    hide Char;
    var n := offs + |chars|;
    forall m | 0 <= m < |after|
      ensures after[m] == other[m]
    {
      if m <= n / 4 {
        forall j | 0 <= j < 4
          ensures Char(after[m], j) == Char(other[m], j)
        {
          DivUnique(4 * m + j, 4, m, j);
          assert PackedChar(after, 4 * m + j) == PackedChar(other, 4 * m + j);
        }
        CharsPacked(after[m]);
        CharsPacked(other[m]);
      } else {
        assert after[m] == after[n / 4 + 1..][m - (n / 4 + 1)];
        assert other[m] == other[n / 4 + 1..][m - (n / 4 + 1)];
      }
    }
  }
}
