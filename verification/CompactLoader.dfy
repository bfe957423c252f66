/**
  The loader's decompression of a program image: it walks backward over the compact stream
  and writes the cells over the same bytes. A cell whose place still holds unread input
  waits in a ring of fixed size.
  */
module CompactLoader {
  import opened Arith
  import opened CompactFormat
  import opened Words

  function LittleEndian(c: UCell): (b: seq<Byte>)
    ensures |b| == 4
  {
    [c % 0x100, c / 0x100 % 0x100, c / 0x100 / 0x100 % 0x100, c / 0x100 / 0x100 / 0x100]
  }

  /** The little-endian cell at offset `at` of a byte image. */
  function CellAt(s: seq<Byte>, at: nat): UCell
    requires at + 4 <= |s|
  {
    s[at] as int + 0x100 * s[at + 1] as int + 0x1_0000 * s[at + 2] as int + 0x100_0000 * s[at + 3] as int
  }

  lemma StoredCellReadsBack(s: seq<Byte>, at: nat, c: UCell)
    requires at + 4 <= |s| && s[at..at + 4] == LittleEndian(c)
    ensures CellAt(s, at) == c
  {
    var w := s[at..at + 4];
    assert s[at] == w[0] && s[at + 1] == w[1] && s[at + 2] == w[2] && s[at + 3] == w[3];
  }

  datatype Parked = Parked(memloc: nat, c: UCell)

  /** The `sc` cells from `sh` on, around the end. */
  ghost function InRing(ring: seq<Parked>, sh: nat, sc: nat): (s: seq<Parked>)
    requires |ring| == COMPACTMARGIN && sh < COMPACTMARGIN && sc <= COMPACTMARGIN
    ensures |s| == sc
  {
    if sh + sc <= COMPACTMARGIN then ring[sh..sh + sc] else ring[sh..] + ring[..sh + sc - COMPACTMARGIN]
  }

  /** The place behind place `i`. */
  function NextSlot(i: nat): (j: nat)
    requires i < COMPACTMARGIN
    ensures j == (i + 1) % COMPACTMARGIN
  {
    if i + 1 < COMPACTMARGIN then i + 1 else 0
  }

  lemma ParkedBehind(ring: seq<Parked>, sh: nat, sc: nat, st: nat, p: Parked)
    requires |ring| == COMPACTMARGIN && sh < COMPACTMARGIN && sc < COMPACTMARGIN
    requires st == if sh + sc < COMPACTMARGIN then sh + sc else sh + sc - COMPACTMARGIN
    ensures InRing(ring[st := p], sh, sc + 1) == InRing(ring, sh, sc) + [p]
  {
    var after := ring[st := p];
    if sh + sc < COMPACTMARGIN {
      assert after[sh..sh + sc + 1] == ring[sh..sh + sc] + [p];
    } else {
      assert after[sh..] == ring[sh..] && after[..st + 1] == ring[..st] + [p];
    }
  }

  lemma DroppedFront(ring: seq<Parked>, sh: nat, sc: nat)
    requires |ring| == COMPACTMARGIN && sh < COMPACTMARGIN && 0 < sc <= COMPACTMARGIN
    ensures InRing(ring, NextSlot(sh), sc - 1) == InRing(ring, sh, sc)[1..]
  {}

  /** The ring `spare` with its head `sh`, its end `st` and its count `sc`. */
  class SpareRing {
    const spare: array<Parked>
    var sh: nat
    var st: nat
    var sc: nat

    ghost predicate Valid()
      reads this
    {
      && spare.Length == COMPACTMARGIN
      && sh < COMPACTMARGIN && sc <= COMPACTMARGIN
      && st == if sh + sc < COMPACTMARGIN then sh + sc else sh + sc - COMPACTMARGIN
    }

    /** The waiting cells, in the order in which they were parked. */
    ghost function Contents(): (s: seq<Parked>)
      requires Valid()
      reads this, spare
      ensures |s| == sc
    {
      InRing(spare[..], sh, sc)
    }

    lemma HeadIsFirst()
      requires Valid() && sc > 0
      ensures Contents()[0] == spare[sh]
    {
    }

    constructor ()
      ensures Valid() && Contents() == []
      ensures fresh(spare)
    {
      spare := new Parked[COMPACTMARGIN];
      sh, st, sc := 0, 0, 0;
    }

    method Park(at: nat, c: UCell)
      requires Valid() && sc < COMPACTMARGIN
      modifies this, spare
      ensures Valid() && Contents() == old(Contents()) + [Parked(at, c)]
    {
      hide InRing;
      ParkedBehind(spare[..], sh, sc, st, Parked(at, c));
      spare[st] := Parked(at, c);
      assert spare[..] == old(spare[..])[st := Parked(at, c)];
      assert NextSlot(st) == (st + 1) % COMPACTMARGIN;
      st := (st + 1) % COMPACTMARGIN;
      sc := sc + 1;
    }

    method Drop()
      requires Valid() && sc > 0
      modifies this
      ensures Valid() && Contents() == old(Contents())[1..]
    {
      hide InRing;
      DroppedFront(spare[..], sh, sc);
      assert NextSlot(sh) == (sh + 1) % COMPACTMARGIN;
      sh := (sh + 1) % COMPACTMARGIN;
      sc := sc - 1;
    }
  }

  function Pow2(n: nat): (p: nat)
    ensures p > 0
  {
    if n == 0 then 1 else 2 * Pow2(n - 1)
  }

  function ShiftLeft(x: nat, n: nat): UCell { (x * Pow2(n)) % CELL }

  lemma PowersOfTwo()
    ensures Pow2(0) == 1 && Pow2(7) == 0x80 && Pow2(8) == 0x100 && Pow2(14) == 0x4000
    ensures Pow2(21) == 0x20_0000 && Pow2(28) == 0x1000_0000
    ensures Pow2(32) == CELL && Pow2(35) == 8 * CELL
  {
  }

  lemma NextPower(n: nat)
    requires n > 0
    ensures Pow2(n) == 2 * Pow2(n - 1)
  {
  }

  lemma {:induction false} Pow2Sum(a: nat, b: nat)
    ensures Pow2(a + b) == Pow2(a) * Pow2(b)
  {
    hide Pow2;
    if a == 0 {
      PowersOfTwo();
    } else {
      Pow2Sum(a - 1, b);
      NextPower(a);
      NextPower(a + b);
      Associate(2, Pow2(a - 1), Pow2(b));
    }
  }

  /** `0xff << shift` sets the bits from `shift` up to eight further, or to the end of the cell. */
  lemma FillByte(shift: nat)
    requires shift < 32
    ensures Pow2(shift) < CELL
    ensures ShiftLeft(0xff, shift) == (if shift + 8 < 32 then Pow2(shift + 8) else CELL) - Pow2(shift)
  {
    hide Pow2;
    var rest := Pow2(32 - shift);
    assert Pow2(8) == 0x100 && Pow2(32) == CELL by { PowersOfTwo(); }
    Pow2Sum(8, shift);
    Pow2Sum(shift, 32 - shift);
    RestIsLarge(shift);
    MulLe(2, rest, Pow2(shift));
    if shift <= 24 {
      FillBelowTop(Pow2(shift), rest);
    } else {
      Pow2Sum(shift - 24, 32 - shift);
      FillTop(Pow2(shift), rest, Pow2(shift - 24));
    }
  }

  lemma RestIsLarge(shift: nat)
    requires shift < 32
    ensures Pow2(32 - shift) >= 2
    ensures shift <= 24 ==> Pow2(32 - shift) >= 0x100
  {
    assert Pow2(32 - shift) == 2 * Pow2(31 - shift);
    if shift <= 24 {
      Pow2Sum(8, 24 - shift);
      assert Pow2(8) == 0x100;
    }
  }

  lemma FillBelowTop(p: nat, rest: nat)
    requires p * rest == CELL && rest >= 0x100
    ensures (0xff * p) % CELL == 0x100 * p - p
  {
    MulLe(0x100, rest, p);
    if p > 0 {
      DivUnique(0xff * p, CELL, 0, 0xff * p);
    }
  }

  lemma FillTop(p: nat, rest: nat, over: nat)
    requires p * rest == CELL && over * rest == 0x100 && 0 < p < CELL
    ensures (0xff * p) % CELL == CELL - p
  {
    assert over * (p * rest) == p * (over * rest);
    DivUnique(0xff * p, CELL, over - 1, CELL - p);
  }

  /** The sign extension loop: all bits from `from` up are set. */
  method SignExtend(c: UCell, from: nat) returns (r: UCell)
    requires from < 32 ==> c < Pow2(from)
    ensures r == if from < 32 then c + (CELL - Pow2(from)) else c
  {
    hide Pow2, ShiftLeft;
    r := c;
    var shift := from;
    while shift < 32
      invariant from <= shift
      invariant if from >= 32 then r == c
                else if shift < 32 then r == c + Pow2(shift) - Pow2(from)
                else r == c + CELL - Pow2(from)
    {
      FillByte(from);
      FillByte(shift);
      FillByte(if shift + 8 < 32 then shift + 8 else from);
      r := r + ShiftLeft(0xff, shift);
      shift := shift + 8;
    }
  }

  /** What the sign extension makes of the digits of a negative group. */
  lemma SignedDigits(low: nat, k: nat)
    requires 1 <= k <= 5 && low < Pow128(k)
    ensures low % CELL == if k < 5 then low else low % CELL
    ensures (low - Pow128(k)) % CELL == if k < 5 then low + (CELL - Pow128(k)) else low % CELL
    ensures 7 * k < 32 <==> k < 5
    ensures Pow2(7 * k) == Pow128(k)
  {
    SmallPowers();
    PowersOfTwo();
    if k < 5 {
      DivUnique(low, CELL, 0, low);
      DivUnique(low - Pow128(k), CELL, -1, low + CELL - Pow128(k));
    } else {
      DropCells(low, -8);
    }
  }

  /** Adding the next byte above `k` gathered ones. */
  lemma GatherByte(c: UCell, low: nat, p: nat, k: nat)
    requires k < 5 && p < 0x80 && low < Pow128(k) && c == low % CELL
    ensures c + ShiftLeft(p, 7 * k) < CELL
    ensures c + ShiftLeft(p, 7 * k) == (p * Pow128(k) + low) % CELL
  {
    hide Pow2, Pow128;
    SmallPowers();
    PowersOfTwo();
    var pow := Pow128(k);
    assert pow == Pow2(7 * k);
    DivUnique(low, CELL, 0, low);
    if k < 4 {
      MulLe(p, 0x7f, pow);
      DivUnique(p * pow, CELL, 0, p * pow);
      DivUnique(p * pow + low, CELL, 0, p * pow + low);
    } else {
      DivUnique(p * pow, CELL, p / 16, p % 16 * pow);
      DivUnique(p * pow + low, CELL, p / 16, p % 16 * pow + low);
    }
  }

  /** What the inner loop has gathered when the bytes of the group from `at` on are read. */
  ghost function Gathered(g: seq<Byte>, at: nat): UCell
    requires at <= |g|
  {
    Digits(g[at..]) % CELL
  }

  lemma NothingGathered(g: seq<Byte>)
    requires IsGroup(g)
    ensures 1 <= |g| <= 5 && Gathered(g, |g|) == 0
  {
    assert g[|g|..] == [];
  }

  /** One step of the inner loop: byte `at` of a group joins the bytes behind it. */
  lemma GatherStep(g: seq<Byte>, at: nat, c: UCell)
    requires IsGroup(g) && at < |g| && c == Gathered(g, at + 1)
    ensures 7 * (|g| - 1 - at) < 32
    ensures c + ShiftLeft(Payload(g[at]), 7 * (|g| - 1 - at)) == Gathered(g, at)
  {
    hide IsGroup, Digits, Pow128, Pow2, Payload;
    var tail := g[at + 1..];
    NothingGathered(g);
    assert g[at..][1..] == tail;
    FirstDigit(g[at..]);
    DigitsBelow(tail);
    PayloadIsSmall(g[at]);
    GatherByte(c, Digits(tail), Payload(g[at]), |tail|);
  }

  lemma PayloadIsSmall(b: Byte)
    ensures Payload(b) < 0x80
  {}

  /** After the inner loop: the sign bit of the first byte decides about the bits above. */
  lemma GatherEnds(g: seq<Byte>, c: UCell)
    requires IsGroup(g) && c == Gathered(g, 0)
    ensures Value(g) == if !Negative(g[0]) then c
                        else if 7 * |g| < 32 then c + (CELL - Pow2(7 * |g|)) else c
    ensures 7 * |g| < 32 ==> c < Pow2(7 * |g|)
  {
    assert g[0..] == g;
    DigitsBelow(g);
    SignedDigits(Digits(g), |g|);
    ValueIsTwosComplement(g);
  }

  /** Where a byte stands in the group is seen from its own continuation bit and that before it. */
  lemma ByteOfGroup(s: seq<Byte>, prefix: seq<Byte>, g: seq<Byte>, at: nat)
    requires s == prefix + g && IsGroup(g) && at < |g|
    requires prefix == [] || !Continues(prefix[|prefix| - 1])
    ensures
      var i := |prefix| + at;
      && s[i] == g[at] && (Continues(s[i]) <==> at < |g| - 1)
      && (i > 0 && Continues(s[i - 1]) <==> at > 0)
  {
  }

  /** The inner loops of `expand`: gather one group from its last byte backward. The two
      assertions of the source are proved on the way. */
  method ReadGroupBackward(code: array<Byte>, size: nat, ghost prefix: seq<Byte>, ghost g: seq<Byte>)
    returns (c: UCell, codesize: nat)
    requires size <= code.Length && code[..size] == prefix + g
    requires IsGroup(g)
    requires prefix == [] || !Continues(prefix[|prefix| - 1])
    ensures codesize == |prefix|
    ensures c == Value(g)
  {
    hide Pow2, ShiftLeft, Value, Gathered, Payload, IsGroup, Negative, Continues;
    codesize, c := size, 0;
    var shift := 0;
    var more := true;
    NothingGathered(g);
    while more
      invariant |prefix| <= codesize <= size
      invariant shift == 7 * (size - codesize)
      invariant c == Gathered(g, codesize - |prefix|)
      invariant more <==> codesize > |prefix|
      decreases codesize
    {
      codesize := codesize - 1;
      var b := code[codesize];
      ByteOfGroup(code[..size], prefix, g, codesize - |prefix|);
      GatherStep(g, codesize - |prefix|, c);
      assert shift < 32;
      assert shift > 0 || !Continues(b);
      c := c + ShiftLeft(Payload(b), shift);
      shift := shift + 7;
      more := codesize > 0 && Continues(code[codesize - 1]);
    }
    ByteOfGroup(code[..size], prefix, g, 0);
    GatherEnds(g, c);
    if Negative(code[codesize]) {
      c := SignExtend(c, shift);
    }
  }

  /** The cells from `from` on have their final place in the image. */
  ghost predicate Placed(image: seq<Byte>, cells: seq<UCell>, from: nat)
    requires 4 * |cells| <= |image|
  {
    forall j :: from <= j < |cells| ==> image[4 * j..4 * j + 4] == LittleEndian(cells[j])
  }

  /** The cells `k` up to `top`, waiting in the order of strictly decreasing addresses. */
  ghost function Backlog(cells: seq<UCell>, k: nat, top: nat): (s: seq<Parked>)
    requires k <= top <= |cells|
    ensures |s| == top - k
  {
    seq(top - k, i requires 0 <= i < top - k => Parked(4 * (top - 1 - i), cells[top - 1 - i]))
  }

  /** The highest waiting cell leaves first; a newly parked cell is the lowest. */
  lemma BacklogEnds(cells: seq<UCell>, k: nat, top: nat)
    requires k < top <= |cells|
    ensures Backlog(cells, k, top)[0] == Parked(4 * (top - 1), cells[top - 1])
    ensures Backlog(cells, k, top)[1..] == Backlog(cells, k, top - 1)
    ensures Backlog(cells, k, top) == Backlog(cells, k + 1, top) + [Parked(4 * k, cells[k])]
  {
  }

  /** An image after the statement `*(ucell *)(code+at) = c` of a little-endian machine. */
  function Stored(image: seq<Byte>, at: nat, c: UCell): (after: seq<Byte>)
    requires at + 4 <= |image|
    ensures |after| == |image|
  {
    image[..at] + LittleEndian(c) + image[at + 4..]
  }

  method StoreCell(code: array<Byte>, at: nat, c: UCell)
    requires at + 4 <= code.Length
    modifies code
    ensures code[..] == Stored(old(code[..]), at, c)
  {
    var b := LittleEndian(c);
    code[at], code[at + 1], code[at + 2], code[at + 3] := b[0], b[1], b[2], b[3];
  }

  /** Storing the next cell leaves the cells above it in place and the bytes below it alone. */
  lemma StoreExtendsPlaced(image: seq<Byte>, cells: seq<UCell>, j: nat, unread: nat)
    requires j < |cells| && 4 * |cells| <= |image| && Placed(image, cells, j + 1)
    requires unread <= 4 * j
    ensures Placed(Stored(image, 4 * j, cells[j]), cells, j)
    ensures Stored(image, 4 * j, cells[j])[..unread] == image[..unread]
    ensures Stored(image, 4 * j, cells[j])[4 * |cells|..] == image[4 * |cells|..]
  {
    var after := Stored(image, 4 * j, cells[j]);
    assert after[4 * j..4 * j + 4] == LittleEndian(cells[j]);
    forall m | j < m < |cells|
      ensures after[4 * m..4 * m + 4] == LittleEndian(cells[m])
    {
      assert after[4 * m..4 * m + 4] == image[4 * m..4 * m + 4];
    }
  }

  /** The flush loop of `expand`: every waiting cell whose place lies above the unread
      input goes to its place, the highest address first. */
  method FlushRing(code: array<Byte>, ring: SpareRing, codesize: nat,
                   ghost cells: seq<UCell>, ghost k: nat, ghost top0: nat) returns (ghost top: nat)
    requires ring.Valid() && ring.spare as object != code
    requires k <= top0 <= |cells| && codesize <= code.Length && 4 * |cells| <= code.Length
    requires ring.Contents() == Backlog(cells, k, top0)
    requires Placed(code[..], cells, top0)
    modifies code, ring
    ensures ring.Valid() && k <= top <= top0
    ensures ring.Contents() == Backlog(cells, k, top)
    ensures Placed(code[..], cells, top)
    ensures top > k ==> 4 * (top - 1) <= codesize
    ensures forall j :: top <= j < top0 ==> 4 * j > codesize
    ensures code[..codesize] == old(code[..codesize])
    ensures code[4 * |cells|..] == old(code[4 * |cells|..])
  {
    hide Placed, Backlog, LittleEndian, Stored, SpareRing.Contents;
    top := top0;
    ghost var before := code[..];
    while ring.sc > 0 && ring.spare[ring.sh].memloc > codesize
      invariant ring.Valid() && k <= top <= top0
      invariant ring.Contents() == Backlog(cells, k, top)
      invariant Placed(code[..], cells, top)
      invariant forall j :: top <= j < top0 ==> 4 * j > codesize
      invariant code[..][..codesize] == before[..codesize]
      invariant code[..][4 * |cells|..] == before[4 * |cells|..]
      decreases ring.sc
    {
      var next := ring.spare[ring.sh];
      BacklogEnds(cells, k, top);
      ring.HeadIsFirst();
      StoreExtendsPlaced(code[..], cells, top - 1, codesize);
      StoreCell(code, next.memloc, next.c);
      ring.Drop();
      top := top - 1;
    }
    if top > k {
      BacklogEnds(cells, k, top);
      ring.HeadIsFirst();
    }
    assert code[..codesize] == code[..][..codesize];
    assert code[4 * |cells|..] == code[..][4 * |cells|..];
  }

  /** The encoded length of the first `k` groups. */
  function EncodedLength(gs: seq<seq<Byte>>, k: nat): nat
    requires k <= |gs|
  {
    |Concat(gs[..k])|
  }

  /** How many cells above cell `k` wait in the ring when the turn comes to cell `k`: those
      whose place does not lie wholly above the bytes still to be read. */
  function Waiting(gs: seq<seq<Byte>>, k: nat): int
    requires k < |gs|
  {
    var last := EncodedLength(gs, k) / 4;
    var highest := if last < |gs| then last else |gs| - 1;
    if highest > k then highest - k else 0
  }

  /** The ring is large enough for a stream exactly when this holds. */
  ghost predicate FitsRing(gs: seq<seq<Byte>>) {
    forall k :: 0 <= k < |gs| ==> Waiting(gs, k) < COMPACTMARGIN
  }

  lemma ConcatNext(gs: seq<seq<Byte>>, k: nat)
    requires k < |gs|
    ensures Concat(gs[..k + 1]) == Concat(gs[..k]) + gs[k]
  {
    assert gs[..k + 1][..k] == gs[..k];
  }

  /** A well-formed prefix does not end in the middle of a group. */
  lemma PrefixEndsGroup(gs: seq<seq<Byte>>, k: nat)
    requires AreGroups(gs) && k <= |gs|
    ensures var p := Concat(gs[..k]); p == [] || !Continues(p[|p| - 1])
  {
    if k > 0 {
      ConcatNext(gs, k - 1);
    }
  }

  lemma NothingLeft(gs: seq<seq<Byte>>, k: nat)
    requires AreGroups(gs) && k <= |gs|
    ensures Concat(gs[..k]) == [] <==> k == 0
  {
    if k > 0 {
      ConcatNext(gs, k - 1);
    }
  }

  lemma WaitingIs(gs: seq<seq<Byte>>, k: nat, top: nat)
    requires k < top <= |gs|
    requires top > k + 1 ==> 4 * (top - 1) <= EncodedLength(gs, k)
    requires top < |gs| ==> 4 * top > EncodedLength(gs, k)
    ensures Waiting(gs, k) == top - (k + 1)
  {
  }

  /** The invariant of `expand`: cells from `top` on are in place, cells `k` to `top` wait,
      and of the waiting cells none could have been placed. */
  ghost predicate Split(image: seq<Byte>, ring: seq<Parked>, cells: seq<UCell>, k: nat, top: nat, codesize: nat)
    requires 4 * |cells| <= |image|
  {
    && k <= top <= |cells|
    && ring == Backlog(cells, k, top)
    && Placed(image, cells, top)
    && (top > k ==> 4 * (top - 1) <= codesize)
    && (top < |cells| ==> 4 * top > codesize || top == 0)
    && (k == 0 ==> top == 0)
  }

  /** The end of the loop body of `expand`: store the cell just read, or park it. */
  method StoreOrPark(code: array<Byte>, ring: SpareRing, codesize: nat, c: UCell,
                     ghost cells: seq<UCell>, k: nat, ghost top: nat) returns (ok: bool, ghost top': nat)
    requires ring.Valid() && ring.spare as object != code
    requires k < |cells| && 4 * |cells| <= code.Length && c == cells[k] && (k == 0 ==> codesize == 0)
    requires Split(code[..], ring.Contents(), cells, k + 1, top, codesize)
    modifies code, ring, ring.spare
    ensures ring.Valid()
    ensures ok <==> old(ring.sc) < COMPACTMARGIN
    ensures ok ==> Split(code[..], ring.Contents(), cells, k, top', codesize)
    ensures codesize <= code.Length ==> code[..codesize] == old(code[..codesize])
    ensures code[4 * |cells|..] == old(code[4 * |cells|..])
  {
    var memsize := 4 * k;
    top' := k;
    if memsize > codesize || (memsize == codesize && memsize == 0) {
      StoreExtendsPlaced(code[..], cells, k, codesize);
      StoreCell(code, memsize, c);
      ok := true;
      assert code[..codesize] == code[..][..codesize];
      assert code[4 * |cells|..] == code[..][4 * |cells|..];
    } else if ring.sc == COMPACTMARGIN {
      ok := false;
    } else {
      BacklogEnds(cells, k, top);
      ring.Park(memsize, c);
      ok, top' := true, top;
    }
  }

  /** What `expand` still has to read, before cell `k`, and what it has done with the rest. */
  ghost predicate Expanding(code: array<Byte>, ring: SpareRing, gs: seq<seq<Byte>>, k: nat, top: nat, codesize: nat)
    requires AreGroups(gs) && ring.Valid() && 4 * |gs| <= code.Length
    reads code, ring, ring.spare
  {
    && k <= |gs| && codesize <= code.Length
    && code[..codesize] == Concat(gs[..k])
    && Split(code[..], ring.Contents(), Values(gs), k, top, codesize)
  }

  /** The body of the outer loop of `expand`, for cell `k`. */
  method ExpandCell(code: array<Byte>, ring: SpareRing, size: nat, k: nat,
                    ghost gs: seq<seq<Byte>>, ghost top0: nat)
    returns (ok: bool, codesize: nat, ghost top: nat)
    requires ring.Valid() && ring.spare as object != code && AreGroups(gs) && 4 * |gs| <= code.Length
    requires k < |gs| && Expanding(code, ring, gs, k + 1, top0, size)
    modifies code, ring, ring.spare
    ensures ring.Valid()
    ensures codesize < size
    ensures ok <==> Waiting(gs, k) < COMPACTMARGIN
    ensures ok ==> Expanding(code, ring, gs, k, top, codesize)
    ensures code[4 * |gs|..] == old(code[4 * |gs|..])
  {
    hide Values, Waiting, Placed, Backlog, Concat, Value, LittleEndian, SpareRing.Contents;
    var c;
    ghost var cells := Values(gs);
    ConcatNext(gs, k);
    PrefixEndsGroup(gs, k);
    c, codesize := ReadGroupBackward(code, size, Concat(gs[..k]), gs[k]);
    assert code[..codesize] == code[..size][..codesize];
    top := FlushRing(code, ring, codesize, cells, k + 1, top0);
    WaitingIs(gs, k, top);
    NothingLeft(gs, k);
    ok, top := StoreOrPark(code, ring, codesize, c, cells, k, top);
  }

  /** The outer loop of `expand`, for a stream that is the concatenation of `gs`. */
  method ExpandGroups(code: array<Byte>, size: nat, memsize0: nat, ghost gs: seq<seq<Byte>>) returns (ok: bool)
    requires AreGroups(gs) && memsize0 == 4 * |gs| <= code.Length
    requires size <= code.Length && code[..size] == Concat(gs)
    modifies code
    ensures ok <==> FitsRing(gs)
    ensures ok ==> Placed(code[..], Values(gs), 0)
    ensures code[memsize0..] == old(code[memsize0..])
  {
    hide Values, Waiting, Placed, Backlog, Concat, Value, LittleEndian, SpareRing.Contents;
    ghost var k: nat, top: nat := |gs|, |gs|;
    assert gs[..|gs|] == gs;
    NothingPlaced(code[..], gs);
    var ring := new SpareRing();
    var codesize: nat, memsize: nat := size, memsize0;
    ok := true;
    while codesize > 0
      invariant ring.Valid() && ring.spare as object != code && fresh(ring) && fresh(ring.spare)
      invariant k <= |gs| && memsize == 4 * k
      invariant Expanding(code, ring, gs, k, top, codesize)
      invariant code[memsize0..] == old(code[memsize0..])
      invariant forall i :: k <= i < |gs| ==> Waiting(gs, i) < COMPACTMARGIN
      decreases codesize
    {
      NothingLeft(gs, k);
      k, memsize := k - 1, memsize - 4;
      ok, codesize, top := ExpandCell(code, ring, codesize, memsize / 4, gs, top);
      if !ok {
        return;
      }
    }
    NothingLeft(gs, k);
  }

  lemma NothingPlaced(image: seq<Byte>, gs: seq<seq<Byte>>)
    requires AreGroups(gs) && 4 * |gs| <= |image|
    ensures Placed(image, Values(gs), |gs|) && Backlog(Values(gs), |gs|, |gs|) == []
  {
  }

  lemma {:induction false} EncodedLengthGrows(gs: seq<seq<Byte>>, k: nat, n: nat)
    requires AreGroups(gs) && k <= n <= |gs|
    ensures EncodedLength(gs, k) + (n - k) <= EncodedLength(gs, n)
    decreases n
  {
    if k < n {
      EncodedLengthGrows(gs, k, n - 1);
      ConcatNext(gs, n - 1);
    }
  }

  /** The first `n` prefixes of the stream run ahead of their cells by less than the ring holds. */
  ghost predicate StaysWithinMargin(gs: seq<seq<Byte>>, n: int)
    requires n <= |gs|
  {
    forall k :: 0 <= k < n ==> EncodedLength(gs, k) < 4 * (k + COMPACTMARGIN)
  }

  /**
    The exact capacity condition in bytes: it is about the prefixes that leave more cells than
    the ring holds. A stream no longer than its cells meets it for those exactly if it meets it
    for all.
    */
  lemma RingCapacity(gs: seq<seq<Byte>>)
    ensures FitsRing(gs) <==> StaysWithinMargin(gs, |gs| - COMPACTMARGIN)
    ensures StaysWithinMargin(gs, |gs|) ==> FitsRing(gs)
    ensures AreGroups(gs) && EncodedLength(gs, |gs|) <= 4 * |gs| && FitsRing(gs) ==> StaysWithinMargin(gs, |gs|)
  {
    hide EncodedLength;
    forall k | 0 <= k < |gs|
      ensures Waiting(gs, k) < COMPACTMARGIN <==>
        EncodedLength(gs, k) < 4 * (k + COMPACTMARGIN) || |gs| - COMPACTMARGIN <= k
    {}
    if AreGroups(gs) && EncodedLength(gs, |gs|) <= 4 * |gs| {
      forall k | |gs| - COMPACTMARGIN <= k < |gs|
        ensures k >= 0 ==> EncodedLength(gs, k) < 4 * (k + COMPACTMARGIN)
      {
        if k >= 0 {
          EncodedLengthGrows(gs, k, |gs|);
        }
      }
    }
  }

  /** `expand`. The stream must be well formed and encode `memsize / 4` cells, as the
      assertions of the source say; the result tells whether the capacity assertion of the
      ring held throughout. */
  method Expand(code: array<Byte>, size: nat, memsize: nat) returns (ok: bool)
    requires size <= code.Length && memsize <= code.Length
    requires WellFormed(code[..size])
    requires memsize == 4 * |Groups(code[..size])|
    modifies code
    ensures ok <==> FitsRing(old(Groups(code[..size])))
    ensures ok ==> Placed(code[..], old(Decode(code[..size])), 0)
    ensures code[memsize..] == old(code[memsize..])
  {
    ConcatGroups(code[..size]);
    ok := ExpandGroups(code, size, memsize, Groups(code[..size]));
  }
}
