/**
  How a host passes arguments to a script, as one function: cells go on the stack, strings on the
  heap with their address on the stack, the last argument first, and what does not fit is left out.
  */
module AmxArguments {
  import opened AmxConstants
  import opened AmxHost
  import opened AmxMemory
  import opened Words

  datatype Item = Cell(value: int) | Text(text: seq<Byte>)

  /** A string on the heap. */
  datatype Block = Block(at: int, text: seq<Byte>)

  /** What is on the stack in the end, or a string larger than the gap between heap and stack. */
  datatype Passed = Passed(args: seq<int>, blocks: seq<Block>) | TooLarge

  /** The bytes that an argument takes on the heap. */
  function Size(item: Item): nat {
    if item.Cell? then 0 else 4 * (|item.text| + 1)
  }

  function TotalSize(items: seq<Item>): nat {
    if items == [] then 0 else TotalSize(items[..|items| - 1]) + Size(items[|items| - 1])
  }

  function Behind(r: Passed, args: seq<int>, blocks: seq<Block>): Passed {
    if r.TooLarge? then TooLarge else Passed(r.args + args, r.blocks + blocks)
  }

  function ArgumentFor(item: Item, hea: int): int {
    if item.Cell? then item.value else hea
  }

  function BlocksFor(item: Item, hea: int): seq<Block> {
    if item.Cell? then [] else [Block(hea, item.text)]
  }

  function Passing(stk: int, hea: int, items: seq<Item>): (r: Passed)
    ensures r.Passed? ==> |r.args| <= |items|
    decreases |items|
  {
    if items == [] then Passed([], [])
    else
      var rest, item := items[..|items| - 1], items[|items| - 1];
      if item.Text? && Size(item) > stk - hea then TooLarge
      else if stk - hea - Size(item) < STKMARGIN then Passing(stk, hea, rest)
      else Behind(Passing(stk - 4, hea + Size(item), rest), [ArgumentFor(item, hea)], BlocksFor(item, hea))
  }

  lemma PassingNext(stk: int, hea: int, rest: seq<Item>, item: Item)
    ensures Passing(stk, hea, rest + [item]) ==
      if item.Text? && Size(item) > stk - hea then TooLarge
      else if stk - hea - Size(item) < STKMARGIN then Passing(stk, hea, rest)
      else Behind(Passing(stk - 4, hea + Size(item), rest), [ArgumentFor(item, hea)], BlocksFor(item, hea))
  {
    assert (rest + [item])[..|rest|] == rest;
  }

  lemma BehindBoth(r: Passed, args: seq<int>, blocks: seq<Block>, more: seq<int>, moreBlocks: seq<Block>)
    ensures Behind(Behind(r, args, blocks), more, moreBlocks) == Behind(r, args + more, blocks + moreBlocks)
  {
    if r.Passed? {
      assert r.args + args + more == r.args + (args + more);
      assert r.blocks + blocks + moreBlocks == r.blocks + (blocks + moreBlocks);
    }
  }

  // ----- What arrives -----

  /** Every argument arrives exactly if the margin is kept with all strings and all cells but one. */
  lemma {:induction false} EverythingArrives(stk: int, hea: int, items: seq<Item>)
    ensures
      var r := Passing(stk, hea, items);
      r.Passed? && |r.args| == |items| <==>
        items == [] || hea + TotalSize(items) + STKMARGIN <= stk - 4 * (|items| - 1)
    decreases |items|
  {
    if items != [] {
      var rest, item := items[..|items| - 1], items[|items| - 1];
      EverythingArrives(stk - 4, hea + Size(item), rest);
    }
  }

  /** Cells alone: as many of the last ones as fit above the margin. */
  lemma {:induction false} OnlyCells(stk: int, hea: int, items: seq<Item>, values: seq<int>)
    requires |items| == |values| && forall i :: 0 <= i < |items| ==> items[i] == Cell(values[i])
    ensures Passing(stk, hea, items) == Passed(Arriving(values, stk, hea), [])
    decreases |items|
  {
    hide Passing, Fitting;
    if items == [] {
      PassingNothing(stk, hea);
    } else {
      var n := |items| - 1;
      var rest, most := items[..n], values[..n];
      assert items == rest + [Cell(values[n])];
      PassingNext(stk, hea, rest, Cell(values[n]));
      if hea + STKMARGIN <= stk {
        OnlyCells(stk - 4, hea, rest, most);
        OneMoreFits(stk, hea, n + 1);
        var k := Fitting(stk - 4, hea, n);
        assert most[n - k..] + [values[n]] == values[n - k..];
      } else {
        OnlyCells(stk, hea, rest, most);
        NoMoreFit(stk, hea, n);
        NoMoreFit(stk, hea, n + 1);
      }
    }
  }

  lemma PassingNothing(stk: int, hea: int)
    ensures Passing(stk, hea, []) == Passed([], []) && Fitting(stk, hea, 0) == 0
  {}

  /** The strings stand in memory, each with its terminator. */
  ghost predicate AreHeld(data: seq<Byte>, blocks: seq<Block>) {
    forall i :: 0 <= i < |blocks| ==> blocks[i].at >= 0 && IsString(data, blocks[i].at, blocks[i].text)
  }

  /** When everything has arrived, argument `i` is the cell, or the address of a copy of the string. */
  lemma {:induction false} ArgumentIs(stk: int, hea: int, items: seq<Item>, data: seq<Byte>, i: nat)
    requires
      var r := Passing(stk, hea, items);
      i < |items| && r.Passed? && |r.args| == |items| && AreHeld(data, r.blocks)
    ensures
      var arg := Passing(stk, hea, items).args[i];
      match items[i]
      case Cell(value) => arg == value
      case Text(text) => arg >= 0 && IsString(data, arg, text)
    decreases |items|
  {
    hide IsString, Passing, AreHeld;
    var n := |items| - 1;
    var rest, item := items[..n], items[n];
    assert items == rest + [item];
    PassingNext(stk, hea, rest, item);
    var before := Passing(stk - 4, hea + Size(item), rest);
    if before.Passed? {
      HeldParts(data, before.blocks, BlocksFor(item, hea));
    }
    if i < n {
      ArgumentIs(stk - 4, hea + Size(item), rest, data, i);
    } else if item.Text? {
      LoneHeld(data, Block(hea, item.text));
    }
  }

  lemma HeldParts(data: seq<Byte>, blocks: seq<Block>, more: seq<Block>)
    requires AreHeld(data, blocks + more)
    ensures AreHeld(data, blocks) && AreHeld(data, more)
  {
    hide IsString;
    var all := blocks + more;
    assert forall i :: 0 <= i < |blocks| ==> all[i] == blocks[i];
    assert forall i :: 0 <= i < |more| ==> all[|blocks| + i] == more[i];
  }

  lemma LoneHeld(data: seq<Byte>, block: Block)
    requires AreHeld(data, [block])
    ensures block.at >= 0 && IsString(data, block.at, block.text)
  {
    hide IsString;
    assert [block][0] == block;
  }

  // ----- What is read -----

  /** The address of a cell of the script. */
  predicate IsAddressable(data: seq<Byte>, stp: int, a: int) {
    0 <= a < stp && a + 4 <= |data|
  }

  /** The argument that `kind` and the address `a` stand for; a string ends at its first zero byte. */
  ghost function ItemAt(data: seq<Byte>, stp: int, kind: char, a: int): Item {
    if kind == 's' then Text(if IsAddressable(data, stp, a) then UpToZero(TextAt(data, a)) else [])
    else Cell(if IsAddressable(data, stp, a) then Load(data, a) else 0)
  }

  ghost function Items(data: seq<Byte>, stp: int, fmt: string, addrs: seq<int>): (items: seq<Item>)
    requires |addrs| == |fmt|
    ensures |items| == |fmt|
    ensures forall i :: 0 <= i < |fmt| ==> items[i] == ItemAt(data, stp, fmt[i], addrs[i])
  {
    seq(|fmt|, i requires 0 <= i < |fmt| => ItemAt(data, stp, fmt[i], addrs[i]))
  }

  /** What is read at `a` does not reach into the gap between heap and stack. */
  ghost predicate IsSettled(data: seq<Byte>, stk: int, hea: int, stp: int, kind: char, a: int) {
    || !IsAddressable(data, stp, a)
    || stk <= a
    || a + 4 * (if kind == 's' then |TextAt(data, a)| + 1 else 1) <= hea
  }

  ghost predicate AreSettled(data: seq<Byte>, stk: int, hea: int, stp: int, fmt: string, addrs: seq<int>)
    requires |addrs| == |fmt|
  {
    forall i :: 0 <= i < |fmt| ==> IsSettled(data, stk, hea, stp, fmt[i], addrs[i])
  }

  /** Writes to the gap do not change what is read outside of it. */
  lemma {:induction false} TextSame(before: seq<Byte>, after: seq<Byte>, lo: int, hi: int, a: nat)
    requires SameBut(before, after, lo, hi) && (hi <= a || a + 4 * |TextAt(before, a)| + 4 <= lo)
    ensures TextAt(after, a) == TextAt(before, a)
    decreases |before| - a
  {
    hide Load, SameBut;
    SameSize(before, after, lo, hi);
    if a + 4 <= |before| {
      LoadSame(before, after, lo, hi, a);
      if Load(before, a) != 0 {
        TextSame(before, after, lo, hi, a + 4);
      }
    }
  }

  lemma SameSize(before: seq<Byte>, after: seq<Byte>, lo: int, hi: int)
    requires SameBut(before, after, lo, hi)
    ensures |after| == |before|
  {}

  lemma ItemSame(before: seq<Byte>, after: seq<Byte>, lo: int, hi: int, stp: int, kind: char, a: int)
    requires SameBut(before, after, lo, hi) && IsSettled(before, hi, lo, stp, kind, a)
    ensures ItemAt(after, stp, kind, a) == ItemAt(before, stp, kind, a)
  {
    hide Load, SameBut, TextAt, UpToZero;
    SameSize(before, after, lo, hi);
    if IsAddressable(before, stp, a) {
      if kind == 's' {
        TextSame(before, after, lo, hi, a);
      } else {
        LoadSame(before, after, lo, hi, a);
      }
    }
  }

  // ----- What stays -----

  /** The strings stand in memory below the end of the heap. */
  ghost predicate AreBelow(data: seq<Byte>, blocks: seq<Block>, hea: int) {
    AreHeld(data, blocks) && forall i :: 0 <= i < |blocks| ==> blocks[i].at + 4 * |blocks[i].text| + 4 <= hea
  }

  lemma StringSame(before: seq<Byte>, after: seq<Byte>, lo: int, hi: int, a: nat, s: seq<Byte>)
    requires SameBut(before, after, lo, hi) && IsString(before, a, s) && a + 4 * |s| + 4 <= lo
    ensures IsString(after, a, s)
  {
    hide Load;
    forall j | 0 <= j <= |s|
      ensures Load(after, a + 4 * j) == Load(before, a + 4 * j)
    {
      LoadSame(before, after, lo, hi, a + 4 * j);
    }
  }

  lemma BlocksStay(before: seq<Byte>, after: seq<Byte>, blocks: seq<Block>, lo: int, hi: int)
    requires SameBut(before, after, lo, hi) && AreBelow(before, blocks, lo)
    ensures AreBelow(after, blocks, lo)
  {
    hide IsString, SameBut;
    forall i | 0 <= i < |blocks|
      ensures IsString(after, blocks[i].at, blocks[i].text)
    {
      StringSame(before, after, lo, hi, blocks[i].at, blocks[i].text);
    }
  }

  lemma OneMoreBlock(data: seq<Byte>, blocks: seq<Block>, lo: int, a: nat, s: seq<Byte>)
    requires AreBelow(data, blocks, lo) && IsString(data, a, s) && a + 4 * |s| + 4 >= lo
    ensures AreBelow(data, [Block(a, s)] + blocks, a + 4 * |s| + 4)
  {
    hide IsString;
  }
}
