/** What a host does to a script between runs: arguments, heap blocks, strings. */
module AmxHost {
  import opened AmxConstants
  import opened AmxMemory
  import opened Words
  import opened Wrappers

  /** What a host sees of the AMX structure, with the data block. */
  datatype Structure = Structure(stk: int, hea: int, resetStk: int, resetHea: int, paramcount: int, data: seq<Byte>)

  /**
    How a call of the interpreter came to its end: refused before anything ran, with the run
    ended by a halt or an abort, asleep, or left by an early return in the middle.
    */
  datatype Fate = Refused | Ended | Slept | Left

  /**
    A call of the interpreter, with the arguments that waited on the stack, the memory it found, and
    the result it stored, if it did.
    */
  datatype Event = Called(index: int, args: seq<int>, memory: seq<Byte>, fate: Fate, ret: Option<int>)

  /** The main function, a public function, or the function that sleeps. */
  predicate IsIndex(index: int, publics: nat) {
    index == EXEC_MAIN || index == EXEC_CONT || 0 <= index < publics
  }

  /** Where ABORT puts the stack and the heap: a continued run takes that from the structure. */
  function ResetStk(index: int, s: Structure): int {
    if index == EXEC_CONT then s.resetStk else s.stk + 4 * s.paramcount
  }

  function ResetHea(index: int, s: Structure): int {
    if index == EXEC_CONT then s.resetHea else s.hea
  }

  /**
    What `amx_Exec` promises its host about the structure. A refused call leaves it alone, except
    that one refused for the stack margin has already pushed and counted off the parameters; a run
    that ended has the stack and heap reset; a run that sleeps holds what to reset them to.
    */
  predicate Obeys(index: int, publics: nat, before: Structure, after: Structure, err: int, fate: Fate) {
    && |after.data| == |before.data|
    && (fate.Refused? || IsIndex(index, publics))
    && (!fate.Refused? && (index != EXEC_CONT || before.paramcount == 0) ==> after.paramcount == 0)
    && match fate
       case Refused =>
         && err != ERR_NONE
         && (after == before || (
              && index != EXEC_CONT && IsIndex(index, publics)
              && after == before.(paramcount := 0, data := after.data)
              && SameBut(before.data, after.data, before.stk - 8, before.stk)))
       case Ended => err != ERR_SLEEP && after.stk == ResetStk(index, before) && after.hea == ResetHea(index, before)
       case Slept =>
         && err == ERR_SLEEP
         && after.resetStk == ResetStk(index, before) && after.resetHea == ResetHea(index, before)
       case Left => err != ERR_NONE && err != ERR_SLEEP
  }

  /** The `n` cells from `a` on. */
  function Cells(data: seq<Byte>, a: int, n: nat): (s: seq<int>)
    requires n == 0 || (0 <= a && a + 4 * n <= |data|)
    ensures |s| == n
    decreases n
  {
    if n == 0 then [] else [Load(data, a)] + Cells(data, a + 4, n - 1)
  }

  lemma CellsFrom(data: seq<Byte>, a: int, n: nat)
    requires 0 <= a && a + 4 * n + 4 <= |data|
    ensures Cells(data, a, n + 1) == [Load(data, a)] + Cells(data, a + 4, n)
  {}

  lemma {:induction false} SameCells(data: seq<Byte>, other: seq<Byte>, a: int, n: nat)
    requires 0 <= a && a + 4 * n <= |data| && |other| == |data|
    requires data[a..a + 4 * n] == other[a..a + 4 * n]
    ensures Cells(data, a, n) == Cells(other, a, n)
    decreases n
  {
    if n > 0 {
      hide Wrap;
      assert forall i :: a <= i < a + 4 * n ==> data[i] == data[a..a + 4 * n][i - a] == other[i];
      assert data[a + 4..a + 4 + 4 * (n - 1)] == other[a + 4..a + 4 + 4 * (n - 1)];
      SameCells(data, other, a + 4, n - 1);
    }
  }

  lemma {:induction false} CellAt(data: seq<Byte>, a: int, n: nat, i: nat)
    requires 0 <= a && a + 4 * n <= |data| && i < n
    ensures Cells(data, a, n)[i] == Load(data, a + 4 * i)
    decreases n
  {
    hide Load;
    if i > 0 {
      CellAt(data, a + 4, n - 1, i - 1);
    }
  }

  /** How many of `n` arguments fit above the margin. */
  function Fitting(stk: int, hea: int, n: nat): (k: nat)
    ensures k <= n
    ensures k == n <==> n == 0 || hea + STKMARGIN <= stk - 4 * (n - 1)
    decreases n
  {
    if n == 0 || hea + STKMARGIN > stk then 0 else 1 + Fitting(stk - 4, hea, n - 1)
  }

  /** The arguments that arrive: the last of them, as many as fit. */
  function Arriving(args: seq<int>, stk: int, hea: int): seq<int> {
    args[|args| - Fitting(stk, hea, |args|)..]
  }

  /** The test of `amx_Allot`, in the unsigned arithmetic it is made in. */
  predicate AllotRefuses(stk: int, hea: int, cells: int) {
    (stk - hea - 4 * cells) % CELL < STKMARGIN
  }

  /**
    The test keeps the margin between heap and stack exactly for the blocks that are not larger
    than the whole gap: for those it grants what leaves the margin, any larger one it grants too.
    */
  lemma AllotTestIsExact(stk: int, hea: int, cells: nat)
    requires 0 <= hea <= stk < 0x8000_0000 && 4 * cells < 0x8000_0000
    ensures
      (AllotRefuses(stk, hea, cells) <==> stk - hea - 4 * cells < STKMARGIN) <==> 4 * cells <= stk - hea
    ensures AllotRefuses(stk, hea, cells) <==> 0 <= stk - hea - 4 * cells < STKMARGIN
  {
    var room := stk - hea - 4 * cells;
    assert room < 0 ==> room % CELL == room + CELL;
  }

  lemma OneMoreFits(stk: int, hea: int, n: nat)
    requires n > 0 && hea + STKMARGIN <= stk
    ensures Fitting(stk, hea, n) == 1 + Fitting(stk - 4, hea, n - 1)
  {}

  lemma NoMoreFit(stk: int, hea: int, n: nat)
    requires hea + STKMARGIN > stk
    ensures Fitting(stk, hea, n) == 0
  {}

  /** Nothing at or above `a` differs. */
  ghost predicate SameFrom(a: int, before: seq<Byte>, after: seq<Byte>) {
    |after| == |before| && forall i :: 0 <= i < |after| && i >= a ==> after[i] == before[i]
  }

  lemma PushedAbove(a: int, before: seq<Byte>, data: seq<Byte>, at: int, v: int)
    requires SameFrom(a, before, data) && InData(data, at) && at + 4 <= a
    ensures SameFrom(a, before, Store(data, at, v))
  {}

  /** Only bytes from `lo` to `hi` differ. */
  predicate SameBut(before: seq<Byte>, after: seq<Byte>, lo: int, hi: int) {
    |after| == |before| && forall i :: 0 <= i < |after| && !(lo <= i < hi) ==> after[i] == before[i]
  }

  lemma SameButItself(data: seq<Byte>, lo: int, hi: int)
    ensures SameBut(data, data, lo, hi)
  {}

  lemma StoredBetween(before: seq<Byte>, data: seq<Byte>, lo: int, hi: int, at: int, v: int)
    requires SameBut(before, data, lo, hi) && InData(data, at) && lo <= at && at + 4 <= hi
    ensures SameBut(before, Store(data, at, v), lo, hi)
  {}

  lemma SameButBoth(a: seq<Byte>, b: seq<Byte>, c: seq<Byte>, lo: int, hi: int, from: int, to: int)
    requires SameBut(a, b, lo, hi) && SameBut(b, c, from, to) && lo <= from && to <= hi
    ensures SameBut(a, c, lo, hi)
  {}

  /** A cell outside the bytes that differ is the same. */
  lemma LoadSame(before: seq<Byte>, after: seq<Byte>, lo: int, hi: int, a: int)
    requires SameBut(before, after, lo, hi) && InData(before, a) && (a + 4 <= lo || hi <= a)
    ensures Load(after, a) == Load(before, a)
  {}

  /** The cells above the bytes that differ are the same. */
  lemma CellsAbove(before: seq<Byte>, after: seq<Byte>, lo: int, hi: int, a: int, n: nat)
    requires SameBut(before, after, lo, hi) && hi <= a && (n == 0 || (0 <= a && a + 4 * n <= |before|))
    ensures Cells(after, a, n) == Cells(before, a, n)
  {
    if n > 0 {
      SameCells(before, after, a, n);
    }
  }

  /** The characters of `s`, one a cell. */
  ghost predicate HasChars(data: seq<Byte>, a: nat, s: seq<Byte>) {
    a + 4 * |s| <= |data| && forall i :: 0 <= i < |s| ==> Load(data, a + 4 * i) == s[i] as int
  }

  /** The same with a zero cell behind. */
  ghost predicate IsString(data: seq<Byte>, a: nat, s: seq<Byte>) {
    HasChars(data, a, s) && InData(data, a + 4 * |s|) && Load(data, a + 4 * |s|) == 0
  }

  lemma NoChars(data: seq<Byte>, a: nat)
    requires a <= |data|
    ensures HasChars(data, a, [])
  {}

  lemma NextChar(data: seq<Byte>, a: nat, s: seq<Byte>, i: nat, v: int)
    requires i < |s| && HasChars(data, a, s[..i]) && InData(data, a + 4 * i) && v == s[i] as int
    ensures HasChars(Store(data, a + 4 * i, v), a, s[..i + 1])
  {
    hide Load;
    LoadStored(data, a + 4 * i, v);
    forall j | 0 <= j < i
      ensures Load(Store(data, a + 4 * i, v), a + 4 * j) == s[j] as int
    {
      assert s[..i][j] == s[j];
      LoadElsewhere(data, a + 4 * i, BytesOf(v), a + 4 * j);
    }
  }

  lemma LastChar(data: seq<Byte>, a: nat, s: seq<Byte>)
    requires HasChars(data, a, s) && InData(data, a + 4 * |s|)
    ensures IsString(Store(data, a + 4 * |s|, 0), a, s)
  {
    hide Load;
    LoadStored(data, a + 4 * |s|, 0);
    forall j | 0 <= j < |s|
      ensures Load(Store(data, a + 4 * |s|, 0), a + 4 * j) == s[j] as int
    {
      LoadElsewhere(data, a + 4 * |s|, BytesOf(0), a + 4 * j);
    }
  }

  /** A push above a string leaves it alone. */
  lemma StringBelow(data: seq<Byte>, at: int, v: int, a: nat, s: seq<Byte>)
    requires IsString(data, a, s) && InData(data, at) && a + 4 * |s| + 4 <= at
    ensures IsString(Store(data, at, v), a, s)
  {
    hide Load;
    forall j | 0 <= j <= |s|
      ensures Load(Store(data, at, v), a + 4 * j) == Load(data, a + 4 * j)
    {
      LoadElsewhere(data, at, BytesOf(v), a + 4 * j);
    }
  }

  /** The low bytes of the cells from `a` up to the zero cell, or to the end of the data. */
  ghost function TextAt(data: seq<Byte>, a: nat): (s: seq<Byte>)
    ensures s == [] || a + 4 * |s| <= |data|
    decreases |data| - a
  {
    if a + 4 > |data| || Load(data, a) == 0 then [] else [Load(data, a) % 0x100] + TextAt(data, a + 4)
  }

  lemma NextOfText(data: seq<Byte>, a: nat, s: seq<Byte>)
    requires a + 4 <= |data| && Load(data, a) != 0
    ensures s + TextAt(data, a) == (s + [Load(data, a) % 0x100]) + TextAt(data, a + 4)
  {
    hide Load;
  }

  lemma EndOfText(data: seq<Byte>, a: nat, s: seq<Byte>)
    requires a + 4 > |data| || Load(data, a) == 0
    ensures s + TextAt(data, a) == s
  {
    hide Load;
  }

  /** The C string at the start of `s`. */
  function UpToZero(s: seq<Byte>): (t: seq<Byte>)
    ensures t <= s && 0 !in t && (|t| < |s| ==> s[|t|] == 0)
  {
    if s == [] || s[0] == 0 then [] else [s[0]] + UpToZero(s[1..])
  }

  class Script {
    const publics: seq<string>
    const stp: int
    var stk: int
    var hea: int
    var resetStk: int
    var resetHea: int
    var paramcount: nat
    var data: seq<Byte>
    ghost var trace: seq<Event>

    predicate Valid()
      reads this
    {
      0 <= hea && 0 <= resetHea && stk <= |data| <= CELLMAX && resetStk <= |data|
    }

    function Image(): Structure
      reads this
    {
      Structure(stk, hea, resetStk, resetHea, paramcount, data)
    }

    /** The parameters that wait on the stack are in memory. */
    predicate HasPending()
      reads this
    {
      stk + 4 * paramcount <= |data| && (paramcount > 0 ==> 0 <= stk)
    }

    /** `amx_Push` */
    method Push(value: int) returns (err: int)
      requires Valid()
      modifies this`stk, this`paramcount, this`data
      ensures Valid() && |data| == |old(data)|
      ensures err == if hea + STKMARGIN > old(stk) then ERR_STACKERR else ERR_NONE
      ensures err != ERR_NONE ==> stk == old(stk) && paramcount == old(paramcount) && data == old(data)
      ensures err == ERR_NONE ==> stk == old(stk) - 4 && 0 <= stk && paramcount == old(paramcount) + 1
      ensures err == ERR_NONE ==> data == Store(old(data), stk, value)
    {
      if hea + STKMARGIN > stk {
        return ERR_STACKERR;
      }
      stk := stk - 4;
      paramcount := paramcount + 1;
      data := Store(data, stk, value);
      err := ERR_NONE;
    }

    /** `amx_Allot` */
    method Allot(cells: nat) returns (err: int, address: int)
      modifies this`hea
      ensures err == if AllotRefuses(stk, old(hea), cells) then ERR_MEMORY else ERR_NONE
      ensures err == ERR_NONE ==> address == old(hea) && hea == old(hea) + 4 * cells
      ensures err != ERR_NONE ==> hea == old(hea)
    {
      if (stk - hea - 4 * cells) % CELL < STKMARGIN {
        return ERR_MEMORY, -1;
      }
      address := hea;
      hea := hea + 4 * cells;
      err := ERR_NONE;
    }

    /** `amx_Release` */
    method Release(address: int)
      modifies this`hea
      ensures hea == if old(hea) > address then address else old(hea)
    {
      if hea > address {
        hea := address;
      }
    }

    /** `amx_GetAddr` refuses the gap between heap and stack and what is not below `stp`. */
    predicate HasAddress(address: int)
      reads this
    {
      !(hea <= address < stk) && 0 <= address < stp && address + 4 <= |data|
    }

    /** A cell of the script, zero if it has no address. */
    method ReadCell(address: int) returns (v: int)
      ensures v == if !(hea <= address < stk) && 0 <= address < stp && address + 4 <= |data|
        then Load(data, address) else 0
    {
      v := if HasAddress(address) then Load(data, address) else 0;
    }

    /** `amx_read_str`: the low bytes of the cells up to the zero cell, or the end of the data. */
    method ReadString(address: int) returns (s: seq<Byte>)
      ensures s == if !(hea <= address < stk) && 0 <= address < stp && address + 4 <= |data|
        then TextAt(data, address) else []
    {
      hide Load, TextAt;
      s := [];
      if !HasAddress(address) {
        return;
      }
      var i := 0;
      assert TextAt(data, address) == [] + TextAt(data, address);
      while address + 4 * i + 4 <= |data| && Load(data, address + 4 * i) != 0
        invariant i == |s| && address + 4 * i <= |data|
        invariant TextAt(data, address) == s + TextAt(data, address + 4 * i)
      {
        NextOfText(data, address + 4 * i, s);
        s := s + [Load(data, address + 4 * i) % 0x100];
        i := i + 1;
      }
      EndOfText(data, address + 4 * i, s);
    }

    /**
      `amx_PushString`, unpacked: the characters and a zero cell on the heap, and their address on
      the stack. The request fits the gap, so that the test of `amx_Allot` is right.
      */
    method PushString(s: seq<Byte>) returns (err: int, address: int)
      requires Valid() && 4 * (|s| + 1) <= stk - hea
      modifies this`stk, this`hea, this`paramcount, this`data
      ensures Valid() && |data| == |old(data)|
      ensures address == -1 <==> old(stk) - old(hea) - 4 * (|s| + 1) < STKMARGIN
      ensures address == -1 ==> data == old(data) && stk == old(stk) && hea == old(hea) && paramcount == old(paramcount)
      ensures address != -1 ==>
        && address == old(hea) && hea == old(hea) + 4 * (|s| + 1)
        && stk == old(stk) - 4 && paramcount == old(paramcount) + 1 && 0 <= stk
        && Load(data, stk) == address && IsString(data, address, s)
      ensures SameBut(old(data), data, old(hea), old(stk))
    {
      AllotTestIsExact(stk, hea, |s| + 1);
      hide Load, Store, IsString, AllotRefuses, SameBut;
      SameButItself(data, hea, stk);
      err, address := Allot(|s| + 1);
      if err != ERR_NONE {
        return err, -1;
      }
      WriteString(address, s);
      ghost var before := data;
      SameButBoth(old(data), old(data), data, old(hea), stk, address, address + 4 * |s| + 4);
      err := Push(address);
      StoredBetween(old(data), before, old(hea), old(stk), stk, address);
      LoadStored(before, stk, address);
      StringBelow(before, stk, address, address, s);
    }

    /** `amx_SetStringLen`, unpacked. */
    method WriteString(address: nat, s: seq<Byte>)
      requires address + 4 * |s| + 4 <= |data|
      modifies this`data
      ensures |data| == |old(data)| && IsString(data, address, s)
      ensures SameBut(old(data), data, address, address + 4 * |s| + 4)
    {
      hide Load, Store, SameBut, HasChars, IsString;
      SameButItself(data, address, address + 4 * |s| + 4);
      NoChars(data, address);
      assert s[..0] == [];
      var i := 0;
      while i < |s|
        invariant i <= |s| && |data| == |old(data)|
        invariant HasChars(data, address, s[..i])
        invariant SameBut(old(data), data, address, address + 4 * |s| + 4)
      {
        StoredBetween(old(data), data, address, address + 4 * |s| + 4, address + 4 * i, s[i] as int);
        NextChar(data, address, s, i, s[i] as int);
        data := Store(data, address + 4 * i, s[i] as int);
        i := i + 1;
      }
      assert s[..|s|] == s;
      LastChar(data, address, s);
      StoredBetween(old(data), data, address, address + 4 * |s| + 4, address + 4 * |s|, 0);
      data := Store(data, address + 4 * |s|, 0);
    }

    /** The arguments that wait on the stack. */
    method Arguments() returns (args: seq<int>)
      requires Valid() && (paramcount > 0 ==> 0 <= stk && stk + 4 * paramcount <= |data|)
      ensures args == Cells(data, stk, paramcount)
      ensures forall i :: 0 <= i < |args| ==> IsCell(args[i])
    {
      hide Load, Cells;
      args := [];
      var i := 0;
      while i < paramcount
        invariant i == |args| <= paramcount
        invariant forall j :: 0 <= j < i ==> args[j] == Load(data, stk + 4 * j)
      {
        args := args + [Load(data, stk + 4 * i)];
        i := i + 1;
      }
      forall j | 0 <= j < |args|
        ensures args[j] == Cells(data, stk, paramcount)[j]
      {
        CellAt(data, stk, paramcount, j);
      }
    }

    /** From `top` down, the last `k` of the arguments are on the stack and `i` are still to come. */
    ghost predicate ArePushed(args: seq<int>, i: nat, k: nat, top: int, start: seq<Byte>)
      reads this
    {
      && Valid() && |data| == |start| && k + i <= |args|
      && stk == top - 4 * k && top <= |data| && (k > 0 ==> 0 <= stk)
      && (i + k == |args| || hea + STKMARGIN > stk)
      && Cells(data, stk, k) == args[|args| - k..]
      && Fitting(top, hea, |args|) == k + Fitting(stk, hea, i)
      && SameFrom(top, start, data)
    }

    /** One round of the loop below. */
    method PushNext(args: seq<int>, i: nat, ghost k: nat, ghost top: int, ghost start: seq<Byte>)
      returns (ghost next: nat)
      requires i < |args| && IsCell(args[i]) && ArePushed(args, i + 1, k, top, start)
      modifies this`stk, this`paramcount, this`data
      ensures ArePushed(args, i, next, top, start)
      ensures paramcount - next == old(paramcount) - k
    {
      hide Cells, Store, SameFrom, Fitting, IsCell, Load, Overwrite;
      ghost var before := data;
      var err := Push(args[i]);
      if err == ERR_NONE {
        PushedCells(before, stk, args[i], k);
        PushedAbove(top, start, before, stk, args[i]);
        assert [args[i]] + args[i + 1..] == args[i..];
        OneMoreFits(stk + 4, hea, i + 1);
        next := k + 1;
      } else {
        NoMoreFit(stk, hea, i);
        NoMoreFit(stk, hea, i + 1);
        next := k;
      }
    }

    /**
      The host's loop that pushes arguments from the last to the first, and does not look at the
      error codes. The first ones are missing when the margin is reached.
      */
    method PushArguments(args: seq<int>)
      requires Valid() && forall i :: 0 <= i < |args| ==> IsCell(args[i])
      modifies this`stk, this`paramcount, this`data
      ensures Valid() && |data| == |old(data)|
      ensures
        var k := Fitting(old(stk), hea, |args|);
        && stk == old(stk) - 4 * k && paramcount == old(paramcount) + k
        && (k > 0 ==> 0 <= stk) && Cells(data, stk, k) == Arriving(args, old(stk), hea)
      ensures SameFrom(old(stk), old(data), data)
    {
      hide IsCell;
      var i := |args|;
      ghost var k := 0;
      assert args[|args|..] == [];
      while i > 0
        invariant 0 <= i <= |args| && ArePushed(args, i, k, old(stk), old(data))
        invariant paramcount == old(paramcount) + k
      {
        i := i - 1;
        k := PushNext(args, i, k, old(stk), old(data));
      }
    }
  }

  lemma PushedCells(data: seq<Byte>, at: int, v: int, k: nat)
    requires InData(data, at) && IsCell(v) && at + 4 + 4 * k <= |data|
    ensures Cells(Store(data, at, v), at, k + 1) == [v] + Cells(data, at + 4, k)
  {
    hide Load;
    LoadStored(data, at, v);
    var d := Store(data, at, v);
    assert forall j :: at + 4 <= j < |data| ==> d[j] == data[j];
    assert d[at + 4..at + 4 + 4 * k] == data[at + 4..at + 4 + 4 * k];
    SameCells(data, d, at + 4, k);
  }
}
