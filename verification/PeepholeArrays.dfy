/** Rewrite rules for elements of arrays. */
module PeepholeArrays {
  import opened AmxAlu
  import opened AmxConstants
  import opened AmxMachine
  import opened AmxMemory
  import opened AmxOpcodes
  import opened Peephole
  import opened PeepholeSums
  import opened Wrappers

  // ----- Arrays -----

  const LOAD_I := Line(9, [])
  const LIDX := Line(25, [])
  const IDXADDR := Line(27, [])

  function Shift(n: int): Line { Line(68, [n]) }

  function Bounds(c: int): Line { Line(121, [c]) }

  function Lidx(n: int): Line { Line(26, [n]) }

  function Idxaddr(n: int): Line { Line(28, [n]) }

  /** The place of element `m.pri` of an array at `m.alt`, with elements of 2 to the power of `n` bytes. */
  function Element(pri: int, alt: int, n: nat): int {
    Wrap(ShiftLeft(pri, n) + alt)
  }

  lemma CellElement(pri: int, alt: int)
    ensures Element(pri, alt, 2) == Wrap(pri * 4 + alt)
  {
    assert Pow2(2) == 4;
    WrapWrap(pri * 4, alt);
  }

  /** The scaled index and the base that comes off the stack. */
  lemma ScaleAdd(env: Env, m: Machine, n: nat)
    requires IsCount(n)
    ensures After(env, m, [Shift(n), POP_ALT, ADD]) ==
      if !InData(m.data, m.stk) then Outside
      else
        var u := Load(m.data, m.stk);
        Goes(m.(pri := Element(m.pri, u, n), alt := u, stk := m.stk + 4, cip := m.cip + 16))
  {
    hide One, Load, Wrap, ShiftLeft;
    Shifts(env, m, n);
    First(env, m, Shift(n), [POP_ALT, ADD]);
    var k := m.(pri := ShiftLeft(m.pri, n), cip := m.cip + 8);
    PushesAndPops(env, k);
    First(env, k, POP_ALT, [ADD]);
    if InData(m.data, m.stk) {
      var q := k.(alt := Load(m.data, m.stk), stk := m.stk + 4, cip := k.cip + 4);
      Sums(env, q);
      Last(env, q, ADD);
    }
  }

  lemma Shifts(env: Env, m: Machine, n: nat)
    requires IsCount(n)
    ensures One(env, m, Shift(n)) == Goes(m.(pri := ShiftLeft(m.pri, n), cip := m.cip + 8))
  {
    hide Execute, Pow2;
    ShiftExecutes(env, m, 68, [n], m.cip + 8);
  }

  lemma Indexes(env: Env, m: Machine, n: nat)
    requires IsCount(n)
    ensures
      var at := Element(m.pri, m.alt, n);
      && One(env, m, Idxaddr(n)) == Goes(m.(pri := at, cip := m.cip + 8))
      && (n == 2 ==> One(env, m, IDXADDR) == Goes(m.(pri := at, cip := m.cip + 4)))
      && (IsOpen(env, m, at) && InData(m.data, at) ==>
           && One(env, m, Lidx(n)) == Goes(m.(pri := Load(m.data, at), cip := m.cip + 8))
           && (n == 2 ==> One(env, m, LIDX) == Goes(m.(pri := Load(m.data, at), cip := m.cip + 4))))
      && (!IsOpen(env, m, at) ==>
           && One(env, m, Lidx(n)) == Ends(ERR_MEMACCESS, None, m)
           && (n == 2 ==> One(env, m, LIDX) == Ends(ERR_MEMACCESS, None, m)))
  {
    hide Execute, Load, Wrap, ShiftLeft, IsOpen;
    ScaledExecutes(env, m, n, m.cip + 8);
    LidxExecutes(env, m, m.cip + 4);
    if n == 2 {
      CellElement(m.pri, m.alt);
    }
  }

  /** LOAD.I on an address that is open, refused, or outside. */
  lemma LoadsIndirect(env: Env, m: Machine)
    ensures One(env, m, LOAD_I) ==
      if !IsOpen(env, m, m.pri) then Ends(ERR_MEMACCESS, None, m)
      else if InData(m.data, m.pri) then Goes(m.(pri := Load(m.data, m.pri), cip := m.cip + 4)) else Outside
  {
    hide Execute, Load;
    IndirectExecutes(env, m, m.cip + 4);
    IndirectOutside(env, m, m.cip + 4);
  }

  lemma IndirectOutside(env: Env, m: Machine, next: int)
    ensures IsOpen(env, m, m.pri) && !InData(m.data, m.pri) ==> Execute(env, m, 9, [], next) == Outside
  {
    hide Execute, Wrap, CellEffect, Block, Arithmetic, Control, Load;
    PlainExecutes(env, m, 9, [], next);
  }

  /** An index that is computed on the stack, and one with its own instruction; the scale may be that of a cell. */
  lemma ScaleAddIsIndex(env: Env, m: Machine, n: nat)
    requires IsCount(n)
    ensures
      var o := After(env, m, [Shift(n), POP_ALT, ADD]);
      && Means(o, After(env, m, [POP_ALT, Idxaddr(n)]), Both, m.stk + 4, 0)
      && (n == 2 ==> Means(o, After(env, m, [POP_ALT, IDXADDR]), Both, m.stk + 4, 0))
  {
    hide One, Load, Wrap, ShiftLeft;
    ScaleAdd(env, m, n);
    PushesAndPops(env, m);
    First(env, m, POP_ALT, [Idxaddr(n)]);
    First(env, m, POP_ALT, [IDXADDR]);
    if InData(m.data, m.stk) {
      var k := m.(alt := Load(m.data, m.stk), stk := m.stk + 4, cip := m.cip + 4);
      Indexes(env, k, n);
      Last(env, k, Idxaddr(n));
      Last(env, k, IDXADDR);
    }
  }

  /** The check of the index, if there is one. */
  function CheckOf(bounds: Option<int>): seq<Line> {
    if bounds.Some? then [Bounds(bounds.value)] else []
  }

  predicate IsRefused(bounds: Option<int>, pri: int) {
    bounds.Some? && Unsigned(pri) > Unsigned(bounds.value)
  }

  lemma Checks(env: Env, m: Machine, bounds: Option<int>)
    ensures After(env, m, CheckOf(bounds)) ==
      if IsRefused(bounds, m.pri) then Ends(ERR_BOUNDS, None, m)
      else Goes(m.(cip := m.cip + if bounds.Some? then 8 else 0))
  {
    if bounds.Some? {
      hide Execute, Apply, MoveEffect, Block, ToPri, ToAlt, ToCell, AddToCell, Arithmetic, Unsigned;
      PlainExecutes(env, m, 121, [bounds.value], m.cip + 8);
      RegistersApplied(m, m.pri, m.alt, m.cip + 8);
      NothingApplied(m, ERR_BOUNDS, m.cip + 8);
      Last(env, m, Bounds(bounds.value));
    }
  }

  /** The base of the array and the index, through the stack. */
  lemma PushedIndex(env: Env, m: Machine, s: Source, a: int, b: int, bounds: Option<int>, n: nat)
    requires IsCount(n) && IsSound(m, s, a) && IsSound(m, Local, b)
    ensures
      var u, v := ValueOf(m, s, a), ValueOf(m, Local, b);
      var o := After(env, m, [ToPriOf(s, a), PUSH_PRI, ToPriOf(Local, b)] + CheckOf(bounds) + [Shift(n), POP_ALT, ADD]);
      if u.None? || v.None? || !InData(m.data, m.stk - 4) then o == Outside
      else
        var data := Store(m.data, m.stk - 4, u.value);
        var k := m.(pri := v.value, stk := m.stk - 4, data := data, cip := m.cip + 20);
        if IsRefused(bounds, v.value) then o == Ends(ERR_BOUNDS, None, k)
        else o == Goes(m.(pri := Element(v.value, u.value, n), alt := u.value, data := data,
                          cip := m.cip + if bounds.Some? then 44 else 36))
  {
    hide After, One, ToPriOf, ValueOf, Load, Store, IsSound, Element, CheckOf, IsRefused;
    var head, tail := [ToPriOf(s, a), PUSH_PRI, ToPriOf(Local, b)], [Shift(n), POP_ALT, ADD];
    PushedBase(env, m, s, a, b);
    Append(env, m, head + CheckOf(bounds), tail);
    Append(env, m, head, CheckOf(bounds));
    var o := After(env, m, head);
    if o.Goes? {
      Checks(env, o.next, bounds);
      ValueIsCell(m, s, a);
      PushedMemory(m.data, m.stk - 4, ValueOf(m, s, a).value);
      if !IsRefused(bounds, o.next.pri) {
        var k := o.next.(cip := o.next.cip + if bounds.Some? then 8 else 0);
        ScaleAdd(env, k, n);
      }
    }
  }

  lemma PushedBase(env: Env, m: Machine, s: Source, a: int, b: int)
    requires IsSound(m, Local, b)
    ensures After(env, m, [ToPriOf(s, a), PUSH_PRI, ToPriOf(Local, b)]) ==
      var u, v := ValueOf(m, s, a), ValueOf(m, Local, b);
      if u.None? || v.None? || !InData(m.data, m.stk - 4) then Outside
      else Goes(m.(pri := v.value, stk := m.stk - 4, data := Store(m.data, m.stk - 4, u.value), cip := m.cip + 20))
  {
    hide One, ToPriOf, ValueOf, Load, Store, IsSound;
    Loads(env, m, s, a);
    First(env, m, ToPriOf(s, a), [PUSH_PRI, ToPriOf(Local, b)]);
    if ValueOf(m, s, a).Some? {
      var u := ValueOf(m, s, a).value;
      var n := m.(pri := u, cip := m.cip + 8);
      PushesAndPops(env, n);
      First(env, n, PUSH_PRI, [ToPriOf(Local, b)]);
      if InData(m.data, m.stk - 4) {
        ValueStays(m, n, Local, b);
        SoundStays(m, n, Local, b);
        ValueAfterPush(n, Local, b, u, n.cip + 4);
        var k := n.(stk := n.stk - 4, data := Store(n.data, n.stk - 4, u), cip := n.cip + 4);
        Loads(env, k, Local, b);
        Last(env, k, ToPriOf(Local, b));
      }
    }
  }

  /** The base and the index straight in their registers. */
  lemma LoadedIndex(env: Env, m: Machine, s: Source, a: int, b: int, bounds: Option<int>, last: Line)
    ensures
      var u, v := ValueOf(m, s, a), ValueOf(m, Local, b);
      var o := After(env, m, [ToAltOf(s, a), ToPriOf(Local, b)] + CheckOf(bounds) + [last]);
      u.Some? && v.Some? ==>
        var k := m.(pri := v.value, alt := u.value, cip := m.cip + 16);
        if IsRefused(bounds, v.value) then o == Ends(ERR_BOUNDS, None, k)
        else o == One(env, k.(cip := m.cip + if bounds.Some? then 24 else 16), last)
  {
    hide After, One, ToPriOf, ToAltOf, ValueOf, CheckOf, IsRefused;
    var head := [ToAltOf(s, a), ToPriOf(Local, b)];
    TwoLoads(env, m, s, a, Local, b);
    Append(env, m, head + CheckOf(bounds), [last]);
    Append(env, m, head, CheckOf(bounds));
    var u, v := ValueOf(m, s, a), ValueOf(m, Local, b);
    if u.Some? && v.Some? {
      var k := m.(pri := v.value, alt := u.value, cip := m.cip + 16);
      Checks(env, k, bounds);
      Last(env, k.(cip := m.cip + if bounds.Some? then 24 else 16), last);
    }
  }

  /** The address of an array element, for storing; with elements of a cell the shorter instruction will do. */
  lemma ElementAddress(env: Env, m: Machine, s: Source, a: int, b: int, bounds: Option<int>, n: nat)
    requires IsCount(n) && IsSound(m, s, a) && IsSound(m, Local, b)
    ensures
      var o := After(env, m, [ToPriOf(s, a), PUSH_PRI, ToPriOf(Local, b)] + CheckOf(bounds) + [Shift(n), POP_ALT, ADD]);
      var head := [ToAltOf(s, a), ToPriOf(Local, b)] + CheckOf(bounds);
      && Means(o, After(env, m, head + [Idxaddr(n)]), Both, m.stk, 4)
      && (n == 2 ==> Means(o, After(env, m, head + [IDXADDR]), Both, m.stk, 4))
  {
    hide After, One, ToPriOf, ToAltOf, ValueOf, Load, Store, IsSound, Element, CheckOf, IsRefused;
    PushedIndex(env, m, s, a, b, bounds, n);
    LoadedIndex(env, m, s, a, b, bounds, Idxaddr(n));
    LoadedIndex(env, m, s, a, b, bounds, IDXADDR);
    var u, v := ValueOf(m, s, a), ValueOf(m, Local, b);
    if u.Some? && v.Some? && InData(m.data, m.stk - 4) {
      PushedMemory(m.data, m.stk - 4, u.value);
      Indexes(env, m.(pri := v.value, alt := u.value, cip := m.cip + if bounds.Some? then 24 else 16), n);
    }
  }

  /** An array element; `hea` is at least two cells below the stack, as the margin demands. */
  lemma ElementLoad(env: Env, m: Machine, s: Source, a: int, b: int, bounds: Option<int>, n: nat)
    requires IsCount(n) && IsSound(m, s, a) && IsSound(m, Local, b) && m.hea + 8 <= m.stk
    ensures
      var o := After(env, m, [ToPriOf(s, a), PUSH_PRI, ToPriOf(Local, b)] + CheckOf(bounds)
                             + [Shift(n), POP_ALT, ADD] + [LOAD_I]);
      var head := [ToAltOf(s, a), ToPriOf(Local, b)] + CheckOf(bounds);
      && Means(o, After(env, m, head + [Lidx(n)]), Both, m.stk, 4)
      && (n == 2 ==> Means(o, After(env, m, head + [LIDX]), Both, m.stk, 4))
  {
    hide After, One, ToPriOf, ToAltOf, ValueOf, Load, Store, IsSound, Element, CheckOf, IsRefused;
    PushedIndex(env, m, s, a, b, bounds, n);
    LoadedIndex(env, m, s, a, b, bounds, Lidx(n));
    LoadedIndex(env, m, s, a, b, bounds, LIDX);
    var front := [ToPriOf(s, a), PUSH_PRI, ToPriOf(Local, b)] + CheckOf(bounds) + [Shift(n), POP_ALT, ADD];
    Append(env, m, front, [LOAD_I]);
    var u, v := ValueOf(m, s, a), ValueOf(m, Local, b);
    if u.Some? && v.Some? && InData(m.data, m.stk - 4) {
      PushedMemory(m.data, m.stk - 4, u.value);
      var q := m.(pri := v.value, alt := u.value, cip := m.cip + if bounds.Some? then 24 else 16);
      Indexes(env, q, n);
      var o := After(env, m, front);
      if o.Goes? {
        LoadsIndirect(env, o.next);
        Last(env, o.next, LOAD_I);
        ElementIsKept(env, m, u.value, o.next.pri);
      }
    }
  }

  /** An open address is not the cell that the push has left behind. */
  lemma ElementIsKept(env: Env, m: Machine, v: int, at: int)
    requires m.hea + 8 <= m.stk && InData(m.data, m.stk - 4)
    ensures IsOpen(env, m, at) && InData(m.data, at) ==>
      Load(Store(m.data, m.stk - 4, v), at) == Load(m.data, at)
  {
    hide Load, Store;
    if IsOpen(env, m, at) && InData(m.data, at) {
      LoadBeside(m.data, m.stk - 4, v, at);
    }
  }

  /** A base and a checked index without scaling, as packed arrays have it. */
  lemma CheckedIndex(env: Env, m: Machine, s: Source, a: int, b: int, bounds: Option<int>)
    requires IsSound(m, s, a) && IsSound(m, Local, b)
    ensures Means(
      After(env, m, [ToPriOf(s, a), PUSH_PRI, ToPriOf(Local, b)] + CheckOf(bounds) + [POP_ALT]),
      After(env, m, [ToAltOf(s, a), ToPriOf(Local, b)] + CheckOf(bounds)), Both, m.stk, 4)
  {
    hide After, One, ToPriOf, ToAltOf, ValueOf, Load, Store, IsSound, CheckOf, IsRefused;
    var head := [ToPriOf(s, a), PUSH_PRI, ToPriOf(Local, b)];
    PushedBase(env, m, s, a, b);
    TwoLoads(env, m, s, a, Local, b);
    Append(env, m, head + CheckOf(bounds), [POP_ALT]);
    Append(env, m, head, CheckOf(bounds));
    Append(env, m, [ToAltOf(s, a), ToPriOf(Local, b)], CheckOf(bounds));
    var u, v := ValueOf(m, s, a), ValueOf(m, Local, b);
    if u.Some? && v.Some? && InData(m.data, m.stk - 4) {
      ValueIsCell(m, s, a);
      PushedMemory(m.data, m.stk - 4, u.value);
      var n := After(env, m, head).next;
      Checks(env, n, bounds);
      Checks(env, m.(pri := v.value, alt := u.value, cip := m.cip + 16), bounds);
      var k := n.(cip := n.cip + if bounds.Some? then 8 else 0);
      PushesAndPops(env, k);
      Last(env, k, POP_ALT);
    }
  }

  /**
    Reading through PRI while PRI is kept on the stack. The push moves the stack, and with it the hole
    that LOAD.I refuses; where the address is open without the push, it is with it.
    */
  lemma PushLoadIndirectPop(env: Env, m: Machine)
    requires IsCell(m.pri) && m.hea + 8 <= m.stk && !(m.stk - 4 <= m.pri < m.stk)
    ensures Means(After(env, m, [PUSH_PRI, LOAD_I, POP_ALT]), After(env, m, [MOVE_ALT, LOAD_I]), Both, m.stk, 4)
  {
    hide One, Load, Store;
    PushesAndPops(env, m);
    Moves(env, m);
    First(env, m, PUSH_PRI, [LOAD_I, POP_ALT]);
    First(env, m, MOVE_ALT, [LOAD_I]);
    var q := m.(alt := m.pri, cip := m.cip + 4);
    LoadsIndirect(env, q);
    Last(env, q, LOAD_I);
    if InData(m.data, m.stk - 4) {
      var n := m.(stk := m.stk - 4, data := Store(m.data, m.stk - 4, m.pri), cip := m.cip + 4);
      LoadsIndirect(env, n);
      First(env, n, LOAD_I, [POP_ALT]);
      PushedMemory(m.data, m.stk - 4, m.pri);
      ElementIsKept(env, m, m.pri, m.pri);
      if One(env, n, LOAD_I).Goes? {
        var k := n.(pri := Load(n.data, n.pri), cip := n.cip + 4);
        PushesAndPops(env, k);
        Last(env, k, POP_ALT);
      }
    }
  }
}
