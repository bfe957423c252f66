/**
  The rewrite rules of the peephole optimizer, against the interpreter: what a short sequence of
  instructions does and what its replacement does are the same to the code behind it, apart from
  registers that the rule gives up and cells that a push has left below the stack.
  */
module Peephole {
  import opened AmxMachine
  import opened AmxMemory
  import opened AmxOpcodes
  import opened Words
  import opened Wrappers

  // ----- Sequences -----

  datatype Line = Line(op: int, operands: seq<int>)

  /** Instructions one after the other; a jump can only be the last. */
  function After(env: Env, m: Machine, lines: seq<Line>): Outcome
    decreases |lines|
  {
    if lines == [] then Goes(m)
    else
      var o := One(env, m, lines[0]);
      if o.Goes? then After(env, o.next, lines[1..]) else o
  }

  function One(env: Env, m: Machine, l: Line): Outcome {
    Execute(env, m, l.op, l.operands, m.cip + 4 + 4 * |l.operands|)
  }

  lemma First(env: Env, m: Machine, l: Line, rest: seq<Line>)
    ensures After(env, m, [l] + rest) ==
      var o := One(env, m, l);
      if o.Goes? then After(env, o.next, rest) else o
  {
    hide One;
    assert ([l] + rest)[1..] == rest;
  }

  lemma Last(env: Env, m: Machine, l: Line)
    ensures After(env, m, [l]) == One(env, m, l)
  {
    hide One;
    assert [l][1..] == [];
  }

  // ----- What has to stay the same -----

  /** Memory is the same but for the `gap` bytes below `top`. */
  predicate SameMemory(before: seq<Byte>, after: seq<Byte>, top: int, gap: nat) {
    |after| == |before| && forall i :: 0 <= i < |after| && !(top - gap <= i < top) ==> after[i] == before[i]
  }

  predicate SameBase(m: Machine, n: Machine, top: int, gap: nat) {
    && m.frm == n.frm && m.hea == n.hea && m.resetStk == n.resetStk && m.resetHea == n.resetHea
    && m.paramcount == n.paramcount && SameMemory(m.data, n.data, top, gap)
  }

  /** Which registers the code behind still needs. */
  datatype Needs = Both | OnlyPri | OnlyAlt | Neither

  predicate SameRegisters(m: Machine, n: Machine, needs: Needs) {
    && (needs.Both? || needs.OnlyPri? ==> m.pri == n.pri)
    && (needs.Both? || needs.OnlyAlt? ==> m.alt == n.alt)
  }

  /**
    Where the first sequence goes on, the second goes on alike; where it ends the run, with the stack
    and the heap reset, so does the second. `gap` is what the first has used below the stack.
    */
  predicate Means(o: Outcome, p: Outcome, needs: Needs, top: int, gap: nat) {
    match o
    case Goes(m) =>
      p.Goes? && m.stk == p.next.stk && SameRegisters(m, p.next, needs) && SameBase(m, p.next, top, gap)
    case Ends(err, ret, m) => p.Ends? && p.err == err && p.retval == ret && SameBase(m, p.last, top, gap)
    case _ => true
  }

  // ----- The instructions of the rules -----

  const PUSH_PRI := Line(36, [])
  const PUSH_ALT := Line(37, [])
  const POP_ALT := Line(43, [])
  const MOVE_PRI := Line(33, [])
  const MOVE_ALT := Line(34, [])
  const XCHG := Line(35, [])

  /** LOAD, LOAD.S, CONST and ADDR, to PRI or to ALT, and the push of the same. */
  function ToPriOf(s: Source, a: int): Line {
    Line(match s { case Constant => 11 case Global => 1 case Local => 3 case Address => 13 }, [a])
  }

  function ToAltOf(s: Source, a: int): Line {
    Line(match s { case Constant => 12 case Global => 2 case Local => 4 case Address => 14 }, [a])
  }

  function PushOf(s: Source, a: int): Line {
    Line(match s { case Constant => 39 case Global => 40 case Local => 41 case Address => 133 }, [a])
  }

  /** The value that is loaded. */
  function ValueOf(m: Machine, s: Source, a: int): Option<int> {
    match s
    case Constant => Some(a)
    case Global => if InData(m.data, a) then Some(Load(m.data, a)) else None
    case Local => if InData(m.data, m.frm + a) then Some(Load(m.data, m.frm + a)) else None
    case Address => Some(Wrap(m.frm + a))
  }

  /** An operand of an instruction is a cell, and a cell of memory is not the one a push would overwrite. */
  predicate IsSound(m: Machine, s: Source, a: int) {
    match s
    case Constant => IsCell(a)
    case Global => a + 4 <= m.stk - 4 || m.stk <= a
    case Local => m.frm + a + 4 <= m.stk - 4 || m.stk <= m.frm + a
    case Address => true
  }

  lemma Loads(env: Env, m: Machine, s: Source, a: int)
    ensures
      var v := ValueOf(m, s, a);
      && One(env, m, ToPriOf(s, a)) == (if v.Some? then Goes(m.(pri := v.value, cip := m.cip + 8)) else Outside)
      && One(env, m, ToAltOf(s, a)) == (if v.Some? then Goes(m.(alt := v.value, cip := m.cip + 8)) else Outside)
  {
    hide Execute, Load, Wrap;
    var next := m.cip + 8;
    match s {
      case Constant =>
        ConstantExecutes(env, m, 11, a, next);
        ConstantExecutes(env, m, 12, a, next);
      case Address =>
        ConstantExecutes(env, m, 13, a, next);
        ConstantExecutes(env, m, 14, a, next);
      case Global =>
        LoadExecutes(env, m, 1, a, next);
        LoadExecutes(env, m, 2, a, next);
        LoadOutside(env, m, 1, a, next);
        LoadOutside(env, m, 2, a, next);
      case Local =>
        LoadExecutes(env, m, 3, a, next);
        LoadExecutes(env, m, 4, a, next);
        LoadOutside(env, m, 3, a, next);
        LoadOutside(env, m, 4, a, next);
    }
  }

  lemma LoadOutside(env: Env, m: Machine, op: int, a: int, next: int)
    requires 1 <= op <= 4
    ensures !InData(m.data, if op <= 2 then a else m.frm + a) ==> Execute(env, m, op, [a], next) == Outside
  {
    hide Load, Execute, CellEffect, Block, Arithmetic, LoadBytes, StoreBytes, Control, IsHole, Wrap;
    PlainExecutes(env, m, op, [a], next);
  }

  lemma PushesAndPops(env: Env, m: Machine)
    ensures
      var data := if InData(m.data, m.stk - 4) then Store(m.data, m.stk - 4, m.pri) else [];
      One(env, m, PUSH_PRI) == if InData(m.data, m.stk - 4)
        then Goes(m.(stk := m.stk - 4, data := data, cip := m.cip + 4)) else Outside
    ensures
      var data := if InData(m.data, m.stk - 4) then Store(m.data, m.stk - 4, m.alt) else [];
      One(env, m, PUSH_ALT) == if InData(m.data, m.stk - 4)
        then Goes(m.(stk := m.stk - 4, data := data, cip := m.cip + 4)) else Outside
    ensures One(env, m, POP_ALT) == if InData(m.data, m.stk)
      then Goes(m.(alt := Load(m.data, m.stk), stk := m.stk + 4, cip := m.cip + 4)) else Outside
  {
    hide EffectOf, Apply, PushAll, Stack, Heap, Proc, Return, Halt, Sysreq, SwitchTo, SetControl, Taken, Load, Store;
  }

  lemma Moves(env: Env, m: Machine)
    ensures One(env, m, MOVE_PRI) == Goes(m.(pri := m.alt, cip := m.cip + 4))
    ensures One(env, m, MOVE_ALT) == Goes(m.(alt := m.pri, cip := m.cip + 4))
    ensures One(env, m, XCHG) == Goes(m.(pri := m.alt, alt := m.pri, cip := m.cip + 4))
  {
    hide Execute;
    MoveExecutes(env, m, 33, [], m.cip + 4);
    MoveExecutes(env, m, 34, [], m.cip + 4);
    MoveExecutes(env, m, 35, [], m.cip + 4);
  }

  // ----- Two operands -----

  /** Loading in the other order, without the exchange. */
  lemma LoadLoadExchange(env: Env, m: Machine, s: Source, a: int, t: Source, b: int)
    ensures Means(
      After(env, m, [ToPriOf(s, a), ToAltOf(t, b), XCHG]),
      After(env, m, [ToPriOf(t, b), ToAltOf(s, a)]), Both, m.stk, 0)
  {
    hide One, ToPriOf, ToAltOf, ValueOf;
    Loads(env, m, s, a);
    Loads(env, m, t, b);
    First(env, m, ToPriOf(s, a), [ToAltOf(t, b), XCHG]);
    First(env, m, ToPriOf(t, b), [ToAltOf(s, a)]);
    if ValueOf(m, s, a).Some? {
      var n := m.(pri := ValueOf(m, s, a).value, cip := m.cip + 8);
      ValueStays(m, n, t, b);
      Loads(env, n, t, b);
      First(env, n, ToAltOf(t, b), [XCHG]);
      if ValueOf(m, t, b).Some? {
        var k := n.(alt := ValueOf(m, t, b).value, cip := n.cip + 8);
        Moves(env, k);
        Last(env, k, XCHG);
        var n' := m.(pri := ValueOf(m, t, b).value, cip := m.cip + 8);
        ValueStays(m, n', s, a);
        Loads(env, n', s, a);
        Last(env, n', ToAltOf(s, a));
      }
    }
  }

  lemma ValueStays(m: Machine, n: Machine, s: Source, a: int)
    requires n.frm == m.frm && n.data == m.data
    ensures ValueOf(n, s, a) == ValueOf(m, s, a)
  {}

  // ----- Through the stack and back -----

  lemma {:induction false} Append(env: Env, m: Machine, xs: seq<Line>, ys: seq<Line>)
    ensures After(env, m, xs + ys) ==
      var o := After(env, m, xs);
      if o.Goes? then After(env, o.next, ys) else o
    decreases |xs|
  {
    hide One;
    if xs == [] {
      assert xs + ys == ys;
    } else {
      var o := One(env, m, xs[0]);
      assert xs + ys == [xs[0]] + (xs[1..] + ys) && xs == [xs[0]] + xs[1..];
      First(env, m, xs[0], xs[1..] + ys);
      First(env, m, xs[0], xs[1..]);
      if o.Goes? {
        Append(env, o.next, xs[1..], ys);
      }
    }
  }

  /** A push overwrites nothing that a sound operand reads. */
  lemma ValueAfterPush(m: Machine, s: Source, a: int, v: int, cip: int)
    requires InData(m.data, m.stk - 4) && IsSound(m, s, a)
    ensures ValueOf(m.(stk := m.stk - 4, data := Store(m.data, m.stk - 4, v), cip := cip), s, a) == ValueOf(m, s, a)
  {
    hide Load, Store;
    var at := if s.Local? then m.frm + a else a;
    if (s.Global? || s.Local?) && InData(m.data, at) {
      LoadBeside(m.data, m.stk - 4, v, at);
    }
  }

  lemma PushedMemory(data: seq<Byte>, at: int, v: int)
    requires InData(data, at)
    ensures SameMemory(data, Store(data, at, v), at + 4, 4) && SameMemory(Store(data, at, v), data, at + 4, 4)
    ensures IsCell(v) ==> Load(Store(data, at, v), at) == v
  {
    LoadStored(data, at, v);
  }

  /** PRI goes to ALT by way of the stack, while an operand is loaded. */
  lemma PushLoadPop(env: Env, m: Machine, t: Source, b: int)
    requires IsCell(m.pri) && IsSound(m, t, b)
    ensures After(env, m, [PUSH_PRI, ToPriOf(t, b), POP_ALT]) ==
      var v := ValueOf(m, t, b);
      if !InData(m.data, m.stk - 4) || v.None? then Outside
      else Goes(m.(pri := v.value, alt := m.pri, data := Store(m.data, m.stk - 4, m.pri), cip := m.cip + 16))
  {
    hide One, ToPriOf, ValueOf, Load, Store, IsSound;
    PushesAndPops(env, m);
    First(env, m, PUSH_PRI, [ToPriOf(t, b), POP_ALT]);
    if InData(m.data, m.stk - 4) {
      var n := m.(stk := m.stk - 4, data := Store(m.data, m.stk - 4, m.pri), cip := m.cip + 4);
      ValueAfterPush(m, t, b, m.pri, m.cip + 4);
      Loads(env, n, t, b);
      First(env, n, ToPriOf(t, b), [POP_ALT]);
      if ValueOf(m, t, b).Some? {
        var k := n.(pri := ValueOf(m, t, b).value, cip := n.cip + 8);
        PushesAndPops(env, k);
        Last(env, k, POP_ALT);
        PushedMemory(m.data, m.stk - 4, m.pri);
      }
    }
  }

  lemma MoveLoad(env: Env, m: Machine, t: Source, b: int)
    ensures After(env, m, [MOVE_ALT, ToPriOf(t, b)]) ==
      var v := ValueOf(m, t, b);
      if v.None? then Outside else Goes(m.(pri := v.value, alt := m.pri, cip := m.cip + 12))
  {
    hide One, ToPriOf, ValueOf;
    Moves(env, m);
    First(env, m, MOVE_ALT, [ToPriOf(t, b)]);
    var n := m.(alt := m.pri, cip := m.cip + 4);
    ValueStays(m, n, t, b);
    Loads(env, n, t, b);
    Last(env, n, ToPriOf(t, b));
  }

  /** An intermediate result is moved to ALT instead of being pushed and popped. */
  lemma PushLoadPopIsMove(env: Env, m: Machine, t: Source, b: int)
    requires IsCell(m.pri) && IsSound(m, t, b)
    ensures Means(
      After(env, m, [PUSH_PRI, ToPriOf(t, b), POP_ALT]),
      After(env, m, [MOVE_ALT, ToPriOf(t, b)]), Both, m.stk, 4)
  {
    hide After, ToPriOf, ValueOf, Store;
    PushLoadPop(env, m, t, b);
    MoveLoad(env, m, t, b);
    if InData(m.data, m.stk - 4) {
      PushedMemory(m.data, m.stk - 4, m.pri);
    }
  }

  lemma TwoLoads(env: Env, m: Machine, s: Source, a: int, t: Source, b: int)
    ensures
      var u, v := ValueOf(m, s, a), ValueOf(m, t, b);
      var o := if u.None? || v.None? then Outside else Goes(m.(pri := v.value, alt := u.value, cip := m.cip + 16));
      && After(env, m, [ToPriOf(t, b), ToAltOf(s, a)]) == o
      && After(env, m, [ToAltOf(s, a), ToPriOf(t, b)]) == o
  {
    hide One, ToPriOf, ToAltOf, ValueOf;
    Loads(env, m, s, a);
    Loads(env, m, t, b);
    First(env, m, ToPriOf(t, b), [ToAltOf(s, a)]);
    First(env, m, ToAltOf(s, a), [ToPriOf(t, b)]);
    var u, v := ValueOf(m, s, a), ValueOf(m, t, b);
    if v.Some? {
      var n := m.(pri := v.value, cip := m.cip + 8);
      ValueStays(m, n, s, a);
      Loads(env, n, s, a);
      Last(env, n, ToAltOf(s, a));
    }
    if u.Some? {
      var n := m.(alt := u.value, cip := m.cip + 8);
      ValueStays(m, n, t, b);
      Loads(env, n, t, b);
      Last(env, n, ToPriOf(t, b));
    }
  }

  /** Both operands are loaded where they belong, in either order. */
  lemma LoadPushLoadPop(env: Env, m: Machine, s: Source, a: int, t: Source, b: int)
    requires IsSound(m, s, a) && IsSound(m, t, b)
    ensures
      var o := After(env, m, [ToPriOf(s, a), PUSH_PRI, ToPriOf(t, b), POP_ALT]);
      && Means(o, After(env, m, [ToPriOf(t, b), ToAltOf(s, a)]), Both, m.stk, 4)
      && Means(o, After(env, m, [ToAltOf(s, a), ToPriOf(t, b)]), Both, m.stk, 4)
  {
    hide After, One, ToPriOf, ToAltOf, ValueOf, Store, IsSound;
    TwoLoads(env, m, s, a, t, b);
    Loads(env, m, s, a);
    First(env, m, ToPriOf(s, a), [PUSH_PRI, ToPriOf(t, b), POP_ALT]);
    assert [ToPriOf(s, a)] + [PUSH_PRI, ToPriOf(t, b), POP_ALT] == [ToPriOf(s, a), PUSH_PRI, ToPriOf(t, b), POP_ALT];
    if ValueOf(m, s, a).Some? {
      var n := m.(pri := ValueOf(m, s, a).value, cip := m.cip + 8);
      ValueIsCell(m, s, a);
      ValueStays(m, n, t, b);
      SoundStays(m, n, t, b);
      PushLoadPop(env, n, t, b);
      if InData(m.data, m.stk - 4) {
        PushedMemory(m.data, m.stk - 4, n.pri);
      }
    }
  }

  lemma ValueIsCell(m: Machine, s: Source, a: int)
    requires IsSound(m, s, a) && ValueOf(m, s, a).Some?
    ensures IsCell(ValueOf(m, s, a).value)
  {
    hide Load;
  }

  lemma SoundStays(m: Machine, n: Machine, s: Source, a: int)
    requires n.frm == m.frm && n.stk == m.stk
    ensures IsSound(n, s, a) == IsSound(m, s, a)
  {}

  /** PRI is moved to ALT and got back: the operand goes to ALT. */
  lemma MoveLoadExchange(env: Env, m: Machine, t: Source, b: int)
    ensures Means(
      After(env, m, [MOVE_ALT, ToPriOf(t, b), XCHG]),
      After(env, m, [ToAltOf(t, b)]), Both, m.stk, 0)
  {
    hide After, One, ToPriOf, ToAltOf, ValueOf;
    MoveLoad(env, m, t, b);
    Append(env, m, [MOVE_ALT, ToPriOf(t, b)], [XCHG]);
    assert [MOVE_ALT, ToPriOf(t, b)] + [XCHG] == [MOVE_ALT, ToPriOf(t, b), XCHG];
    Loads(env, m, t, b);
    Last(env, m, ToAltOf(t, b));
    if ValueOf(m, t, b).Some? {
      var n := m.(pri := ValueOf(m, t, b).value, alt := m.pri, cip := m.cip + 12);
      Moves(env, n);
      Last(env, n, XCHG);
    }
  }

  /** ALT goes through PRI and the stack and back. */
  lemma MovePushLoadPop(env: Env, m: Machine, t: Source, b: int)
    requires IsCell(m.alt) && IsSound(m, t, b)
    ensures Means(
      After(env, m, [MOVE_PRI, PUSH_PRI, ToPriOf(t, b), POP_ALT]), After(env, m, [ToPriOf(t, b)]), Both, m.stk, 4)
  {
    hide After, One, ToPriOf, ValueOf, Store, IsSound;
    Moves(env, m);
    First(env, m, MOVE_PRI, [PUSH_PRI, ToPriOf(t, b), POP_ALT]);
    assert [MOVE_PRI] + [PUSH_PRI, ToPriOf(t, b), POP_ALT] == [MOVE_PRI, PUSH_PRI, ToPriOf(t, b), POP_ALT];
    var n := m.(pri := m.alt, cip := m.cip + 4);
    ValueStays(m, n, t, b);
    SoundStays(m, n, t, b);
    PushLoadPop(env, n, t, b);
    Loads(env, m, t, b);
    Last(env, m, ToPriOf(t, b));
    if InData(m.data, m.stk - 4) {
      PushedMemory(m.data, m.stk - 4, m.alt);
    }
  }

  /** A push that is popped at once. */
  lemma PushPopIsMove(env: Env, m: Machine)
    requires IsCell(m.pri)
    ensures Means(After(env, m, [PUSH_PRI, POP_ALT]), After(env, m, [MOVE_ALT]), Both, m.stk, 4)
  {
    hide One, Load, Store;
    PushesAndPops(env, m);
    Moves(env, m);
    First(env, m, PUSH_PRI, [POP_ALT]);
    Last(env, m, MOVE_ALT);
    if InData(m.data, m.stk - 4) {
      var n := m.(stk := m.stk - 4, data := Store(m.data, m.stk - 4, m.pri), cip := m.cip + 4);
      PushesAndPops(env, n);
      Last(env, n, POP_ALT);
      PushedMemory(m.data, m.stk - 4, m.pri);
    }
  }

  // ----- Pushing operands -----

  /** A value is pushed straight from where it is; PRI is dead. */
  lemma Pushes(env: Env, m: Machine, s: Source, a: int)
    ensures
      var v := ValueOf(m, s, a);
      One(env, m, PushOf(s, a)) ==
        if v.None? || !InData(m.data, m.stk - 4) then Outside
        else Goes(m.(stk := m.stk - 4, data := Store(m.data, m.stk - 4, v.value), cip := m.cip + 8))
  {
    hide EffectOf, Apply, PushAll, Pop, Stack, Heap, Proc, Return, Halt, Sysreq, SwitchTo, SetControl, Taken, Load;
    hide BytesOf, Wrap, Overwrite;
    PushOne(m, s, a);
    SameBytes(m.frm + a);
  }

  lemma SameBytes(v: int)
    ensures BytesOf(Wrap(v)) == BytesOf(v)
  {
    var k := (v + 0x8000_0000) / CELL;
    assert Wrap(v) == v - CELL * k;
    LowByteOf(v, CELL / 0x100 * k);
    assert Wrap(v) / 0x100 == v / 0x100 - CELL / 0x100 * k;
    LowByteOf(v / 0x100, CELL / 0x1_0000 * k);
    assert Wrap(v) / 0x100 / 0x100 == v / 0x100 / 0x100 - CELL / 0x1_0000 * k;
    LowByteOf(v / 0x100 / 0x100, CELL / 0x100_0000 * k);
    LowByteOf(v / 0x100 / 0x100 / 0x100, k);
  }

  lemma LowByteOf(v: int, k: int)
    ensures (v - 0x100 * k) % 0x100 == v % 0x100
  {}

  lemma LoadPushIsPush(env: Env, m: Machine, s: Source, a: int)
    ensures Means(After(env, m, [ToPriOf(s, a), PUSH_PRI]), After(env, m, [PushOf(s, a)]), OnlyAlt, m.stk, 0)
  {
    hide One, ToPriOf, PushOf, ValueOf, Store;
    Loads(env, m, s, a);
    Pushes(env, m, s, a);
    First(env, m, ToPriOf(s, a), [PUSH_PRI]);
    Last(env, m, PushOf(s, a));
    if ValueOf(m, s, a).Some? {
      var n := m.(pri := ValueOf(m, s, a).value, cip := m.cip + 8);
      PushesAndPops(env, n);
      Last(env, n, PUSH_PRI);
    }
  }

  /** The same from ALT. No marker says that PRI is dead: it is the same exactly if it was that of ALT. */
  lemma MovePushIsPush(env: Env, m: Machine)
    ensures
      var o, p := After(env, m, [MOVE_PRI, PUSH_PRI]), After(env, m, [PUSH_ALT]);
      && Means(o, p, OnlyAlt, m.stk, 0)
      && (InData(m.data, m.stk - 4) ==> (Means(o, p, Both, m.stk, 0) <==> m.pri == m.alt))
  {
    hide One, Store;
    Moves(env, m);
    First(env, m, MOVE_PRI, [PUSH_PRI]);
    PushesAndPops(env, m);
    PushesAndPops(env, m.(pri := m.alt, cip := m.cip + 4));
    Last(env, m, PUSH_ALT);
    Last(env, m.(pri := m.alt, cip := m.cip + 4), PUSH_PRI);
  }

  /** Two pushes in a row. */
  lemma TwoPushes(env: Env, m: Machine, s: Source, a: int, t: Source, b: int)
    requires IsSound(m, t, b)
    ensures After(env, m, [PushOf(s, a), PushOf(t, b)]) ==
      var u, v := ValueOf(m, s, a), ValueOf(m, t, b);
      if u.None? || v.None? || !InData(m.data, m.stk - 4) || !InData(m.data, m.stk - 8) then Outside
      else
        var data := Store(Store(m.data, m.stk - 4, u.value), m.stk - 8, v.value);
        Goes(m.(stk := m.stk - 8, data := data, cip := m.cip + 16))
  {
    hide One, PushOf, ValueOf, Store, IsSound;
    Pushes(env, m, s, a);
    First(env, m, PushOf(s, a), [PushOf(t, b)]);
    if ValueOf(m, s, a).Some? && InData(m.data, m.stk - 4) {
      var u := ValueOf(m, s, a).value;
      var n := m.(stk := m.stk - 4, data := Store(m.data, m.stk - 4, u), cip := m.cip + 8);
      ValueAfterPush(m, t, b, u, m.cip + 8);
      Pushes(env, n, t, b);
      Last(env, n, PushOf(t, b));
    }
  }

  /** Operands of user-defined operators go straight to the stack; both registers are dead. */
  lemma LoadLoadPushPush(env: Env, m: Machine, s: Source, a: int, t: Source, b: int)
    requires IsSound(m, s, a) && IsSound(m, t, b)
    ensures Means(
      After(env, m, [ToPriOf(s, a), ToAltOf(t, b), PUSH_PRI, PUSH_ALT]),
      After(env, m, [PushOf(s, a), PushOf(t, b)]), Neither, m.stk, 0)
    ensures Means(
      After(env, m, [ToPriOf(s, a), ToAltOf(t, b), PUSH_ALT, PUSH_PRI]),
      After(env, m, [PushOf(t, b), PushOf(s, a)]), Neither, m.stk, 0)
  {
    hide After, One, ToPriOf, ToAltOf, PushOf, ValueOf, Store, IsSound;
    TwoPushes(env, m, s, a, t, b);
    TwoPushes(env, m, t, b, s, a);
    TwoLoads(env, m, t, b, s, a);
    var loads := [ToPriOf(s, a), ToAltOf(t, b)];
    Append(env, m, loads, [PUSH_PRI, PUSH_ALT]);
    Append(env, m, loads, [PUSH_ALT, PUSH_PRI]);
    assert loads + [PUSH_PRI, PUSH_ALT] == [ToPriOf(s, a), ToAltOf(t, b), PUSH_PRI, PUSH_ALT];
    assert loads + [PUSH_ALT, PUSH_PRI] == [ToPriOf(s, a), ToAltOf(t, b), PUSH_ALT, PUSH_PRI];
    var u, v := ValueOf(m, s, a), ValueOf(m, t, b);
    if u.Some? && v.Some? {
      BothPushed(env, m.(pri := u.value, alt := v.value, cip := m.cip + 16));
    }
  }

  lemma BothPushed(env: Env, m: Machine)
    ensures
      var fits := InData(m.data, m.stk - 4) && InData(m.data, m.stk - 8);
      && After(env, m, [PUSH_PRI, PUSH_ALT]) == (if !fits then Outside
           else Goes(m.(stk := m.stk - 8, data := Store(Store(m.data, m.stk - 4, m.pri), m.stk - 8, m.alt),
                        cip := m.cip + 8)))
      && After(env, m, [PUSH_ALT, PUSH_PRI]) == (if !fits then Outside
           else Goes(m.(stk := m.stk - 8, data := Store(Store(m.data, m.stk - 4, m.alt), m.stk - 8, m.pri),
                        cip := m.cip + 8)))
  {
    hide One, Store;
    PushesAndPops(env, m);
    First(env, m, PUSH_PRI, [PUSH_ALT]);
    First(env, m, PUSH_ALT, [PUSH_PRI]);
    if InData(m.data, m.stk - 4) {
      var n := m.(stk := m.stk - 4, data := Store(m.data, m.stk - 4, m.pri), cip := m.cip + 4);
      var k := m.(stk := m.stk - 4, data := Store(m.data, m.stk - 4, m.alt), cip := m.cip + 4);
      PushesAndPops(env, n);
      PushesAndPops(env, k);
      Last(env, n, PUSH_ALT);
      Last(env, k, PUSH_PRI);
    }
  }

  // ----- References -----

  /** A cell that is read through a pointer goes to ALT at once. */
  lemma ReferenceMoveLoad(env: Env, m: Machine, local: bool, a: int, t: Source, b: int)
    ensures
      var toPri, toAlt := Line(if local then 7 else 5, [a]), Line(if local then 8 else 6, [a]);
      Means(After(env, m, [toPri, MOVE_ALT, ToPriOf(t, b)]), After(env, m, [toAlt, ToPriOf(t, b)]), Both, m.stk, 0)
  {
    hide After, One, ToPriOf, ValueOf;
    var toPri, toAlt := Line(if local then 7 else 5, [a]), Line(if local then 8 else 6, [a]);
    First(env, m, toPri, [MOVE_ALT, ToPriOf(t, b)]);
    First(env, m, toAlt, [ToPriOf(t, b)]);
    assert [toPri] + [MOVE_ALT, ToPriOf(t, b)] == [toPri, MOVE_ALT, ToPriOf(t, b)];
    assert [toAlt] + [ToPriOf(t, b)] == [toAlt, ToPriOf(t, b)];
    References(env, m, local, a);
    if One(env, m, toPri).Goes? {
      var n, k := One(env, m, toPri).next, One(env, m, toAlt).next;
      MoveLoad(env, n, t, b);
      Loads(env, k, t, b);
      Last(env, k, ToPriOf(t, b));
      ValueStays(m, n, t, b);
      ValueStays(m, k, t, b);
    }
  }

  lemma References(env: Env, m: Machine, local: bool, a: int)
    ensures
      var at := if local then m.frm + a else a;
      var o, p := One(env, m, Line(if local then 7 else 5, [a])), One(env, m, Line(if local then 8 else 6, [a]));
      if InData(m.data, at) && InData(m.data, Load(m.data, at)) then
        var v := Load(m.data, Load(m.data, at));
        o == Goes(m.(pri := v, cip := m.cip + 8)) && p == Goes(m.(alt := v, cip := m.cip + 8))
      else o == Outside
  {
    hide Execute, Load;
    LoadExecutes(env, m, if local then 7 else 5, a, m.cip + 8);
    LoadExecutes(env, m, if local then 8 else 6, a, m.cip + 8);
    ReferenceOutside(env, m, if local then 7 else 5, a, m.cip + 8);
  }

  lemma ReferenceOutside(env: Env, m: Machine, op: int, a: int, next: int)
    requires op == 5 || op == 7
    ensures
      var at := if op == 7 then m.frm + a else a;
      !(InData(m.data, at) && InData(m.data, Load(m.data, at))) ==> Execute(env, m, op, [a], next) == Outside
  {
    hide Load, Execute, CellEffect, Block, Arithmetic, LoadBytes, StoreBytes, Control, IsHole, Wrap;
    PlainExecutes(env, m, op, [a], next);
  }
}
