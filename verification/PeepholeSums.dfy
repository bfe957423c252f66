/** Rewrite rules for arithmetic, and for comparisons whose result is only tested. */
module PeepholeSums {
  import opened AmxAlu
  import opened AmxMachine
  import opened AmxMemory
  import opened AmxOpcodes
  import opened Peephole
  import opened Words
  import opened Wrappers

  // ----- Arithmetic -----

  const ADD := Line(78, [])
  const SUB := Line(79, [])
  const SUB_ALT := Line(80, [])

  lemma Sums(env: Env, m: Machine)
    ensures One(env, m, ADD) == Goes(m.(pri := Wrap(m.pri + m.alt), cip := m.cip + 4))
    ensures One(env, m, SUB) == Goes(m.(pri := Wrap(m.pri - m.alt), cip := m.cip + 4))
    ensures One(env, m, SUB_ALT) == Goes(m.(pri := Wrap(m.alt - m.pri), cip := m.cip + 4))
  {
    hide Execute, Wrap;
    ArithmeticExecutes(env, m, 78, [], m.cip + 4);
    ArithmeticExecutes(env, m, 79, [], m.cip + 4);
    ArithmeticExecutes(env, m, 80, [], m.cip + 4);
  }

  lemma SumsWithConstant(env: Env, m: Machine, a: int)
    ensures One(env, m, Line(87, [a])) == Goes(m.(pri := Wrap(m.pri + a), cip := m.cip + 8))
    ensures One(env, m, Line(88, [a])) == Goes(m.(pri := Wrap(m.pri * a), cip := m.cip + 8))
    ensures One(env, m, Line(105, [a])) == Goes(m.(pri := if m.pri == a then 1 else 0, cip := m.cip + 8))
  {
    hide Execute, Wrap;
    SumExecutes(env, m, 87, [a], m.cip + 8);
    SumExecutes(env, m, 88, [a], m.cip + 8);
    CompareExecutes(env, m, 105, [a], m.cip + 8);
  }

  lemma WrapWrap(v: int, w: int)
    ensures Wrap(Wrap(v) + w) == Wrap(v + w)
  {
    var k := (v + 0x8000_0000) / CELL;
    assert Wrap(v) + w == v + w - CELL * k;
    WrapIsPeriodic(v + w, -k);
  }

  /** A sum and a difference with the operand in the other register; ALT is dead. */
  lemma MoveLoadSum(env: Env, m: Machine, t: Source, b: int)
    ensures Means(
      After(env, m, [MOVE_ALT, ToPriOf(t, b), ADD]), After(env, m, [ToAltOf(t, b), ADD]), OnlyPri, m.stk, 0)
    ensures Means(
      After(env, m, [MOVE_ALT, ToPriOf(t, b), SUB_ALT]), After(env, m, [ToAltOf(t, b), SUB]), OnlyPri, m.stk, 0)
  {
    hide After, One, ToPriOf, ToAltOf, ValueOf, Wrap;
    MoveLoad(env, m, t, b);
    Append(env, m, [MOVE_ALT, ToPriOf(t, b)], [ADD]);
    Append(env, m, [MOVE_ALT, ToPriOf(t, b)], [SUB_ALT]);
    assert [MOVE_ALT, ToPriOf(t, b)] + [ADD] == [MOVE_ALT, ToPriOf(t, b), ADD];
    assert [MOVE_ALT, ToPriOf(t, b)] + [SUB_ALT] == [MOVE_ALT, ToPriOf(t, b), SUB_ALT];
    Loads(env, m, t, b);
    First(env, m, ToAltOf(t, b), [ADD]);
    First(env, m, ToAltOf(t, b), [SUB]);
    assert [ToAltOf(t, b)] + [ADD] == [ToAltOf(t, b), ADD] && [ToAltOf(t, b)] + [SUB] == [ToAltOf(t, b), SUB];
    if ValueOf(m, t, b).Some? {
      var v := ValueOf(m, t, b).value;
      assert v + m.pri == m.pri + v;
      var n, k := m.(pri := v, alt := m.pri, cip := m.cip + 12), m.(alt := v, cip := m.cip + 8);
      Sums(env, n);
      Sums(env, k);
      Last(env, n, ADD);
      Last(env, n, SUB_ALT);
      Last(env, k, ADD);
      Last(env, k, SUB);
    }
  }

  /** A constant operand is part of the instruction; ALT is dead. */
  lemma ConstantOperand(env: Env, m: Machine, a: int, op: int)
    requires op == 78 || op == 72 || op == 95
    ensures
      var short := if op == 78 then 87 else if op == 72 then 88 else 105;
      Means(After(env, m, [ToAltOf(Constant, a), Line(op, [])]), After(env, m, [Line(short, [a])]), OnlyPri, m.stk, 0)
  {
    hide One, Wrap;
    var short := if op == 78 then 87 else if op == 72 then 88 else 105;
    Loads(env, m, Constant, a);
    First(env, m, ToAltOf(Constant, a), [Line(op, [])]);
    var n := m.(alt := a, cip := m.cip + 8);
    Last(env, n, Line(op, []));
    Last(env, m, Line(short, [a]));
    SumsWithConstant(env, m, a);
    Computes(env, n, op);
  }

  lemma Computes(env: Env, m: Machine, op: int)
    requires op == 78 || op == 72 || op == 95
    ensures One(env, m, Line(op, [])) == Goes(m.(cip := m.cip + 4, pri :=
      if op == 78 then Wrap(m.pri + m.alt) else if op == 72 then Wrap(m.pri * m.alt)
      else if m.pri == m.alt then 1 else 0))
  {
    hide Execute, Wrap;
    ArithmeticExecutes(env, m, op, [], m.cip + 4);
  }

  /** Two constants in a row are added up. */
  lemma AddAdd(env: Env, m: Machine, a: int, b: int)
    ensures Means(
      After(env, m, [Line(87, [a]), Line(87, [b])]), After(env, m, [Line(87, [a + b])]), Both, m.stk, 0)
  {
    hide One, Wrap;
    SumsWithConstant(env, m, a);
    SumsWithConstant(env, m, a + b);
    First(env, m, Line(87, [a]), [Line(87, [b])]);
    Last(env, m, Line(87, [a + b]));
    var n := m.(pri := Wrap(m.pri + a), cip := m.cip + 8);
    SumsWithConstant(env, n, b);
    Last(env, n, Line(87, [b]));
    WrapWrap(m.pri + a, b);
    assert m.pri + a + b == m.pri + (a + b);
  }

  /**
    A constant less an operand and an operand less a constant. The rule for global operands fits its
    SUB.ALT. The one for local operands stands with SUB, and turns the difference round: that keeps
    PRI exactly if the difference is its own negative, which is 0 or the smallest cell.
    */
  lemma ConstantDifference(env: Env, m: Machine, a: int, t: Source, b: int)
    ensures
      var short := After(env, m, [ToPriOf(t, b), Line(87, [-a])]);
      && Means(After(env, m, [ToPriOf(Constant, a), ToAltOf(t, b), SUB_ALT]), short, OnlyPri, m.stk, 0)
      && (ValueOf(m, t, b).Some? ==>
           var d := Wrap(a - ValueOf(m, t, b).value);
           Means(After(env, m, [ToPriOf(Constant, a), ToAltOf(t, b), SUB]), short, OnlyPri, m.stk, 0) <==>
             d == 0 || d == CELLMIN)
  {
    hide After, One, ToPriOf, ToAltOf, ValueOf;
    TwoLoads(env, m, t, b, Constant, a);
    ConstantValue(m, a);
    var loads := [ToPriOf(Constant, a), ToAltOf(t, b)];
    Append(env, m, loads, [SUB]);
    Append(env, m, loads, [SUB_ALT]);
    assert loads + [SUB] == [ToPriOf(Constant, a), ToAltOf(t, b), SUB];
    assert loads + [SUB_ALT] == [ToPriOf(Constant, a), ToAltOf(t, b), SUB_ALT];
    Loads(env, m, t, b);
    First(env, m, ToPriOf(t, b), [Line(87, [-a])]);
    assert [ToPriOf(t, b)] + [Line(87, [-a])] == [ToPriOf(t, b), Line(87, [-a])];
    if ValueOf(m, t, b).Some? {
      var v := ValueOf(m, t, b).value;
      var n, k := m.(pri := a, alt := v, cip := m.cip + 16), m.(pri := v, cip := m.cip + 8);
      Sums(env, n);
      SumsWithConstant(env, k, -a);
      Last(env, n, SUB);
      Last(env, n, SUB_ALT);
      Last(env, k, Line(87, [-a]));
      Negated(a - v);
      assert v + -a == -(a - v) == v - a;
    }
  }

  lemma ConstantValue(m: Machine, a: int)
    ensures ValueOf(m, Constant, a) == Some(a)
  {}

  lemma Negated(d: int)
    ensures Wrap(d) == Wrap(-d) <==> Wrap(d) == 0 || Wrap(d) == CELLMIN
  {}

  // ----- Comparing and jumping -----

  /** The two jumps that a comparison and a test of its result come to. */
  function JumpIf(cmp: int): int {
    match cmp { case 95 => 55 case 96 => 56 case 101 => 61 case 102 => 62 case 103 => 63 case _ => 64 }
  }

  function JumpUnless(cmp: int): int {
    match cmp { case 95 => 56 case 96 => 55 case 101 => 64 case 102 => 63 case 103 => 62 case _ => 61 }
  }

  /** The comparison with its operands exchanged. */
  function Swapped(cmp: int): int {
    match cmp { case 101 => 103 case 102 => 104 case 103 => 101 case _ => 102 }
  }

  predicate IsOrder(cmp: int) { 101 <= cmp <= 104 }

  predicate IsCompare(cmp: int) { cmp == 95 || cmp == 96 || IsOrder(cmp) }

  /** Both sequences jump to `a`, or both go on behind their own end. */
  predicate JumpsAlike(o: Outcome, p: Outcome, a: int, end: int, end': int) {
    o.Goes? && p.Goes? &&
    ((o.next.cip == a && p.next.cip == a) || (o.next.cip == end && p.next.cip == end'))
  }

  function Holds(cmp: int, p: int, q: int): bool {
    match cmp
    case 95 => p == q
    case 96 => p != q
    case 101 => p < q
    case 102 => p <= q
    case 103 => p > q
    case _ => p >= q
  }

  lemma Compares(env: Env, m: Machine, cmp: int)
    requires IsCompare(cmp)
    ensures One(env, m, Line(cmp, [])) ==
      Goes(m.(pri := if Holds(cmp, m.pri, m.alt) then 1 else 0, cip := m.cip + 4))
  {
    hide Execute, Wrap;
    ArithmeticExecutes(env, m, cmp, [], m.cip + 4);
  }

  lemma JumpsOn(env: Env, m: Machine, op: int, a: int)
    requires op == 53 || op == 54 || op == 55 || op == 56 || 61 <= op <= 64
    ensures
      var taken := if op == 53 then m.pri == 0 else if op == 54 then m.pri != 0 else if op == 55 then m.pri == m.alt
                   else if op == 56 then m.pri != m.alt else if op == 61 then m.pri < m.alt
                   else if op == 62 then m.pri <= m.alt else if op == 63 then m.pri > m.alt else m.pri >= m.alt;
      One(env, m, Line(op, [a])) == Goes(m.(cip := if taken then a else m.cip + 8))
  {
    hide EffectOf, Apply, Push, PushAll, Pop, Stack, Heap, Proc, Return, Halt, Sysreq, SwitchTo, SetControl;
  }

  /** A comparison whose result is only tested; PRI is dead. */
  lemma CompareAndJump(env: Env, m: Machine, cmp: int, zero: bool, a: int)
    requires IsCompare(cmp)
    ensures
      var o := After(env, m, [Line(cmp, []), Line(if zero then 53 else 54, [a])]);
      var p := After(env, m, [Line(if zero then JumpUnless(cmp) else JumpIf(cmp), [a])]);
      Means(o, p, OnlyAlt, m.stk, 0) && JumpsAlike(o, p, a, m.cip + 12, m.cip + 8)
  {
    hide One;
    var test := Line(if zero then 53 else 54, [a]);
    Compares(env, m, cmp);
    First(env, m, Line(cmp, []), [test]);
    var n := m.(pri := if Holds(cmp, m.pri, m.alt) then 1 else 0, cip := m.cip + 4);
    JumpsOn(env, n, if zero then 53 else 54, a);
    Last(env, n, test);
    var jump := if zero then JumpUnless(cmp) else JumpIf(cmp);
    JumpsOn(env, m, jump, a);
    Last(env, m, Line(jump, [a]));
  }

  /** Comparing with zero; ALT is dead. */
  lemma ZeroAndJump(env: Env, m: Machine, equal: bool, a: int)
    ensures
      var o := After(env, m, [Line(90, []), Line(if equal then 55 else 56, [a])]);
      var p := After(env, m, [Line(if equal then 53 else 54, [a])]);
      Means(o, p, OnlyPri, m.stk, 0) && JumpsAlike(o, p, a, m.cip + 12, m.cip + 8)
  {
    hide One;
    Zeroes(env, m);
    First(env, m, Line(90, []), [Line(if equal then 55 else 56, [a])]);
    var n := m.(alt := 0, cip := m.cip + 4);
    JumpsOn(env, n, if equal then 55 else 56, a);
    JumpsOn(env, m, if equal then 53 else 54, a);
    Last(env, n, Line(if equal then 55 else 56, [a]));
    Last(env, m, Line(if equal then 53 else 54, [a]));
  }

  lemma Zeroes(env: Env, m: Machine)
    ensures One(env, m, Line(89, [])) == Goes(m.(pri := 0, cip := m.cip + 4))
    ensures One(env, m, Line(90, [])) == Goes(m.(alt := 0, cip := m.cip + 4))
  {
    hide Execute;
    MoveExecutes(env, m, 89, [], m.cip + 4);
    MoveExecutes(env, m, 90, [], m.cip + 4);
  }

  /** An exchange in front of a comparison turns it round; ALT is dead. */
  lemma ExchangeCompare(env: Env, m: Machine, cmp: int)
    requires IsOrder(cmp)
    ensures Means(
      After(env, m, [XCHG, Line(cmp, [])]), After(env, m, [Line(Swapped(cmp), [])]), OnlyPri, m.stk, 0)
  {
    hide One;
    Moves(env, m);
    First(env, m, XCHG, [Line(cmp, [])]);
    var n := m.(pri := m.alt, alt := m.pri, cip := m.cip + 4);
    Compares(env, n, cmp);
    Compares(env, m, Swapped(cmp));
    Last(env, n, Line(cmp, []));
    Last(env, m, Line(Swapped(cmp), []));
  }

  /** The same with a test behind it; both registers are dead. */
  lemma ExchangeCompareJump(env: Env, m: Machine, cmp: int, a: int)
    requires IsOrder(cmp)
    ensures
      var o := After(env, m, [XCHG, Line(cmp, []), Line(53, [a])]);
      var p := After(env, m, [Line(JumpUnless(Swapped(cmp)), [a])]);
      Means(o, p, Neither, m.stk, 0) && JumpsAlike(o, p, a, m.cip + 16, m.cip + 8)
  {
    hide After, One;
    var jump := JumpUnless(Swapped(cmp));
    Moves(env, m);
    First(env, m, XCHG, [Line(cmp, []), Line(53, [a])]);
    assert [XCHG] + [Line(cmp, []), Line(53, [a])] == [XCHG, Line(cmp, []), Line(53, [a])];
    var n := m.(pri := m.alt, alt := m.pri, cip := m.cip + 4);
    Compares(env, n, cmp);
    First(env, n, Line(cmp, []), [Line(53, [a])]);
    assert [Line(cmp, [])] + [Line(53, [a])] == [Line(cmp, []), Line(53, [a])];
    var k := n.(pri := if Holds(cmp, n.pri, n.alt) then 1 else 0, cip := n.cip + 4);
    JumpsOn(env, k, 53, a);
    Last(env, k, Line(53, [a]));
    JumpsOn(env, m, jump, a);
    Last(env, m, Line(jump, [a]));
  }

  const SWAP_ALT := Line(132, [])
  const AND := Line(81, [])

  lemma Swaps(env: Env, m: Machine)
    ensures One(env, m, SWAP_ALT) == if !InData(m.data, m.stk) then Outside
      else Goes(m.(alt := Load(m.data, m.stk), data := Store(m.data, m.stk, m.alt), cip := m.cip + 4))
    ensures One(env, m, AND) == Goes(m.(pri := And(m.pri, m.alt), cip := m.cip + 4))
  {
    hide Execute, Load, Store, Joined;
    if InData(m.data, m.stk) {
      SwapExecutes(env, m, 132, m.cip + 4);
    } else {
      SwapOutside(env, m, m.cip + 4);
    }
    ArithmeticExecutes(env, m, 81, [], m.cip + 4);
  }

  lemma SwapOutside(env: Env, m: Machine, next: int)
    requires !InData(m.data, m.stk)
    ensures Execute(env, m, 132, [], next) == Outside
  {
    hide Execute, MoveEffect, Block, Arithmetic, Load, BytesOf;
    PlainExecutes(env, m, 132, [], next);
  }

  /** The middle of a chained comparison, where the result so far is on the stack; ALT is dead. */
  lemma ChainedCompare(env: Env, m: Machine, cmp: int)
    requires IsOrder(cmp) && IsCell(m.pri)
    ensures Means(
      After(env, m, [XCHG, Line(cmp, []), SWAP_ALT, AND, POP_ALT]),
      After(env, m, [Line(Swapped(cmp), []), POP_ALT, AND]), OnlyPri, m.stk + 4, 4)
  {
    hide After, One, Load, Store, And;
    ExchangedCompare(env, m, cmp);
    Append(env, m, [XCHG, Line(cmp, [])], [SWAP_ALT, AND, POP_ALT]);
    assert [XCHG, Line(cmp, [])] + [SWAP_ALT, AND, POP_ALT] == [XCHG, Line(cmp, []), SWAP_ALT, AND, POP_ALT];
    Compares(env, m, Swapped(cmp));
    First(env, m, Line(Swapped(cmp), []), [POP_ALT, AND]);
    assert [Line(Swapped(cmp), [])] + [POP_ALT, AND] == [Line(Swapped(cmp), []), POP_ALT, AND];
    var f := if Holds(Swapped(cmp), m.pri, m.alt) then 1 else 0;
    SwapAndPop(env, m.(pri := f, alt := m.pri, cip := m.cip + 8));
    PopAndAnd(env, m.(pri := f, cip := m.cip + 4));
    if InData(m.data, m.stk) {
      PushedMemory(m.data, m.stk, m.pri);
    }
  }

  lemma ExchangedCompare(env: Env, m: Machine, cmp: int)
    requires IsOrder(cmp)
    ensures After(env, m, [XCHG, Line(cmp, [])]) ==
      Goes(m.(pri := if Holds(Swapped(cmp), m.pri, m.alt) then 1 else 0, alt := m.pri, cip := m.cip + 8))
  {
    hide One;
    Moves(env, m);
    First(env, m, XCHG, [Line(cmp, [])]);
    var n := m.(pri := m.alt, alt := m.pri, cip := m.cip + 4);
    Compares(env, n, cmp);
    Last(env, n, Line(cmp, []));
  }

  lemma SwapAndPop(env: Env, m: Machine)
    requires IsCell(m.alt)
    ensures After(env, m, [SWAP_ALT, AND, POP_ALT]) ==
      if !InData(m.data, m.stk) then Outside
      else Goes(m.(pri := And(m.pri, Load(m.data, m.stk)), stk := m.stk + 4,
                   data := Store(m.data, m.stk, m.alt), cip := m.cip + 12))
  {
    hide One, Load, Store, And;
    Swaps(env, m);
    First(env, m, SWAP_ALT, [AND, POP_ALT]);
    if InData(m.data, m.stk) {
      var n := m.(alt := Load(m.data, m.stk), data := Store(m.data, m.stk, m.alt), cip := m.cip + 4);
      Swaps(env, n);
      First(env, n, AND, [POP_ALT]);
      var k := n.(pri := And(n.pri, n.alt), cip := n.cip + 4);
      PushesAndPops(env, k);
      Last(env, k, POP_ALT);
      PushedMemory(m.data, m.stk, m.alt);
    }
  }

  lemma PopAndAnd(env: Env, m: Machine)
    ensures After(env, m, [POP_ALT, AND]) ==
      if !InData(m.data, m.stk) then Outside
      else
        var v := Load(m.data, m.stk);
        Goes(m.(pri := And(m.pri, v), alt := v, stk := m.stk + 4, cip := m.cip + 8))
  {
    hide One, Load, Store, And;
    PushesAndPops(env, m);
    First(env, m, POP_ALT, [AND]);
    if InData(m.data, m.stk) {
      var n := m.(alt := Load(m.data, m.stk), stk := m.stk + 4, cip := m.cip + 4);
      Swaps(env, n);
      Last(env, n, AND);
    }
  }
}
