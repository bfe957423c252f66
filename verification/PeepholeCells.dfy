/** Rewrite rules for cells in memory, locals and natives, and the macro instructions. */
module PeepholeCells {
  import opened AmxMachine
  import opened AmxMemory
  import opened AmxOpcodes
  import opened Peephole
  import opened PeepholeSums

  // ----- Cells in memory -----

  function Inc(local: bool, down: bool, a: int): Line {
    Line(if down then (if local then 115 else 114) else if local then 110 else 109, [a])
  }

  function Zero(local: bool, a: int): Line { Line(if local then 92 else 91, [a]) }

  function Stor(local: bool, a: int): Line { Line(if local then 17 else 15, [a]) }

  function PlaceOf(m: Machine, local: bool, a: int): int { if local then m.frm + a else a }

  lemma CellsChange(env: Env, m: Machine, local: bool, down: bool, a: int)
    ensures
      var at := PlaceOf(m, local, a);
      && One(env, m, Inc(local, down, a)) == (if !InData(m.data, at) then Outside
           else Goes(m.(data := Store(m.data, at, Load(m.data, at) + if down then -1 else 1), cip := m.cip + 8)))
      && One(env, m, Zero(local, a)) == (if !InData(m.data, at) then Outside
           else Goes(m.(data := Store(m.data, at, 0), cip := m.cip + 8)))
      && One(env, m, Stor(local, a)) == (if !InData(m.data, at) then Outside
           else Goes(m.(data := Store(m.data, at, m.pri), cip := m.cip + 8)))
  {
    hide Execute, Load, Store;
    var next := m.cip + 8;
    CellExecutes(env, m, Inc(local, down, a).op, [a], next);
    CellExecutes(env, m, Zero(local, a).op, [a], next);
    StoreExecutes(env, m, Stor(local, a).op, a, next);
    CellOutside(env, m, Inc(local, down, a).op, a, next);
    CellOutside(env, m, Zero(local, a).op, a, next);
    CellOutside(env, m, Stor(local, a).op, a, next);
  }

  lemma CellOutside(env: Env, m: Machine, op: int, a: int, next: int)
    requires op in {15, 17, 91, 92, 109, 110, 114, 115}
    ensures
      var at := if op in {17, 92, 110, 115} then m.frm + a else a;
      !InData(m.data, at) ==> Execute(env, m, op, [a], next) == Outside
  {
    hide Execute, Wrap, Block, Arithmetic, Control, Load, BytesOf, LoadBytes, StoreBytes, IsHole;
    PlainExecutes(env, m, op, [a], next);
  }

  /** Counting up or down, where the value itself is not used; PRI is dead. */
  lemma IncAndLoad(env: Env, m: Machine, local: bool, down: bool, a: int)
    ensures
      var load, inc := ToPriOf(if local then Local else Global, a), Inc(local, down, a);
      var p := After(env, m, [inc]);
      && Means(After(env, m, [inc, load]), p, OnlyAlt, m.stk, 0)
      && Means(After(env, m, [load, inc]), p, OnlyAlt, m.stk, 0)
  {
    hide One, ToPriOf, Load, Store;
    var load, inc := ToPriOf(if local then Local else Global, a), Inc(local, down, a);
    var at := PlaceOf(m, local, a);
    CellsChange(env, m, local, down, a);
    Loads(env, m, if local then Local else Global, a);
    Last(env, m, inc);
    First(env, m, inc, [load]);
    First(env, m, load, [inc]);
    if InData(m.data, at) {
      var v := Load(m.data, at) + if down then -1 else 1;
      var n, k := m.(data := Store(m.data, at, v), cip := m.cip + 8), m.(pri := Load(m.data, at), cip := m.cip + 8);
      Loads(env, n, if local then Local else Global, a);
      Last(env, n, load);
      CellsChange(env, k, local, down, a);
      Last(env, k, inc);
    }
  }

  /** Storing zero; PRI is dead. */
  lemma ZeroAndStore(env: Env, m: Machine, local: bool, a: int)
    ensures
      var p := After(env, m, [Zero(local, a)]);
      && Means(After(env, m, [ToPriOf(Constant, 0), Stor(local, a)]), p, OnlyAlt, m.stk, 0)
      && Means(After(env, m, [Line(89, []), Stor(local, a)]), p, OnlyAlt, m.stk, 0)
  {
    hide One, Load, Store;
    CellsChange(env, m, local, false, a);
    Last(env, m, Zero(local, a));
    Zeroes(env, m);
    Loads(env, m, Constant, 0);
    First(env, m, ToPriOf(Constant, 0), [Stor(local, a)]);
    First(env, m, Line(89, []), [Stor(local, a)]);
    var n, k := m.(pri := 0, cip := m.cip + 8), m.(pri := 0, cip := m.cip + 4);
    CellsChange(env, n, local, false, a);
    CellsChange(env, k, local, false, a);
    Last(env, n, Stor(local, a));
    Last(env, k, Stor(local, a));
  }

  /** Loading zero. */
  lemma ConstantZero(env: Env, m: Machine)
    ensures Means(After(env, m, [ToPriOf(Constant, 0)]), After(env, m, [Line(89, [])]), Both, m.stk, 0)
    ensures Means(After(env, m, [ToAltOf(Constant, 0)]), After(env, m, [Line(90, [])]), Both, m.stk, 0)
  {
    hide One;
    Zeroes(env, m);
    Loads(env, m, Constant, 0);
    Last(env, m, ToPriOf(Constant, 0));
    Last(env, m, ToAltOf(Constant, 0));
    Last(env, m, Line(89, []));
    Last(env, m, Line(90, []));
  }

  // ----- Macro instructions -----

  /**
    A constant that is stored. The replacement does not load PRI, and no marker says that PRI is dead:
    PRI is the same exactly if it was the constant before.
    */
  lemma StoreConstant(env: Env, m: Machine, local: bool, c: int, a: int)
    ensures
      var o := After(env, m, [ToPriOf(Constant, c), Stor(local, a)]);
      var p := After(env, m, [Line(if local then 157 else 156, [a, c])]);
      && Means(o, p, OnlyAlt, m.stk, 0)
      && (InData(m.data, PlaceOf(m, local, a)) ==> (Means(o, p, Both, m.stk, 0) <==> m.pri == c))
  {
    hide One, Load, Store;
    Loads(env, m, Constant, c);
    First(env, m, ToPriOf(Constant, c), [Stor(local, a)]);
    var n := m.(pri := c, cip := m.cip + 8);
    CellsChange(env, n, local, false, a);
    Last(env, n, Stor(local, a));
    Last(env, m, Line(if local then 157 else 156, [a, c]));
    Pairs(env, m, if local then 157 else 156, a, c);
  }

  lemma Pairs(env: Env, m: Machine, op: int, a: int, b: int)
    requires 154 <= op <= 157
    ensures
      var at, bt := PlaceOf(m, op % 2 == 1, a), PlaceOf(m, op % 2 == 1, b);
      && (op <= 155 && InData(m.data, at) && InData(m.data, bt) ==>
           One(env, m, Line(op, [a, b])) ==
             Goes(m.(pri := Load(m.data, at), alt := Load(m.data, bt), cip := m.cip + 12)))
      && (op >= 156 && InData(m.data, at) ==>
           One(env, m, Line(op, [a, b])) == Goes(m.(data := Store(m.data, at, b), cip := m.cip + 12)))
  {
    hide Execute, Load, Store;
    PairExecutes(env, m, op, a, b, m.cip + 12);
  }

  /** Both registers at once, in either order. */
  lemma LoadBoth(env: Env, m: Machine, local: bool, a: int, b: int)
    ensures
      var s := if local then Local else Global;
      var p := After(env, m, [Line(if local then 155 else 154, [a, b])]);
      && Means(After(env, m, [ToPriOf(s, a), ToAltOf(s, b)]), p, Both, m.stk, 0)
      && Means(After(env, m, [ToAltOf(s, b), ToPriOf(s, a)]), p, Both, m.stk, 0)
  {
    hide One, ToPriOf, ToAltOf, Load;
    TwoLoads(env, m, if local then Local else Global, b, if local then Local else Global, a);
    Pairs(env, m, if local then 155 else 154, a, b);
    Last(env, m, Line(if local then 155 else 154, [a, b]));
  }

  /** PUSH2 to PUSH5 of operands of one kind. */
  function PushMany(s: Source, operands: seq<int>): Line
    requires 1 <= |operands| <= 5
  {
    if |operands| == 1 then PushOf(s, operands[0])
    else
      Line(4 * |operands| + match s { case Constant => 130 case Global => 131 case Local => 132 case Address => 133 },
        operands)
  }

  function PushEach(s: Source, operands: seq<int>): seq<Line> {
    if operands == [] then [] else [PushOf(s, operands[0])] + PushEach(s, operands[1..])
  }

  /** One instruction for up to five pushes. */
  lemma {:induction false} PushesJoin(env: Env, m: Machine, s: Source, operands: seq<int>)
    requires 1 <= |operands| <= 5
    ensures
      var o, p := After(env, m, PushEach(s, operands)), One(env, m, PushMany(s, operands));
      o.Goes? ==> p.Goes? && o.next.(cip := 0) == p.next.(cip := 0)
    decreases |operands|
  {
    hide One, PushOf;
    var a, rest := operands[0], operands[1..];
    First(env, m, PushOf(s, a), PushEach(s, rest));
    assert [a] + rest == operands;
    if rest == [] {
      Nothing(env, One(env, m, PushOf(s, a)));
    } else if One(env, m, PushOf(s, a)).Goes? {
      var n := One(env, m, PushOf(s, a)).next;
      PushesJoin(env, n, s, rest);
      JoinedPush(env, m, s, a, rest);
    }
  }

  lemma Nothing(env: Env, o: Outcome)
    ensures o.Goes? ==> After(env, o.next, []) == o
  {}

  lemma JoinedPush(env: Env, m: Machine, s: Source, a: int, rest: seq<int>)
    requires 1 <= |rest| <= 4 && One(env, m, PushOf(s, a)).Goes?
    ensures
      var o, p := One(env, One(env, m, PushOf(s, a)).next, PushMany(s, rest)), One(env, m, PushMany(s, [a] + rest));
      o.Goes? ==> p.Goes? && o.next.(cip := 0) == p.next.(cip := 0)
  {
    hide Execute;
    var many, fewer := PushMany(s, [a] + rest), PushMany(s, rest);
    var next := m.cip + 4 + 4 * (|rest| + 1);
    assert fewer == Line(fewer.op, rest) && PushOf(s, a) == Line(SinglePush(many.op), [a]);
    assert fewer.op == if many.op < 142 then SinglePush(many.op) else many.op - 4;
    PushManyExecutes(env, m, many.op, a, rest, next);
    var n := One(env, m, PushOf(s, a)).next;
    PushIgnoresPlace(env, m, PushOf(s, a).op, [a], m.cip + 8, next);
    var k := Execute(env, m, PushOf(s, a).op, [a], next).next;
    PushIgnoresPlace(env, k, fewer.op, rest, next, n.cip + 4 + 4 * |rest|);
    PushFromAnywhere(env, k, n, fewer.op, rest, n.cip + 4 + 4 * |rest|);
  }

  predicate IsPush(op: int) { 39 <= op <= 41 || op == 133 || 138 <= op <= 153 }

  /** Only the instruction pointer depends on where a push stands. */
  lemma PushIgnoresPlace(env: Env, m: Machine, op: int, operands: seq<int>, next: int, next': int)
    requires IsPush(op)
    ensures
      var o, p := Execute(env, m, op, operands, next), Execute(env, m, op, operands, next');
      if o.Goes? then p == Goes(o.next.(cip := next')) else p == o
  {
    hide EffectOf, Apply, PushAll, Pop, Stack, Heap, Proc, Return, Halt, Sysreq, SwitchTo, SetControl, Taken;
  }

  lemma PushFromAnywhere(env: Env, m: Machine, n: Machine, op: int, operands: seq<int>, next: int)
    requires IsPush(op) && n == m.(cip := n.cip)
    ensures Execute(env, m, op, operands, next) == Execute(env, n, op, operands, next)
  {
    hide EffectOf, Apply, PushAll, Pop, Stack, Heap, Proc, Return, Halt, Sysreq, SwitchTo, SetControl, Taken;
    PushNowhere(m, PushSource(op).value, operands, n.cip);
  }

  /** Both registers loaded and pushed. */
  lemma LoadBothPushPush(env: Env, m: Machine, local: bool, a: int, b: int)
    requires IsSound(m, if local then Local else Global, a) && IsSound(m, if local then Local else Global, b)
    requires InData(m.data, PlaceOf(m, local, a)) && InData(m.data, PlaceOf(m, local, b))
    ensures
      var s := if local then Local else Global;
      Means(
        After(env, m, [Line(if local then 155 else 154, [a, b]), PUSH_PRI, PUSH_ALT]),
        After(env, m, [PushMany(s, [a, b])]), Neither, m.stk, 0)
  {
    hide After, One, PushOf, Load, Store;
    var s, both := if local then Local else Global, Line(if local then 155 else 154, [a, b]);
    Pairs(env, m, both.op, a, b);
    First(env, m, both, [PUSH_PRI, PUSH_ALT]);
    assert [both] + [PUSH_PRI, PUSH_ALT] == [both, PUSH_PRI, PUSH_ALT];
    BothPushed(env, One(env, m, both).next);
    TwoPushes(env, m, s, a, s, b);
    PushesJoin(env, m, s, [a, b]);
    TwoInARow(s, a, b);
    Last(env, m, PushMany(s, [a, b]));
  }

  lemma TwoInARow(s: Source, a: int, b: int)
    ensures PushEach(s, [a, b]) == [PushOf(s, a), PushOf(s, b)]
  {
    hide PushOf;
    assert [a, b][1..] == [b] && [b][1..] == [];
    assert PushEach(s, [b]) == [PushOf(s, b)] + PushEach(s, []);
    assert PushEach(s, [a, b]) == [PushOf(s, a)] + PushEach(s, [b]);
  }

  // ----- Locals and natives -----

  /** Making room for a local and storing its first value; both registers are dead. */
  lemma LocalDeclared(env: Env, m: Machine, c: int, at: int)
    requires m.frm + at == m.stk - 4
    ensures Means(
      After(env, m, [Line(44, [-4]), ToPriOf(Constant, c), Stor(true, at)]),
      After(env, m, [PushOf(Constant, c)]), Neither, m.stk, 0)
  {
    hide One, Store;
    Grows(env, m, -4);
    First(env, m, Line(44, [-4]), [ToPriOf(Constant, c), Stor(true, at)]);
    Pushes(env, m, Constant, c);
    Last(env, m, PushOf(Constant, c));
    if One(env, m, Line(44, [-4])).Goes? {
      var n := One(env, m, Line(44, [-4])).next;
      Loads(env, n, Constant, c);
      First(env, n, ToPriOf(Constant, c), [Stor(true, at)]);
      var k := n.(pri := c, cip := n.cip + 8);
      CellsChange(env, k, true, false, at);
      Last(env, k, Stor(true, at));
    }
  }

  lemma Grows(env: Env, m: Machine, a: int)
    ensures
      var o := One(env, m, Line(44, [a]));
      o.Goes? ==> o.next == m.(alt := m.stk, stk := m.stk + a, cip := m.cip + 8)
    ensures !One(env, m, Line(44, [a])).Ends?
  {
    hide EffectOf, Apply, Push, PushAll, Pop, Proc, Return, Halt, Sysreq, SwitchTo, SetControl, Taken;
  }

  /** The native does not look at where it is called from. */
  ghost predicate IgnoresPlace(env: Env, index: int) {
    forall v: View, cip ::
      var p, q := env.native(index, v), env.native(index, v.(cip := cip));
      p.0 == q.0 && p.1.pri == q.1.pri && p.1.paramcount == q.1.paramcount && p.1.data == q.1.data
  }

  /** Calling a native with the size of its parameters, which are taken off afterwards; ALT is dead. */
  lemma NativeCall(env: Env, m: Machine, index: int, size: int)
    requires IgnoresPlace(env, index)
    ensures Means(
      After(env, m, [PushOf(Constant, size), Line(123, [index]), Line(44, [size + 4])]),
      After(env, m, [Line(135, [index, size])]), OnlyPri, m.stk, 0)
  {
    hide One, Store, PushOf;
    Pushes(env, m, Constant, size);
    First(env, m, PushOf(Constant, size), [Line(123, [index]), Line(44, [size + 4])]);
    Last(env, m, Line(135, [index, size]));
    if InData(m.data, m.stk - 4) {
      var n := m.(stk := m.stk - 4, data := Store(m.data, m.stk - 4, size), cip := m.cip + 8);
      First(env, n, Line(123, [index]), [Line(44, [size + 4])]);
      NativesAlike(env, m, n, index, size);
      if One(env, n, Line(123, [index])).Goes? {
        var k := One(env, n, Line(123, [index])).next;
        Grows(env, k, size + 4);
        Last(env, k, Line(44, [size + 4]));
      }
    }
  }

  lemma NativesAlike(env: Env, m: Machine, n: Machine, index: int, size: int)
    requires IgnoresPlace(env, index) && InData(m.data, m.stk - 4)
    requires n == m.(stk := m.stk - 4, data := Store(m.data, m.stk - 4, size), cip := m.cip + 8)
    ensures
      var o, p := One(env, n, Line(123, [index])), One(env, m, Line(135, [index, size]));
      match o
      case Goes(k) =>
        p.Goes? && k == n.(pri := k.pri, paramcount := k.paramcount, data := k.data, cip := k.cip)
        && p.next ==
             m.(stk := m.stk + size, pri := k.pri, paramcount := k.paramcount, data := k.data, cip := p.next.cip)
      case Ends(err, ret, k) => p.Ends? && p.err == err && p.retval == ret && SameBase(k, p.last, m.stk, 0)
      case _ => true
  {
    hide Execute, Store;
    var v := View(m.pri, m.stk - 4, m.hea, m.frm, n.cip + 8, m.paramcount, n.data);
    var w := v.(cip := m.cip + 12);
    assert env.native(index, v).0 == env.native(index, w).0;
    if |env.native(index, v).1.data| == |n.data| {
      NativeExecutes(env, n, 123, [index], n.cip + 8);
      NativeWithSizeExecutes(env, m, index, size, m.cip + 12);
    } else {
      NativeOutside(env, n, index, n.cip + 8);
    }
  }

  lemma NativeOutside(env: Env, m: Machine, index: int, next: int)
    requires
      var v := View(m.pri, m.stk, m.hea, m.frm, next, m.paramcount, m.data);
      |env.native(index, v).1.data| != |m.data|
    ensures Execute(env, m, 123, [index], next) == Outside
  {
    hide EffectOf, Apply, Pop, Stack, Heap, Proc, Return, SwitchTo, SetControl, Taken, PushAll, Load, Store;
  }
}
