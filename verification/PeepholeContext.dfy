/** A rewrite rule applied in the middle of a block. */
module PeepholeContext {
  import opened AmxAlu
  import opened AmxMachine
  import opened AmxMemory
  import opened AmxOpcodes
  import opened Peephole
  import Sw = AmxSwitch

  /** The instructions that do not look at the instruction pointer. */
  predicate IsPlaceFree(op: int) {
    op !in {31, 49, 50, 52, 122, 123, 135}
  }

  predicate ArePlaceFree(lines: seq<Line>) {
    forall l :: l in lines ==> IsPlaceFree(l.op)
  }

  /** An outcome without the instruction pointer. */
  function Placeless(o: Outcome): Outcome {
    match o
    case Goes(n) => Goes(n.(cip := 0))
    case Sleeps(awake, saved, ret) => Sleeps(awake.(cip := 0), saved.(cip := 0), ret)
    case Ends(err, ret, last) => Ends(err, ret, last.(cip := 0))
    case Leaves(err, last) => Leaves(err, last.(cip := 0))
    case Outside => Outside
  }

  /** The parts of an effect read the registers and the memory only. */
  lemma AccessIsPlaceFree(env: Env, m: Machine, c: int)
    ensures
      var n := m.(cip := c);
      && (forall a :: ToPri(n, a) == ToPri(m, a)) && (forall a :: ToAlt(n, a) == ToAlt(m, a))
      && (forall a, v :: ToCell(n, a, v) == ToCell(m, a, v))
      && (forall a, v :: AddToCell(n, a, v) == AddToCell(m, a, v))
      && (forall a :: ViaPointer(n, a) == ViaPointer(m, a)) && (forall a :: IsHole(env, n, a) == IsHole(env, m, a))
      && (forall a :: EndsInHole(env, n, a) == EndsInHole(env, m, a))
      && (forall a :: LoadBytes(n, a) == LoadBytes(m, a)) && (forall a :: StoreBytes(n, a) == StoreBytes(m, a))
      && (forall op, a :: Arithmetic(n, op, a) == Arithmetic(m, op, a))
  {
    hide Load, BytesOf, Compute;
  }

  lemma MoveIsPlaceFree(env: Env, m: Machine, c: int, op: int, a: int)
    requires op != 31
    ensures MoveEffect(env, m.(cip := c), op, a) == MoveEffect(env, m, op, a)
  {
    hide ToPri, ToAlt, ToCell, ViaPointer, IsHole, LoadBytes, StoreBytes, Arithmetic, Control, Wrap, ShiftLeft;
    AccessIsPlaceFree(env, m, c);
  }

  lemma CellIsPlaceFree(env: Env, m: Machine, c: int, op: int, a: int, b: int)
    ensures CellEffect(env, m.(cip := c), op, a, b) == CellEffect(env, m, op, a, b)
    ensures Block(env, m.(cip := c), op, a) == Block(env, m, op, a)
  {
    hide ToCell, AddToCell, IsHole, EndsInHole, Arithmetic, Load, BytesOf, Repeated, Unsigned;
    AccessIsPlaceFree(env, m, c);
  }

  lemma EffectIsPlaceFree(env: Env, m: Machine, c: int, op: int, a: int, b: int)
    requires op != 31
    ensures EffectOf(env, m.(cip := c), op, a, b) == EffectOf(env, m, op, a, b)
  {
    hide MoveEffect, CellEffect, Block;
    MoveIsPlaceFree(env, m, c, op, a);
    CellIsPlaceFree(env, m, c, op, a, b);
  }

  /** So does what happens on the stack. */
  lemma StackIsPlaceFree(env: Env, m: Machine, c: int, a: int, next: int, next': int)
    ensures
      var n := m.(cip := c);
      && Placeless(Pop(n, a == 0, next')) == Placeless(Pop(m, a == 0, next))
      && Placeless(Stack(env, n, a, next')) == Placeless(Stack(env, m, a, next))
      && Placeless(Heap(env, n, a, next')) == Placeless(Heap(env, m, a, next))
      && Placeless(Proc(n, next')) == Placeless(Proc(m, next))
      && Placeless(Halt(n, a, next')) == Placeless(Halt(m, a, next))
      && Placeless(Goes(SetControl(n, a, next'))) == Placeless(Goes(SetControl(m, a, next)))
  {
    hide Load, Store;
  }

  lemma FlowIsPlaceFree(env: Env, m: Machine, c: int, a: int, b: bool, e: Effect, next: int, next': int)
    ensures
      var n := m.(cip := c);
      && Placeless(Return(env, n, b)) == Placeless(Return(env, m, b))
      && Placeless(SwitchTo(env, n, a)) == Placeless(SwitchTo(env, m, a))
      && Placeless(Apply(n, e, next')) == Placeless(Apply(m, e, next))
  {
    hide Load, Overwrite, Sw.Selected, Sw.IsTable;
  }

  lemma PushIsPlaceFree(m: Machine, c: int, v: int, next: int, next': int)
    ensures Placeless(GoesTo(Push(m.(cip := c), v), next')) == Placeless(GoesTo(Push(m, v), next))
  {
    hide Store;
  }

  lemma PlaceFreeExecutes(env: Env, m: Machine, c: int, op: int, operands: seq<int>, next: int, next': int)
    requires IsPlaceFree(op)
    ensures
      Placeless(Execute(env, m.(cip := c), op, operands, next')) == Placeless(Execute(env, m, op, operands, next))
  {
    hide EffectOf, Taken, PushAll, Push, Pop, Stack, Heap, Proc, Return, Halt, SetControl, SwitchTo, Apply, Sysreq;
    var a := if operands == [] then 0 else operands[0];
    var b := if |operands| < 2 then 0 else operands[1];
    if op == 36 || op == 37 {
      PushIsPlaceFree(m, c, if op == 36 then m.pri else m.alt, next, next');
    } else if op == 38 {
      if a >= 0 {
        PushNowhere(m, Constant, Copies(m.pri, a), c);
      }
    } else if PushSource(op).Some? {
      PushNowhere(m, PushSource(op).value, operands, c);
    } else if op == 32 || op == 120 || 42 <= op <= 46 {
      StackIsPlaceFree(env, m, c, if op == 42 then 0 else if op == 43 then 1 else a, next, next');
    } else if !(51 <= op <= 64 || op == 128) {
      EffectIsPlaceFree(env, m, c, op, a, b);
      FlowIsPlaceFree(env, m, c, a, op == 48, EffectOf(env, m, op, a, b), next, next');
    }
  }

  /** What a block does from a state does not depend on where it stands. */
  lemma {:induction false} PlaceFreeBlock(env: Env, m: Machine, n: Machine, lines: seq<Line>)
    requires ArePlaceFree(lines) && m.(cip := 0) == n.(cip := 0)
    ensures Placeless(After(env, m, lines)) == Placeless(After(env, n, lines))
    decreases |lines|
  {
    hide Execute;
    if lines != [] {
      var l := lines[0];
      assert l in lines && n == m.(cip := n.cip);
      PlaceFreeExecutes(env, m, n.cip, l.op, l.operands, m.cip + 4 + 4 * |l.operands|, n.cip + 4 + 4 * |l.operands|);
      var o, p := One(env, m, l), One(env, n, l);
      if o.Goes? {
        PlaceFreeBlock(env, o.next, p.next, lines[1..]);
      }
    }
  }

  lemma MeansSame(o: Outcome, p: Outcome, top: int)
    requires Placeless(o) == Placeless(p)
    ensures Means(o, p, Both, top, 0)
  {}

  lemma ExactMeans(o: Outcome, p: Outcome, top: int, top': int)
    requires Means(o, p, Both, top, 0)
    ensures o.Goes? ==> p.Goes? && o.next.(cip := 0) == p.next.(cip := 0)
    ensures Means(o, p, Both, top', 0)
  {
    if o.Goes? {
      assert p.next.data == o.next.data;
    } else if o.Ends? {
      assert p.last.data == o.last.data;
    }
  }

  /**
    A rule that gives up no register and leaves nothing below the stack may be applied in the middle of
    any block whose rest does not look at where it stands: the whole block means the same.
    */
  lemma RewriteInBlock(env: Env, m: Machine, front: seq<Line>, from: seq<Line>, to: seq<Line>, rest: seq<Line>)
    requires ArePlaceFree(rest)
    requires
      var o := After(env, m, front);
      o.Goes? ==> Means(After(env, o.next, from), After(env, o.next, to), Both, o.next.stk, 0)
    ensures Means(After(env, m, front + from + rest), After(env, m, front + to + rest), Both, m.stk, 0)
  {
    hide After, Means;
    var o := After(env, m, front);
    Append(env, m, front, from);
    Append(env, m, front, to);
    Append(env, m, front + from, rest);
    Append(env, m, front + to, rest);
    if o.Goes? {
      var p, q := After(env, o.next, from), After(env, o.next, to);
      ExactMeans(p, q, o.next.stk, m.stk);
      if p.Goes? {
        PlaceFreeBlock(env, p.next, q.next, rest);
        MeansSame(After(env, p.next, rest), After(env, q.next, rest), m.stk);
      } else {
        StoppedMeans(p, q, After(env, m, front + to + rest), m.stk);
      }
    } else {
      MeansSame(o, o, m.stk);
    }
  }

  /** If the original stops, the replacement stops alike, or nothing is claimed. */
  lemma StoppedMeans(p: Outcome, q: Outcome, r: Outcome, top: int)
    requires !p.Goes? && Means(p, q, Both, top, 0) && (!q.Goes? ==> r == q)
    ensures Means(p, r, Both, top, 0)
  {}
}
