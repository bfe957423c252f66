/**
  The chain of saved frames on the stack. A call pushes a return address, PROC pushes the frame of
  the caller; a model of the calls under way says what the interpreter must find there.
  */
module AmxFrames {
  import opened AmxCode
  import opened AmxMachine
  import opened AmxMemory
  import opened Words

  const PROC := 46
  const RET := 47
  const RETN := 48
  const CALL := 49

  /** A call under way: saved frame at `base`, return address and size of the parameters above it. */
  datatype Frame = Frame(base: int, callerFrm: int, ret: int, args: int)

  /** The calls under way, innermost first; the first is `pending` until its PROC. */
  datatype Calls = Calls(frames: seq<Frame>, pending: bool)

  // ----- Code -----

  predicate IsTarget(code: seq<int>, v: int) {
    v % 4 == 0 && IsBoundary(Loader, code, v / 4)
  }

  lemma StartIsTarget(code: seq<int>)
    ensures IsTarget(code, 0)
  {}

  /** Every address in the code is the start of an instruction, and that of a switch a case table. */
  ghost predicate WellTargeted(code: seq<int>) {
    && (forall i :: 0 <= i < |code| && IsAddress(code, i) ==> IsTarget(code, code[i]))
    && (forall k :: 0 <= k < |code| - 1 && IsBoundary(Loader, code, k) && code[k] == SWITCH ==>
      code[k + 1] % 4 == 0 && Sw.IsTable(code, code[k + 1] / 4))
  }

  function OperandAt(env: Env, m: Machine): int {
    if m.cip >= 0 && m.cip % 4 == 0 && m.cip / 4 + 1 < |env.code| then env.code[m.cip / 4 + 1] else 0
  }

  // ----- The invariant -----

  predicate InMemory(data: seq<Byte>, f: Frame, pending: bool) {
    && 0 <= f.base + 4 && f.base + 12 <= |data|
    && Load(data, f.base + 4) == f.ret && Load(data, f.base + 8) == f.args
    && (!pending ==> 0 <= f.base && Load(data, f.base) == f.callerFrm)
  }

  /** The frames lie above each other, each where the one before says, and the last below `stp`. */
  predicate AreChained(env: Env, frames: seq<Frame>) {
    && (forall i :: 0 <= i < |frames| - 1 ==> IsAbove(frames[i], frames[i + 1]))
    && (frames != [] ==> frames[|frames| - 1].callerFrm == 0 && frames[|frames| - 1].base + 12 <= env.stp)
    && (forall i :: 0 <= i < |frames| ==> IsTarget(env.code, frames[i].ret))
  }

  predicate IsAbove(f: Frame, g: Frame) {
    f.callerFrm == g.base && f.base + 12 <= g.base
  }

  ghost predicate Linked(env: Env, m: Machine, c: Calls) {
    && IsTarget(env.code, m.cip)
    && AreChained(env, c.frames)
    && |m.data| <= 0x7fff_ffff
    && (forall i :: 0 <= i < |c.frames| ==> InMemory(m.data, c.frames[i], c.pending && i == 0))
    && (if c.frames == [] then !c.pending && m.frm == 0
        else if c.pending then m.stk == c.frames[0].base + 4 && m.frm == c.frames[0].callerFrm
        else m.frm == c.frames[0].base)
  }

  // ----- The discipline of compiled code -----

  predicate CellsKept(before: seq<Byte>, after: seq<Byte>, frames: seq<Frame>) {
    |after| == |before| && forall i :: 0 <= i < |frames| ==> CellKept(before, after, frames[i])
  }

  predicate CellKept(before: seq<Byte>, after: seq<Byte>, f: Frame) {
    && 0 <= f.base && f.base + 12 <= |before| == |after|
    && Load(after, f.base) == Load(before, f.base)
    && Load(after, f.base + 4) == Load(before, f.base + 4)
    && Load(after, f.base + 8) == Load(before, f.base + 8)
  }

  /** The state after a step of a run in which sleeping does nothing. */
  predicate Follows(env: Env, m: Machine, n: Machine) {
    var o := Step(env, m);
    o == Goes(n) || (o.Sleeps? && o.awake == n)
  }

  /**
    What a step must not do: jump to computed addresses, set the frame pointer, return with
    locals on the stack, call from above the frame, enter a function other than by a call or
    leave it without its PROC, and store into the cells of a saved frame.
    */
  predicate IsDisciplined(env: Env, m: Machine, c: Calls, n: Machine) {
    var op := OpAt(env, m);
    && (c.pending <==> op == PROC)
    && op != 50 && op != 52 && op != 128
    && (op == 32 ==> OperandAt(env, m) != 5 && OperandAt(env, m) != 6)
    && (op == CALL ==> InData(m.data, m.stk) && c.frames != [] && m.stk + 4 <= c.frames[0].base)
    && (op == RET || op == RETN ==> c.frames != [] && m.stk == m.frm)
    && (op < PROC || op > CALL ==> CellsKept(m.data, n.data, c.frames))
  }

  /** What the step does to the calls under way. */
  function Track(env: Env, m: Machine, c: Calls): Calls {
    var op := OpAt(env, m);
    if op == CALL && InData(m.data, m.stk) then
      Calls([Frame(m.stk - 8, m.frm, m.cip + 8, Load(m.data, m.stk))] + c.frames, true)
    else if op == PROC then Calls(c.frames, false)
    else if (op == RET || op == RETN) && c.frames != [] then Calls(c.frames[1..], false)
    else c
  }

  // ----- One step -----

  /** The address behind the instruction. */
  function Behind(env: Env, m: Machine): int {
    if m.cip >= 0 && m.cip / 4 < |env.code| && Length(Loader, env.code, m.cip / 4).Some?
    then m.cip + 4 * Length(Loader, env.code, m.cip / 4).value else m.cip
  }

  /** A step that goes on has fetched a whole instruction. */
  lemma Fetched(env: Env, m: Machine)
    requires IsTarget(env.code, m.cip) && (Step(env, m).Goes? || Step(env, m).Sleeps?)
    ensures m.cip >= 0 && m.cip / 4 < |env.code|
    ensures IsTarget(env.code, Behind(env, m)) && m.cip + 4 <= Behind(env, m) <= 4 * |env.code|
    ensures
      var op := env.code[m.cip / 4];
      && op == OpAt(env, m)
      && Step(env, m) == if op == SYMBOL then Goes(m.(cip := Behind(env, m)))
           else Execute(env, m, op, env.code[m.cip / 4 + 1..Behind(env, m) / 4], Behind(env, m))
    ensures InterpreterLayout(OpAt(env, m)) == Fixed(1) ==> Behind(env, m) == m.cip + 8
  {
    hide Execute, LoaderLayout, InterpreterLayout, Reaches;
    var k := m.cip / 4;
    SameLength(Interpreter, env.code, k);
    NextBoundary(Loader, env.code, k);
  }

  /** What a step that is neither a call, a PROC nor a return leaves alone. */
  lemma OtherSteps(env: Env, m: Machine, op: int, operands: seq<int>, next: int)
    requires op < PROC || op > CALL
    requires op != 50 && op != 52 && op != 128 && op != SWITCH
    requires op == 32 && operands != [] ==> operands[0] != 5 && operands[0] != 6
    requires HasTarget(op) ==> operands != []
    ensures
      var o := Execute(env, m, op, operands, next);
      && (o.Goes? ==> o.next.frm == m.frm && (o.next.cip == next || (HasTarget(op) && o.next.cip == operands[0])))
      && (o.Sleeps? ==> o.awake.frm == m.frm && o.awake.cip == next)
  {
    hide EffectOf, Taken, Load, Store, Operand, PushSource, PushAll;
  }

  /** The operand of a call, jump or switch is an address. */
  lemma OperandIsTarget(env: Env, m: Machine)
    requires WellTargeted(env.code) && IsTarget(env.code, m.cip)
    requires HasTarget(OpAt(env, m)) && m.cip >= 0 && m.cip / 4 + 1 < |env.code|
    ensures IsTarget(env.code, OperandAt(env, m))
    ensures OpAt(env, m) == SWITCH ==> Sw.IsTable(env.code, OperandAt(env, m) / 4)
  {
    hide Reaches;
    assert IsAddressOf(env.code, m.cip / 4, m.cip / 4 + 1);
  }

  lemma OtherStepKeepsFrame(env: Env, m: Machine, c: Calls, n: Machine)
    requires WellTargeted(env.code) && IsTarget(env.code, m.cip)
    requires Follows(env, m, n) && IsDisciplined(env, m, c, n)
    requires OpAt(env, m) < PROC || OpAt(env, m) > CALL
    ensures n.frm == m.frm && IsTarget(env.code, n.cip)
  {
    hide Step, Execute, Behind, IsTarget, WellTargeted, InterpreterLayout, IsDisciplined, OpAt, OperandAt;
    Fetched(env, m);
    NotAJump(env, m, c, n);
    var op, k, next := OpAt(env, m), m.cip / 4, Behind(env, m);
    var operands := env.code[k + 1..next / 4];
    OneOperand(env, m);
    if HasTarget(op) {
      OperandIsTarget(env, m);
    }
    if op == SWITCH {
      SwitchStep(env, m, operands, next);
    } else if op != SYMBOL {
      OtherSteps(env, m, op, operands, next);
    }
  }

  lemma NotAJump(env: Env, m: Machine, c: Calls, n: Machine)
    requires IsDisciplined(env, m, c, n)
    ensures OpAt(env, m) != 50 && OpAt(env, m) != 52 && OpAt(env, m) != 128
    ensures OpAt(env, m) == 32 ==> OperandAt(env, m) != 5 && OperandAt(env, m) != 6
  {
    hide OpAt, OperandAt, CellsKept;
  }

  /** The instructions with an address, and SCTRL, have one operand. */
  lemma OneOperand(env: Env, m: Machine)
    requires IsTarget(env.code, m.cip) && (Step(env, m).Goes? || Step(env, m).Sleeps?)
    ensures
      var op, k, next := OpAt(env, m), m.cip / 4, Behind(env, m);
      HasTarget(op) || op == 32 ==>
        && 0 <= m.cip && k + 1 < |env.code| && next == m.cip + 8
        && env.code[k + 1..next / 4] == [OperandAt(env, m)]
  {
    hide Step, Behind;
    Fetched(env, m);
  }

  lemma SwitchStep(env: Env, m: Machine, operands: seq<int>, next: int)
    requires WellTargeted(env.code) && operands == [OperandAt(env, m)]
    requires IsTarget(env.code, operands[0]) && Sw.IsTable(env.code, operands[0] / 4)
    ensures
      var o := Execute(env, m, SWITCH, operands, next);
      o.Goes? && o.next.frm == m.frm && IsTarget(env.code, o.next.cip)
  {
    hide Reaches, IsAddress, EffectOf, Taken, Load, Store, Operand, PushAll;
    Sw.SelectedIsAddress(env.code, operands[0] / 4, m.pri);
  }

  lemma StoreBelowFrame(data: seq<Byte>, at: int, v: int, f: Frame)
    requires InData(data, at) && InMemory(data, f, false) && at + 4 <= f.base
    ensures InMemory(Store(data, at, v), f, false)
  {
    hide Load;
    LoadElsewhere(data, at, BytesOf(v), f.base);
    LoadElsewhere(data, at, BytesOf(v), f.base + 4);
    LoadElsewhere(data, at, BytesOf(v), f.base + 8);
  }

  /** A store below all frames leaves their cells alone. */
  lemma StoreBelow(env: Env, data: seq<Byte>, at: int, v: int, frames: seq<Frame>)
    requires InData(data, at) && AreChained(env, frames)
    requires frames != [] ==> at + 4 <= frames[0].base
    requires forall i :: 0 <= i < |frames| ==> InMemory(data, frames[i], false)
    ensures forall i :: 0 <= i < |frames| ==> InMemory(Store(data, at, v), frames[i], false)
  {
    hide IsTarget, InMemory;
    forall i | 0 <= i < |frames|
      ensures InMemory(Store(data, at, v), frames[i], false)
    {
      FirstIsLowest(env, frames, i);
      StoreBelowFrame(data, at, v, frames[i]);
    }
  }

  lemma {:induction false} FirstIsLowest(env: Env, frames: seq<Frame>, i: nat)
    requires AreChained(env, frames) && i < |frames|
    ensures frames[0].base + 12 * i <= frames[i].base
  {
    if i > 0 {
      FirstIsLowest(env, frames, i - 1);
      assert IsAbove(frames[i - 1], frames[i]);
    }
  }

  function Called(env: Env, m: Machine): Machine
    requires InData(m.data, m.stk - 4)
  {
    m.(stk := m.stk - 4, data := Store(m.data, m.stk - 4, m.cip + 8), cip := OperandAt(env, m))
  }

  lemma CallExecutes(env: Env, m: Machine, n: Machine)
    requires IsTarget(env.code, m.cip) && Follows(env, m, n) && OpAt(env, m) == CALL
    ensures InData(m.data, m.stk - 4) && n == Called(env, m)
    ensures m.cip >= 0 && m.cip + 8 <= 4 * |env.code| && IsTarget(env.code, m.cip + 8)
  {
    hide Step, Behind, IsTarget, Load, Store, InterpreterLayout;
    Fetched(env, m);
    OneOperand(env, m);
  }

  lemma CallStep(env: Env, m: Machine, c: Calls, n: Machine)
    requires WellTargeted(env.code) && Linked(env, m, c) && 4 * |env.code| <= 0x7fff_ffff
    requires Follows(env, m, n) && IsDisciplined(env, m, c, n) && OpAt(env, m) == CALL
    ensures Linked(env, n, Track(env, m, c))
    ensures n.stk == m.stk - 4 && n.frm == m.frm
  {
    hide Step, Follows, IsTarget, WellTargeted, Load, Store, OperandAt, OpAt;
    CallExecutes(env, m, n);
    OperandIsTarget(env, m);
    var frames := Track(env, m, c).frames;
    var ret := m.cip + 8;
    LoadStored(m.data, m.stk - 4, ret);
    LoadBeside(m.data, m.stk - 4, ret, m.stk);
    StoreBelow(env, m.data, m.stk - 4, ret, c.frames);
    NewFrameLinks(env, n, frames, c.frames);
  }

  lemma NewFrameLinks(env: Env, n: Machine, frames: seq<Frame>, below: seq<Frame>)
    requires AreChained(env, below) && below != [] && |frames| == |below| + 1 && frames[1..] == below
    requires forall i :: 0 <= i < |below| ==> InMemory(n.data, below[i], false)
    requires IsAbove(frames[0], below[0]) && IsTarget(env.code, frames[0].ret)
    requires InMemory(n.data, frames[0], true)
    ensures AreChained(env, frames)
    ensures forall i :: 0 <= i < |frames| ==> InMemory(n.data, frames[i], true && i == 0)
  {
    hide IsTarget, InMemory, IsAbove;
    assert forall i :: 1 <= i < |frames| ==> frames[i] == below[i - 1];
  }

  function Framed(env: Env, m: Machine): Machine
    requires InData(m.data, m.stk - 4)
  {
    m.(stk := m.stk - 4, frm := m.stk - 4, data := Store(m.data, m.stk - 4, m.frm), cip := Behind(env, m))
  }

  lemma ProcExecutes(env: Env, m: Machine, n: Machine)
    requires IsTarget(env.code, m.cip) && Follows(env, m, n) && OpAt(env, m) == PROC
    ensures InData(m.data, m.stk - 4) && n == Framed(env, m)
    ensures IsTarget(env.code, n.cip)
  {
    hide Step, Behind, IsTarget, Load, Store, InterpreterLayout;
    Fetched(env, m);
  }

  lemma ProcStep(env: Env, m: Machine, c: Calls, n: Machine)
    requires Linked(env, m, c)
    requires Follows(env, m, n) && IsDisciplined(env, m, c, n) && OpAt(env, m) == PROC
    ensures Linked(env, n, Track(env, m, c))
    ensures n.frm == n.stk == c.frames[0].base
  {
    hide Step, Follows, Behind, IsTarget, Load, Store, OpAt;
    ProcExecutes(env, m, n);
    var f := c.frames[0];
    LoadStored(m.data, f.base, m.frm);
    LoadBeside(m.data, f.base, m.frm, f.base + 4);
    LoadBeside(m.data, f.base, m.frm, f.base + 8);
    CallerIsCell(env, m, c);
    RestIsChained(env, c.frames);
    assert |c.frames| > 1 ==> IsAbove(c.frames[0], c.frames[1]);
    RestInMemory(m.data, c.frames, true);
    StoreBelow(env, m.data, f.base, m.frm, c.frames[1..]);
    FirstAndRest(n.data, c.frames);
  }

  lemma CallerIsCell(env: Env, m: Machine, c: Calls)
    requires Linked(env, m, c) && c.pending
    ensures IsCell(m.frm)
  {
    if |c.frames| > 1 {
      assert IsAbove(c.frames[0], c.frames[1]);
      assert InMemory(m.data, c.frames[1], false);
    }
  }

  lemma RestInMemory(data: seq<Byte>, frames: seq<Frame>, pending: bool)
    requires frames != [] && forall i :: 0 <= i < |frames| ==> InMemory(data, frames[i], pending && i == 0)
    ensures forall i :: 0 <= i < |frames[1..]| ==> InMemory(data, frames[1..][i], false)
  {
    hide InMemory;
    forall i | 0 <= i < |frames[1..]|
      ensures InMemory(data, frames[1..][i], false)
    {
      assert InMemory(data, frames[i + 1], pending && i + 1 == 0);
    }
  }

  lemma FirstAndRest(data: seq<Byte>, frames: seq<Frame>)
    requires frames != [] && InMemory(data, frames[0], false)
    requires forall i :: 0 <= i < |frames[1..]| ==> InMemory(data, frames[1..][i], false)
    ensures forall i :: 0 <= i < |frames| ==> InMemory(data, frames[i], false)
  {
    hide InMemory;
    assert forall i :: 1 <= i < |frames| ==> frames[i] == frames[1..][i - 1];
  }

  lemma RestIsChained(env: Env, frames: seq<Frame>)
    requires AreChained(env, frames) && frames != []
    ensures AreChained(env, frames[1..])
  {
    forall i | 0 <= i < |frames[1..]| - 1
      ensures IsAbove(frames[1..][i], frames[1..][i + 1])
    {
      assert IsAbove(frames[i + 1], frames[i + 2]);
    }
  }

  /** A return gives the caller its frame and return address back, RETN also drops the parameters. */
  lemma ReturnStep(env: Env, m: Machine, c: Calls, n: Machine)
    requires Linked(env, m, c)
    requires Follows(env, m, n) && IsDisciplined(env, m, c, n) && (OpAt(env, m) == RET || OpAt(env, m) == RETN)
    ensures Linked(env, n, Track(env, m, c))
    ensures n.frm == c.frames[0].callerFrm && n.cip == c.frames[0].ret
    ensures n.stk == c.frames[0].base + 8 + if OpAt(env, m) == RETN then 4 + c.frames[0].args else 0
  {
    hide Step, Follows, Load, IsTarget, OpAt;
    ReturnExecutes(env, m, n);
    var f := c.frames[0];
    RestIsChained(env, c.frames);
    RestInMemory(m.data, c.frames, false);
    assert |c.frames| > 1 ==> IsAbove(c.frames[0], c.frames[1]);
  }

  lemma ReturnExecutes(env: Env, m: Machine, n: Machine)
    requires IsTarget(env.code, m.cip) && Follows(env, m, n) && (OpAt(env, m) == RET || OpAt(env, m) == RETN)
    ensures InData(m.data, m.stk) && InData(m.data, m.stk + 4)
    ensures n.frm == Load(m.data, m.stk) && n.cip == Load(m.data, m.stk + 4) && n.data == m.data
    ensures OpAt(env, m) == RET ==> n.stk == m.stk + 8
    ensures OpAt(env, m) == RETN ==> InData(m.data, m.stk + 8) && n.stk == m.stk + 12 + Load(m.data, m.stk + 8)
  {
    hide Step, Behind, IsTarget, Load, Store, InterpreterLayout;
    Fetched(env, m);
  }

  lemma OtherStep(env: Env, m: Machine, c: Calls, n: Machine)
    requires WellTargeted(env.code) && Linked(env, m, c)
    requires Follows(env, m, n) && IsDisciplined(env, m, c, n)
    requires OpAt(env, m) < PROC || OpAt(env, m) > CALL
    ensures Linked(env, n, Track(env, m, c))
  {
    hide Step, Follows, IsTarget, WellTargeted, Load, OpAt;
    OtherStepKeepsFrame(env, m, c, n);
    forall i | 0 <= i < |c.frames|
      ensures InMemory(n.data, c.frames[i], false)
    {
      assert CellKept(m.data, n.data, c.frames[i]);
    }
  }

  /** Every disciplined step keeps the chain, and ends at the start of an instruction. */
  lemma StepKeepsChain(env: Env, m: Machine, c: Calls, n: Machine)
    requires WellTargeted(env.code) && Linked(env, m, c) && 4 * |env.code| <= 0x7fff_ffff
    requires Follows(env, m, n) && IsDisciplined(env, m, c, n)
    ensures Linked(env, n, Track(env, m, c))
  {
    hide Step, Follows, IsDisciplined, Linked, WellTargeted, Track;
    var op := OpAt(env, m);
    if op == CALL {
      CallStep(env, m, c, n);
    } else if op == PROC {
      ProcStep(env, m, c, n);
    } else if op == RET || op == RETN {
      ReturnStep(env, m, c, n);
    } else {
      OtherStep(env, m, c, n);
    }
  }
}
