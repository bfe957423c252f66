/**
  Whole runs of the interpreter: entering, sleeping, being continued, and ending with the stack
  and the heap as the host expects them.
  */
module AmxRun {
  import opened AmxCode
  import opened AmxConstants
  import opened AmxMachine
  import opened AmxMemory
  import opened Words
  import opened Wrappers

  // ----- Entering -----

  /** The checks before a run, and a continued run. */
  function Continue(env: Env, m: Machine): Outcome {
    if m.stk > env.stp then Leaves(ERR_STACKLOW, m)
    else if m.hea < env.hlw then Leaves(ERR_HEAPLOW, m)
    else if MarginIsGone(m) then Leaves(ERR_STACKERR, m)
    else Goes(m)
  }

  /** Where a run starts; nothing for a bad index. */
  function Address(env: Env, index: int): Option<int> {
    if index == EXEC_MAIN then (if env.main < 0 then None else Some(env.main))
    else if index < 0 || index >= |env.publics| then None
    else Some(env.publics[index])
  }

  /** A fresh run puts the size of the parameters and a zero return address on the stack. */
  function Begin(env: Env, amx: Machine, address: int): Outcome {
    if amx.stk > env.stp then Leaves(ERR_STACKLOW, amx)
    else if amx.hea < env.hlw then Leaves(ERR_HEAPLOW, amx)
    else
      var m := amx.(pri := 0, alt := 0, frm := 0, cip := address, resetStk := amx.stk + 4 * amx.paramcount,
        resetHea := amx.hea, paramcount := 0);
      var p := Push(m, 4 * amx.paramcount);
      var q := if p.Some? then Push(p.value, 0) else None;
      if q.None? then Outside else if MarginIsGone(q.value) then Leaves(ERR_STACKERR, q.value) else Goes(q.value)
  }

  /** `amx` is the AMX structure with its data. */
  function Enter(env: Env, amx: Machine, index: int): Outcome {
    if index == EXEC_CONT then Continue(env, amx)
    else if Address(env, index).None? then Leaves(ERR_INDEX, amx)
    else Begin(env, amx, Address(env, index).value)
  }

  // ----- Running -----

  /** At most `fuel` steps of one call of the interpreter. */
  function Run(env: Env, m: Machine, fuel: nat): Outcome
    decreases fuel
  {
    if fuel == 0 then Goes(m)
    else
      var o := Step(env, m);
      if o.Goes? then Run(env, o.next, fuel - 1) else o
  }

  /** The run that the program would make if sleeping did nothing. */
  function RunAwake(env: Env, m: Machine, fuel: nat): Outcome
    decreases fuel
  {
    if fuel == 0 then Goes(m)
    else
      var o := Step(env, m);
      if o.Goes? then RunAwake(env, o.next, fuel - 1)
      else if o.Sleeps? then RunAwake(env, o.awake, fuel - 1)
      else o
  }

  /** The run with the host continuing it after every sleep. */
  function RunResumed(env: Env, m: Machine, fuel: nat): Outcome
    decreases fuel
  {
    if fuel == 0 then Goes(m)
    else
      var o := Step(env, m);
      if o.Goes? then RunResumed(env, o.next, fuel - 1)
      else if o.Sleeps? then
        var c := Continue(env, o.saved);
        if c.Goes? then RunResumed(env, c.next, fuel - 1) else c
      else o
  }

  // ----- Neutrality -----

  predicate SameReset(m: Machine, r: Machine) {
    m.resetStk == r.resetStk && m.resetHea == r.resetHea
  }

  /** Every state that an outcome carries keeps the two values to reset to. */
  predicate KeepsReset(m: Machine, o: Outcome) {
    match o
    case Goes(n) => SameReset(m, n)
    case Sleeps(awake, saved, _) => SameReset(m, awake) && SameReset(m, saved)
    case Ends(_, _, last) => SameReset(m, last)
    case Leaves(_, _) => true
    case Outside => true
  }

  lemma StepKeepsReset(env: Env, m: Machine)
    ensures KeepsReset(m, Step(env, m))
  {
    hide Execute, InterpreterLayout, Length;
    forall op, operands, next
      ensures KeepsReset(m, Execute(env, m, op, operands, next))
    {
      ExecuteKeepsReset(env, m, op, operands, next);
    }
  }

  lemma ExecuteKeepsReset(env: Env, m: Machine, op: int, operands: seq<int>, next: int)
    ensures KeepsReset(m, Execute(env, m, op, operands, next))
  {
    hide EffectOf, Taken, Load, Store, Operand, PushSource, PushAll;
  }

  lemma {:induction false} RunKeepsReset(env: Env, m: Machine, fuel: nat)
    ensures KeepsReset(m, Run(env, m, fuel))
    ensures KeepsReset(m, RunAwake(env, m, fuel))
    ensures KeepsReset(m, RunResumed(env, m, fuel))
    decreases fuel
  {
    hide Step;
    if fuel > 0 {
      StepKeepsReset(env, m);
      var o := Step(env, m);
      if o.Goes? {
        RunKeepsReset(env, o.next, fuel - 1);
      } else if o.Sleeps? {
        RunKeepsReset(env, o.awake, fuel - 1);
        RunKeepsReset(env, o.saved, fuel - 1);
      }
    }
  }

  // ----- Sleeping -----

  predicate HasRoom(env: Env, m: Machine) {
    m.stk <= env.stp && m.hea >= env.hlw && !MarginIsGone(m)
  }

  /** If this step sleeps, continuing gives the state that a run without the sleep is in. */
  predicate SleepIsTransparent(env: Env, m: Machine) {
    var o := Step(env, m);
    o.Sleeps? ==> Continue(env, o.saved) == Goes(o.awake)
  }

  /** The instruction at `m`, if it can be fetched whole. */
  predicate Fetches(env: Env, m: Machine, op: int, operands: seq<int>, next: int) {
    && m.cip >= 0 && m.cip % 4 == 0 && m.cip / 4 < |env.code| && env.code[m.cip / 4] == op
    && InterpreterLayout(op) == Fixed(|operands|) && m.cip / 4 + 1 + |operands| <= |env.code|
    && operands == env.code[m.cip / 4 + 1..m.cip / 4 + 1 + |operands|]
    && next == m.cip + 4 + 4 * |operands|
  }

  lemma SymbolSkips()
    ensures InterpreterLayout(SYMBOL) == Skip
  {}

  lemma FetchedStep(env: Env, m: Machine, op: int, operands: seq<int>, next: int)
    requires Fetches(env, m, op, operands, next)
    ensures Step(env, m) == Execute(env, m, op, operands, next)
  {
    hide Execute, InterpreterLayout;
    SymbolSkips();
  }

  /** A sleep by HALT is transparent exactly if the run could also be started where it stands. */
  lemma HaltSleeps(env: Env, m: Machine, operands: seq<int>, next: int)
    requires Fetches(env, m, HALT, operands, next) && operands == [ERR_SLEEP]
    ensures Step(env, m).Sleeps?
    ensures SleepIsTransparent(env, m) <==> HasRoom(env, m)
  {
    FetchedStep(env, m, HALT, operands, next);
    hide Step, InterpreterLayout, Length;
  }

  /** The native sleeps, and the data block keeps its size. */
  predicate NativeSleeps(env: Env, m: Machine, index: int) {
    var (err, v) := env.native(index, ViewOf(m));
    err == ERR_SLEEP && |v.data| == |m.data|
  }

  /**
    A sleep by SYSREQ.C is transparent exactly if the native leaves the stack, heap, frame and
    instruction pointers of the AMX structure alone, and there is room.
    */
  lemma SysreqSleeps(env: Env, m: Machine, operands: seq<int>, next: int)
    requires |operands| == 1 && Fetches(env, m, SYSREQ_C, operands, next)
    requires NativeSleeps(env, m.(cip := next), operands[0])
    ensures Step(env, m).Sleeps?
    ensures
      var (_, v) := env.native(operands[0], ViewOf(m.(cip := next)));
      SleepIsTransparent(env, m) <==>
        v.stk == m.stk && v.hea == m.hea && v.frm == m.frm && v.cip == next && HasRoom(env, m)
  {
    FetchedStep(env, m, SYSREQ_C, operands, next);
    hide Step, InterpreterLayout, Length;
  }

  /** The same for SYSREQ.PRI, which takes the number of the native from PRI. */
  lemma SysreqPriSleeps(env: Env, m: Machine, operands: seq<int>, next: int)
    requires Fetches(env, m, SYSREQ_PRI, operands, next)
    requires NativeSleeps(env, m.(cip := next), m.pri)
    ensures Step(env, m).Sleeps?
    ensures
      var (_, v) := env.native(m.pri, ViewOf(m.(cip := next)));
      SleepIsTransparent(env, m) <==>
        v.stk == m.stk && v.hea == m.hea && v.frm == m.frm && v.cip == next && HasRoom(env, m)
  {
    FetchedStep(env, m, SYSREQ_PRI, operands, next);
    hide Step, InterpreterLayout, Length;
  }

  /**
    SYSREQ.N drops the parameters from the interpreter's own stack pointer only, so a sleep is
    transparent exactly if the native has taken them off the stack of the structure, and leaves
    the other pointers alone, and there is room behind them.
    */
  lemma SysreqNSleeps(env: Env, m: Machine, operands: seq<int>, next: int)
    requires |operands| == 2 && Fetches(env, m, SYSREQ_N, operands, next) && InData(m.data, m.stk - 4)
    requires NativeSleeps(env, Push(m, operands[1]).value.(cip := next), operands[0])
    ensures Step(env, m).Sleeps?
    ensures
      var (_, v) := env.native(operands[0], ViewOf(Push(m, operands[1]).value.(cip := next)));
      SleepIsTransparent(env, m) <==>
        && v.stk == m.stk + operands[1] && v.hea == m.hea && v.frm == m.frm && v.cip == next
        && HasRoom(env, m.(stk := v.stk))
  {
    FetchedStep(env, m, SYSREQ_N, operands, next);
    hide Step, InterpreterLayout, Length;
  }

  /** A step that sleeps is one of these four instructions, fetched whole. */
  lemma SleepIsFetched(env: Env, m: Machine) returns (operands: seq<int>, next: int)
    requires Step(env, m).Sleeps?
    ensures Fetches(env, m, OpAt(env, m), operands, next)
    ensures OpAt(env, m) in {HALT, SYSREQ_PRI, SYSREQ_C, SYSREQ_N}
    ensures Execute(env, m, OpAt(env, m), operands, next).Sleeps?
    ensures |operands| == if OpAt(env, m) == SYSREQ_N then 2 else if OpAt(env, m) == SYSREQ_PRI then 0 else 1
  {
    var op, k := OpAt(env, m), m.cip / 4;
    var n := Length(Interpreter, env.code, k).value;
    operands, next := env.code[k + 1..k + n], m.cip + 4 * n;
    OnlyFourSleep(env, m, op, operands, next);
    SleepersAreFixed(op);
    hide Execute, InterpreterLayout;
  }

  lemma SleepersAreFixed(op: int)
    requires op in {HALT, SYSREQ_PRI, SYSREQ_C, SYSREQ_N}
    ensures InterpreterLayout(op) == Fixed(if op == SYSREQ_N then 2 else if op == SYSREQ_PRI then 0 else 1)
  {}

  lemma OnlyFourSleep(env: Env, m: Machine, op: int, operands: seq<int>, next: int)
    ensures Execute(env, m, op, operands, next).Sleeps? ==> op in {HALT, SYSREQ_PRI, SYSREQ_C, SYSREQ_N}
  {
    hide EffectOf, Taken, Load, Store, Operand, PushSource, PushAll, Sysreq, Halt;
  }

  /** A native that sleeps leaves the pointers of the structure as it found them. */
  ghost predicate NativesKeepPointers(env: Env) {
    forall index, v: View ::
      var (err, w) := env.native(index, v);
      err == ERR_SLEEP ==> w.stk == v.stk && w.hea == v.hea && w.frm == v.frm && w.cip == v.cip
  }

  /** With such natives the sleeps of every instruction but SYSREQ.N need room and nothing else. */
  lemma SleepNeedsRoom(env: Env, m: Machine)
    requires NativesKeepPointers(env) && Step(env, m).Sleeps? && OpAt(env, m) != SYSREQ_N
    ensures SleepIsTransparent(env, m) <==> HasRoom(env, m)
  {
    var operands, next := SleepIsFetched(env, m);
    hide Step, HasRoom, SleepIsTransparent, Fetches;
    if OpAt(env, m) == HALT {
      assert operands == [ERR_SLEEP];
      HaltSleeps(env, m, operands, next);
    } else if OpAt(env, m) == SYSREQ_PRI {
      SysreqPriSleeps(env, m, operands, next);
    } else {
      SysreqSleeps(env, m, operands, next);
    }
  }

  /** Wherever the run sleeps, it is not in SYSREQ.N and there is room. */
  ghost predicate SleepsWithRoom(env: Env, m: Machine, fuel: nat)
    decreases fuel
  {
    fuel > 0 ==>
      match Step(env, m)
      case Goes(n) => SleepsWithRoom(env, n, fuel - 1)
      case Sleeps(awake, _, _) => OpAt(env, m) != SYSREQ_N && HasRoom(env, m) && SleepsWithRoom(env, awake, fuel - 1)
      case _ => true
  }

  /** However many sleeps split a run, it computes what the run without them would. */
  lemma {:induction false} SplitRunIsUnsplitRun(env: Env, m: Machine, fuel: nat)
    requires NativesKeepPointers(env) && SleepsWithRoom(env, m, fuel)
    ensures RunResumed(env, m, fuel) == RunAwake(env, m, fuel)
    decreases fuel
  {
    hide Step, HasRoom, NativesKeepPointers, OpAt, Continue;
    if fuel > 0 {
      var o := Step(env, m);
      if o.Goes? {
        SplitRunIsUnsplitRun(env, o.next, fuel - 1);
      } else if o.Sleeps? {
        SleepNeedsRoom(env, m);
        SplitRunIsUnsplitRun(env, o.awake, fuel - 1);
      }
    }
  }

  /** No outcome but a sleep has the error code of a sleep. */
  predicate IsAwake(o: Outcome) {
    (o.Ends? ==> o.err != ERR_SLEEP) && (o.Leaves? ==> o.err != ERR_SLEEP)
  }

  lemma OnlySleepsSleep(env: Env, m: Machine)
    ensures IsAwake(Step(env, m))
  {
    hide Execute, InterpreterLayout, Length;
    forall op, operands, next
      ensures IsAwake(Execute(env, m, op, operands, next))
    {
      ExecuteIsAwake(env, m, op, operands, next);
    }
  }

  lemma ExecuteIsAwake(env: Env, m: Machine, op: int, operands: seq<int>, next: int)
    ensures IsAwake(Execute(env, m, op, operands, next))
  {
    forall a, b
      ensures EffectOf(env, m, op, a, b).Stopped? ==> EffectOf(env, m, op, a, b).err != ERR_SLEEP
    {
      EffectIsAwake(env, m, op, a, b);
    }
    hide EffectOf, Taken, Load, Store, Operand, PushSource, PushAll;
  }

  lemma EffectIsAwake(env: Env, m: Machine, op: int, a: int, b: int)
    ensures EffectOf(env, m, op, a, b).Stopped? ==> EffectOf(env, m, op, a, b).err != ERR_SLEEP
  {
    hide Load, BytesOf, Wrap, Repeated, Control, Unsigned;
  }

  // ----- amx_Exec -----

  datatype Status = Returned(err: int) | OutOfFuel | Wild

  class Amx {
    var pri: int
    var alt: int
    var frm: int
    var stk: int
    var hea: int
    var cip: int
    var resetStk: int
    var resetHea: int
    var paramcount: int
    var data: seq<Byte>

    /** The structure and the data, as one value. */
    function Image(): Machine
      reads this
    {
      Machine(pri, alt, frm, stk, hea, cip, resetStk, resetHea, paramcount, data)
    }

    method SaveAll(m: Machine)
      modifies this
      ensures Image() == m
    {
      pri, alt, frm, stk, hea, cip := m.pri, m.alt, m.frm, m.stk, m.hea, m.cip;
      resetStk, resetHea, paramcount, data := m.resetStk, m.resetHea, m.paramcount, m.data;
    }

    /** ABORT: the stack and the heap go back to the values of the start. */
    method Abort(m: Machine)
      modifies this
      ensures stk == m.resetStk && hea == m.resetHea
      ensures paramcount == m.paramcount && data == m.data
    {
      stk, hea := m.resetStk, m.resetHea;
      paramcount, data := m.paramcount, m.data;
    }

    /** What the structure looks like after a call that came to the outcome `o`. */
    ghost predicate Shows(o: Outcome, status: Status, retval: Option<int>)
      reads this
    {
      match o
      case Goes(_) => status == OutOfFuel
      case Outside => status == Wild
      case Leaves(err, last) =>
        status == Returned(err) && retval == None && paramcount == last.paramcount && data == last.data
      case Sleeps(_, saved, value) => status == Returned(ERR_SLEEP) && retval == value && Image() == saved
      case Ends(err, value, last) =>
        && status == Returned(err) && retval == value
        && stk == last.resetStk && hea == last.resetHea && paramcount == last.paramcount && data == last.data
    }

    /**
      One call of the interpreter, for at most `fuel` instructions: it does what `Run` says from
      the state that `Enter` says. A fresh run that ends leaves the stack without its parameters
      and the heap as it was. A run that cannot be entered leaves the structure alone, but for the
      parameters, which may already have been pushed and counted off.
      */
    method Exec(env: Env, index: int, fuel: nat) returns (status: Status, retval: Option<int>, left: nat)
      modifies this
      ensures
        var o := Enter(env, old(Image()), index);
        && Shows(if o.Goes? then Run(env, o.next, fuel) else o, status, retval)
        && (o.Leaves? ==> Image() == old(Image()).(paramcount := o.last.paramcount, data := o.last.data))
        && left <= fuel
        && (status == Returned(ERR_SLEEP) <==> o.Goes? && Run(env, o.next, fuel).Sleeps?)
        && (o.Goes? && Run(env, o.next, fuel).Sleeps? ==>
             left < fuel && RunResumed(env, o.next, fuel) == Resumed(env, Run(env, o.next, fuel).saved, left))
        && (o.Goes? && !Run(env, o.next, fuel).Sleeps? ==> RunResumed(env, o.next, fuel) == Run(env, o.next, fuel))
    {
      hide Step, Enter, Run, RunResumed, Continue;
      retval, left := None, fuel;
      var o := Enter(env, Image(), index);
      EnterIsAwake(env, Image(), index);
      if o.Goes? {
        ghost var first := o.next;
        var n: nat := fuel;
        while n > 0 && o.Goes?
          invariant n <= fuel
          invariant Enter(env, old(Image()), index) == Goes(first)
          invariant o.Goes? ==> Run(env, first, fuel) == Run(env, o.next, n)
          invariant o.Goes? ==> RunResumed(env, first, fuel) == RunResumed(env, o.next, n)
          invariant !o.Goes? ==> Run(env, first, fuel) == o && n < fuel
          invariant o.Sleeps? ==> RunResumed(env, first, fuel) == Resumed(env, o.saved, n)
          invariant !o.Goes? && !o.Sleeps? ==> RunResumed(env, first, fuel) == o
          invariant IsAwake(o)
          invariant Image() == old(Image())
          decreases n, o.Goes?
        {
          OneStep(env, o.next, n);
          OnlySleepsSleep(env, o.next);
          o := Step(env, o.next);
          n := n - 1;
        }
        left := n;
        if o.Goes? {
          NothingRun(env, o.next);
        }
      }
      match o {
        case Goes(m) =>
          status := OutOfFuel;
        case Outside =>
          status := Wild;
        case Leaves(err, last) =>
          paramcount, data := last.paramcount, last.data;
          status := Returned(err);
        case Sleeps(_, saved, value) =>
          SaveAll(saved);
          status, retval := Returned(ERR_SLEEP), value;
        case Ends(err, value, last) =>
          Abort(last);
          status, retval := Returned(err), value;
      }
    }

    /**
      A host that continues the run after every sleep. It comes to what `RunResumed` says, and
      if the program ends, by a halt or an abort, the stack is without the parameters that the
      host had pushed and the heap is as it was.
      */
    method ExecToEnd(env: Env, index: int, fuel: nat) returns (status: Status, retval: Option<int>)
      requires index != EXEC_CONT
      modifies this
      ensures
        var o := Enter(env, old(Image()), index);
        && Shows(if o.Goes? then RunResumed(env, o.next, fuel) else o, status, retval)
        && (o.Goes? && RunResumed(env, o.next, fuel).Ends? ==>
             stk == old(stk) + 4 * old(paramcount) && hea == old(hea))
    {
      hide Step, Enter, Run, RunResumed, Continue;
      var left: nat;
      ghost var o := Enter(env, Image(), index);
      status, retval, left := Exec(env, index, fuel);
      while status == Returned(ERR_SLEEP)
        invariant left <= fuel
        invariant status == Returned(ERR_SLEEP) ==>
          o.Goes? && RunResumed(env, o.next, fuel) == Resumed(env, Image(), left)
        invariant status != Returned(ERR_SLEEP) ==>
          Shows(if o.Goes? then RunResumed(env, o.next, fuel) else o, status, retval)
        decreases left, status == Returned(ERR_SLEEP)
      {
        ContinueIsEntered(env, Image());
        status, retval, left := Exec(env, EXEC_CONT, left);
      }
      if o.Goes? {
        RunKeepsReset(env, o.next, fuel);
        BeginSetsReset(env, old(Image()), index);
      }
    }
  }

  lemma EnterIsAwake(env: Env, amx: Machine, index: int)
    ensures IsAwake(Enter(env, amx, index)) && !Enter(env, amx, index).Sleeps? && !Enter(env, amx, index).Ends?
  {
    hide Push;
  }

  lemma NothingRun(env: Env, m: Machine)
    ensures Run(env, m, 0) == RunResumed(env, m, 0) == Goes(m)
  {}

  lemma ContinueIsEntered(env: Env, amx: Machine)
    ensures Enter(env, amx, EXEC_CONT) == Continue(env, amx)
  {}

  lemma BeginSetsReset(env: Env, amx: Machine, index: int)
    requires index != EXEC_CONT && Enter(env, amx, index).Goes?
    ensures
      var m := Enter(env, amx, index).next;
      m.resetStk == amx.stk + 4 * amx.paramcount && m.resetHea == amx.hea
  {
    hide Load, Store;
  }

  /** Continuing what a sleep saved. */
  function Resumed(env: Env, saved: Machine, fuel: nat): Outcome {
    var c := Continue(env, saved);
    if c.Goes? then RunResumed(env, c.next, fuel) else c
  }

  lemma OneStep(env: Env, m: Machine, n: nat)
    requires n > 0
    ensures
      var o := Step(env, m);
      && Run(env, m, n) == (if o.Goes? then Run(env, o.next, n - 1) else o)
      && RunResumed(env, m, n) ==
        if o.Goes? then RunResumed(env, o.next, n - 1)
        else if o.Sleeps? then Resumed(env, o.saved, n - 1)
        else o
  {
    hide Step;
  }
}
