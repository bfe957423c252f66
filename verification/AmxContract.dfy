/** The interpreter keeps the contract that its host relies on. */
module AmxContract {
  import opened AmxConstants
  import opened AmxMachine
  import opened AmxMemory
  import opened AmxRun
  import opened Wrappers
  import Code = AmxCode
  import Host = AmxHost

  /** A native that finds no parameters waiting leaves none behind. */
  ghost predicate NativesTakeTheirs(env: Env) {
    forall index, v: View :: v.paramcount == 0 ==> env.native(index, v).1.paramcount == 0
  }

  predicate SameSize(m: Machine, r: Machine) {
    |r.data| == |m.data| && (m.paramcount == 0 ==> r.paramcount == 0)
  }

  /** No outcome has waiting parameters if `m` has none, and an early return is an error. */
  predicate KeepsSize(m: Machine, o: Outcome) {
    match o
    case Goes(n) => SameSize(m, n)
    case Sleeps(_, saved, _) => SameSize(m, saved)
    case Ends(_, _, last) => SameSize(m, last)
    case Leaves(err, last) => SameSize(m, last) && err != ERR_NONE && err != ERR_SLEEP
    case Outside => true
  }

  lemma StepKeepsSize(env: Env, m: Machine)
    requires NativesTakeTheirs(env)
    ensures KeepsSize(m, Step(env, m))
  {
    hide Execute, Code.InterpreterLayout, Code.Length, NativesTakeTheirs;
    forall op, operands, next
      ensures KeepsSize(m, Execute(env, m, op, operands, next))
    {
      ExecuteKeepsSize(env, m, op, operands, next);
    }
  }

  lemma ExecuteKeepsSize(env: Env, m: Machine, op: int, operands: seq<int>, next: int)
    requires NativesTakeTheirs(env)
    ensures KeepsSize(m, Execute(env, m, op, operands, next))
  {
    hide EffectOf, Taken, Load, Store, Overwrite, Operand, PushSource, PushAll;
  }

  lemma {:induction false} RunKeepsSize(env: Env, m: Machine, fuel: nat)
    requires NativesTakeTheirs(env)
    ensures KeepsSize(m, Run(env, m, fuel))
    decreases fuel
  {
    hide Step, NativesTakeTheirs;
    if fuel > 0 {
      StepKeepsSize(env, m);
      var o := Step(env, m);
      if o.Goes? {
        RunKeepsSize(env, o.next, fuel - 1);
      }
    }
  }

  /** What the host sees. */
  function Seen(m: Machine): Host.Structure {
    Host.Structure(m.stk, m.hea, m.resetStk, m.resetHea, m.paramcount, m.data)
  }

  /** A call that is not refused starts with the reset values that the contract names. */
  lemma EnteredStarts(env: Env, amx: Machine, index: int)
    requires Enter(env, amx, index).Goes?
    ensures
      var m := Enter(env, amx, index).next;
      && Host.IsIndex(index, |env.publics|)
      && m.resetStk == Host.ResetStk(index, Seen(amx)) && m.resetHea == Host.ResetHea(index, Seen(amx))
      && |m.data| == |amx.data| && (m.paramcount == 0 || (index == EXEC_CONT && m.paramcount == amx.paramcount))
  {
    hide Load, Store;
  }

  lemma EnteredRefuses(env: Env, amx: Machine, index: int)
    requires Enter(env, amx, index).Leaves?
    ensures
      var o := Enter(env, amx, index);
      var after := amx.(paramcount := o.last.paramcount, data := o.last.data);
      Host.Obeys(index, |env.publics|, Seen(amx), Seen(after), o.err, Host.Refused)
  {
    hide Load, BytesOf;
  }

  /** What the host looks for after a call: the stack without the parameters, and the heap as it was. */
  predicate IsRestored(amx: Machine, stk: int, hea: int) {
    stk == amx.stk + 4 * amx.paramcount && hea == amx.hea
  }

  /**
    A run that ends restores the stack and the heap exactly if it is not continued, or if the sleep
    was with the stack and the heap that the function had started on.
    */
  lemma EndedRestores(env: Env, amx: Machine, index: int, fuel: nat)
    requires Enter(env, amx, index).Goes? && Run(env, Enter(env, amx, index).next, fuel).Ends?
    ensures
      var last := Run(env, Enter(env, amx, index).next, fuel).last;
      IsRestored(amx, last.resetStk, last.resetHea) <==>
        index != EXEC_CONT || IsRestored(amx, amx.resetStk, amx.resetHea)
  {
    hide Enter, Run;
    EnteredStarts(env, amx, index);
    RunKeepsReset(env, Enter(env, amx, index).next, fuel);
  }

  /** A function that slept with a local on the stack, and halts when it is continued. */
  lemma SleptWithLocal(env: Env, amx: Machine)
    requires env.code == [HALT, ERR_NONE] && env.stp == 1000 && env.hlw == 0
    requires amx.cip == 0 && amx.hea == 0 && amx.stk == 900 && amx.paramcount == 0
    requires amx.resetHea == 0 && amx.resetStk == 904
    ensures Enter(env, amx, EXEC_CONT) == Goes(amx) && Run(env, amx, 1).Ends?
    ensures !IsRestored(amx, Run(env, amx, 1).last.resetStk, Run(env, amx, 1).last.resetHea)
  {
    FetchedStep(env, amx, HALT, [ERR_NONE], 8);
  }

  /** How a call came to its end that was not refused. */
  function FateOf(o: Outcome): Host.Fate {
    if o.Sleeps? then Host.Slept else if o.Ends? then Host.Ended else Host.Left
  }

  /** One call of the interpreter by its host. */
  method Call(amx: Amx, env: Env, index: int, fuel: nat)
    returns (status: Status, retval: Option<int>, ghost fate: Host.Fate)
    requires NativesTakeTheirs(env)
    modifies amx
    ensures status.Returned? ==>
      && Host.Obeys(index, |env.publics|, Seen(old(amx.Image())), Seen(amx.Image()), status.err, fate)
      && (fate.Refused? <==> Enter(env, old(amx.Image()), index).Leaves?)
      && (retval.Some? ==> fate.Ended? || fate.Slept?)
  {
    hide Enter, Run, RunResumed, Resumed, Step, NativesTakeTheirs, Host.SameBut;
    ghost var before := amx.Image();
    ghost var o := Enter(env, before, index);
    var left;
    status, retval, left := amx.Exec(env, index, fuel);
    fate := Host.Refused;
    EnterIsAwake(env, before, index);
    if o.Goes? {
      ghost var r := Run(env, o.next, fuel);
      fate := FateOf(r);
      EnteredStarts(env, before, index);
      RunKeepsReset(env, o.next, fuel);
      RunKeepsSize(env, o.next, fuel);
    } else if o.Leaves? {
      EnteredRefuses(env, before, index);
    }
  }
}
