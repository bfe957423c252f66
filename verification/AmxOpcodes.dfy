/**
  What each instruction does to the machine, stated on the registers and the memory alone.
  */
module AmxOpcodes {
  import opened AmxAlu
  import opened AmxCode
  import opened AmxConstants
  import opened AmxMachine
  import opened AmxMemory
  import opened AmxRun
  import opened Words
  import opened Wrappers
  import Sw = AmxSwitch

  // ----- From an instruction to its effect -----

  /** The instructions that leave the stack, the heap, the frame and the flow of control alone. */
  predicate IsPlain(op: int) {
    || (1 <= op <= 35 && op != 32) || 65 <= op <= 119 || op == 121 || op == 125 || op == 127
    || op == 131 || op == 132 || op == 134 || op == 136 || op == 137 || 154 <= op <= 157
  }

  lemma PlainExecutes(env: Env, m: Machine, op: int, operands: seq<int>, next: int)
    requires IsPlain(op)
    ensures
      var a := if operands == [] then 0 else operands[0];
      var b := if |operands| < 2 then 0 else operands[1];
      Execute(env, m, op, operands, next) == Apply(m, EffectOf(env, m, op, a, b), next)
  {
    hide EffectOf, Apply, Push, PushAll, Pop, Stack, Heap, Proc, Return, Halt, Sysreq, SwitchTo, SetControl, Taken;
  }

  lemma RegistersApplied(m: Machine, pri: int, alt: int, next: int)
    ensures Apply(m, Registers(pri, alt), next) == Goes(m.(pri := pri, alt := alt, cip := next))
  {
    assert Overwrite(m.data, 0, []) == m.data;
  }

  lemma LoadApplied(m: Machine, at: int, next: int)
    requires InData(m.data, at)
    ensures Apply(m, ToPri(m, at), next) == Goes(m.(pri := Load(m.data, at), cip := next))
    ensures Apply(m, ToAlt(m, at), next) == Goes(m.(alt := Load(m.data, at), cip := next))
  {
    hide Load;
    RegistersApplied(m, Load(m.data, at), m.alt, next);
    RegistersApplied(m, m.pri, Load(m.data, at), next);
  }

  lemma StoreApplied(m: Machine, at: int, v: int, next: int)
    requires InData(m.data, at)
    ensures Apply(m, ToCell(m, at, v), next) == Goes(m.(data := Store(m.data, at, v), cip := next))
  {
    hide BytesOf;
  }

  // ----- Registers -----

  /** CONST and ADDR. */
  lemma ConstantExecutes(env: Env, m: Machine, op: int, a: int, next: int)
    requires 11 <= op <= 14
    ensures Execute(env, m, op, [a], next) ==
      var v := if op <= 12 then a else Wrap(m.frm + a);
      Goes(if op % 2 == 1 then m.(pri := v, cip := next) else m.(alt := v, cip := next))
  {
    hide Execute, Apply, Wrap, CellEffect, Block, ToPri, ToAlt, ToCell, Arithmetic, LoadBytes, StoreBytes, Control;
    hide IsHole;
    PlainExecutes(env, m, op, [a], next);
    var e := EffectOf(env, m, op, a, 0);
    RegistersApplied(m, e.pri, e.alt, next);
  }

  /** MOVE and XCHG, ZERO of a register, and the instructions that do nothing. */
  lemma MoveExecutes(env: Env, m: Machine, op: int, operands: seq<int>, next: int)
    requires 33 <= op <= 35 || op == 89 || op == 90 || op == 125 || op == 127 || op == 134 || op == 136 || op == 137
    ensures Execute(env, m, op, operands, next) == Goes(
      if op == 33 then m.(pri := m.alt, cip := next)
      else if op == 34 then m.(alt := m.pri, cip := next)
      else if op == 35 then m.(pri := m.alt, alt := m.pri, cip := next)
      else if op == 89 then m.(pri := 0, cip := next)
      else if op == 90 then m.(alt := 0, cip := next)
      else m.(cip := next))
  {
    hide Execute, Apply, Block, ToPri, ToAlt, ToCell, AddToCell, Arithmetic, LoadBytes, StoreBytes, Control, IsHole;
    PlainExecutes(env, m, op, operands, next);
    var e := EffectOf(env, m, op, if operands == [] then 0 else operands[0], if |operands| < 2 then 0 else operands[1]);
    RegistersApplied(m, e.pri, e.alt, next);
  }

  // ----- Memory -----

  /** LOAD and LOAD.S to either register, LREF and LREF.S through a pointer. */
  lemma LoadExecutes(env: Env, m: Machine, op: int, a: int, next: int)
    requires 1 <= op <= 8
    ensures
      var at := if op == 3 || op == 4 || op == 7 || op == 8 then m.frm + a else a;
      Execute(env, m, op, [a], next) ==
        if !InData(m.data, at) || (op >= 5 && !InData(m.data, Load(m.data, at))) then Outside
        else
          var v := if op >= 5 then Load(m.data, Load(m.data, at)) else Load(m.data, at);
          Goes(if op % 2 == 1 then m.(pri := v, cip := next) else m.(alt := v, cip := next))
  {
    hide Load;
    hide Execute, Apply, Wrap, CellEffect, Block, ToPri, ToAlt, ToCell, Arithmetic, LoadBytes, StoreBytes, Control;
    hide IsHole;
    PlainExecutes(env, m, op, [a], next);
    var at := if op == 3 || op == 4 || op == 7 || op == 8 then m.frm + a else a;
    LoadAt(m, if op >= 5 then ViaPointer(m, at) else at, next);
  }

  lemma LoadAt(m: Machine, at: int, next: int)
    ensures Apply(m, ToPri(m, at), next) ==
      if InData(m.data, at) then Goes(m.(pri := Load(m.data, at), cip := next)) else Outside
    ensures Apply(m, ToAlt(m, at), next) ==
      if InData(m.data, at) then Goes(m.(alt := Load(m.data, at), cip := next)) else Outside
  {
    hide Load;
    if InData(m.data, at) {
      LoadApplied(m, at, next);
    }
  }

  lemma StoreAt(m: Machine, at: int, v: int, next: int)
    ensures Apply(m, ToCell(m, at, v), next) ==
      if InData(m.data, at) then Goes(m.(data := Store(m.data, at, v), cip := next)) else Outside
  {
    hide BytesOf, Store;
    if InData(m.data, at) {
      StoreApplied(m, at, v, next);
    }
  }

  /** STOR and STOR.S from either register, SREF and SREF.S through a pointer. */
  lemma StoreExecutes(env: Env, m: Machine, op: int, a: int, next: int)
    requires 15 <= op <= 22
    ensures
      var at := if op == 17 || op == 18 || op == 21 || op == 22 then m.frm + a else a;
      Execute(env, m, op, [a], next) ==
        if !InData(m.data, at) || (op >= 19 && !InData(m.data, Load(m.data, at))) then Outside
        else
          var to, v := if op >= 19 then Load(m.data, at) else at, if op % 2 == 1 then m.pri else m.alt;
          Goes(m.(data := Store(m.data, to, v), cip := next))
  {
    hide Load, Store;
    hide Execute, Apply, Wrap, CellEffect, Block, ToPri, ToAlt, ToCell, Arithmetic, LoadBytes, StoreBytes, Control;
    hide IsHole;
    PlainExecutes(env, m, op, [a], next);
    var at := if op == 17 || op == 18 || op == 21 || op == 22 then m.frm + a else a;
    StoreAt(m, if op >= 19 then ViaPointer(m, at) else at, if op % 2 == 1 then m.pri else m.alt, next);
  }

  /** ZERO, INC and DEC of a cell: global, in the frame, or at PRI. */
  lemma CellExecutes(env: Env, m: Machine, op: int, operands: seq<int>, next: int)
    requires op in {91, 92, 109, 110, 111, 114, 115, 116} && operands != []
    ensures
      var a := operands[0];
      var at := if op in {92, 110, 115} then m.frm + a else if op in {111, 116} then m.pri else a;
      Execute(env, m, op, operands, next) ==
        if !InData(m.data, at) then Outside
        else
          var v := if op <= 92 then 0 else if op <= 111 then Load(m.data, at) + 1 else Load(m.data, at) - 1;
          Goes(m.(data := Store(m.data, at, v), cip := next))
  {
    hide Execute, Apply, Wrap, MoveEffect, Block, ToPri, ToAlt, ToCell, Arithmetic, IsHole, Load, Store;
    PlainExecutes(env, m, op, operands, next);
    var at := if op in {92, 110, 115} then m.frm + operands[0] else if op in {111, 116} then m.pri else operands[0];
    if InData(m.data, at) {
      var was := Load(m.data, at);
      StoreApplied(m, at, if op <= 92 then 0 else if op <= 111 then was + 1 else was - 1, next);
    } else {
      StoreAt(m, at, 0, next);
      NothingApplied(m, 0, next);
    }
  }

  /** Two operands: both registers loaded, or a constant stored. */
  lemma PairExecutes(env: Env, m: Machine, op: int, a: int, b: int, next: int)
    requires 154 <= op <= 157
    ensures
      var at, bt := if op % 2 == 0 then a else m.frm + a, if op % 2 == 0 then b else m.frm + b;
      Execute(env, m, op, [a, b], next) ==
        if !InData(m.data, at) || (op <= 155 && !InData(m.data, bt)) then Outside
        else if op <= 155 then Goes(m.(pri := Load(m.data, at), alt := Load(m.data, bt), cip := next))
        else Goes(m.(data := Store(m.data, at, b), cip := next))
  {
    hide Execute, Apply, Wrap, MoveEffect, Block, ToPri, ToAlt, ToCell, Arithmetic, IsHole, Load, Store;
    PlainExecutes(env, m, op, [a, b], next);
    var at, bt := if op % 2 == 0 then a else m.frm + a, if op % 2 == 0 then b else m.frm + b;
    StoreAt(m, at, b, next);
    NothingApplied(m, 0, next);
    if InData(m.data, at) && InData(m.data, bt) {
      RegistersApplied(m, Load(m.data, at), Load(m.data, bt), next);
    }
  }

  /** An address that the checked instructions take: below `stp`, and not between heap and stack. */
  predicate IsOpen(env: Env, m: Machine, at: int) {
    0 <= at < env.stp && !(m.hea <= at < m.stk)
  }

  lemma StoppedApplied(m: Machine, err: int, next: int)
    ensures Apply(m, Stopped(err), next) == Ends(err, None, m)
  {}

  /** LOAD.I and STOR.I check the address. */
  lemma IndirectExecutes(env: Env, m: Machine, next: int)
    ensures
      && (IsOpen(env, m, m.pri) && InData(m.data, m.pri) ==>
           Execute(env, m, 9, [], next) == Goes(m.(pri := Load(m.data, m.pri), cip := next)))
      && (!IsOpen(env, m, m.pri) ==> Execute(env, m, 9, [], next) == Ends(ERR_MEMACCESS, None, m))
      && (IsOpen(env, m, m.alt) && InData(m.data, m.alt) ==>
           Execute(env, m, 23, [], next) == Goes(m.(data := Store(m.data, m.alt, m.pri), cip := next)))
      && (!IsOpen(env, m, m.alt) ==> Execute(env, m, 23, [], next) == Ends(ERR_MEMACCESS, None, m))
  {
    hide Execute, Apply, Wrap, CellEffect, Block, ToPri, ToAlt, ToCell, Arithmetic, Control, Load, Store, BytesOf;
    PlainExecutes(env, m, 9, [], next);
    PlainExecutes(env, m, 23, [], next);
    StoppedApplied(m, ERR_MEMACCESS, next);
    if InData(m.data, m.pri) {
      LoadApplied(m, m.pri, next);
    }
    if InData(m.data, m.alt) {
      StoreApplied(m, m.alt, m.pri, next);
    }
  }

  /** LIDX and IDXADDR: an element of an array of cells, and its address. */
  lemma LidxExecutes(env: Env, m: Machine, next: int)
    ensures
      var at := Wrap(m.pri * 4 + m.alt);
      && (IsOpen(env, m, at) && InData(m.data, at) ==>
           Execute(env, m, 25, [], next) == Goes(m.(pri := Load(m.data, at), cip := next)))
      && (!IsOpen(env, m, at) ==> Execute(env, m, 25, [], next) == Ends(ERR_MEMACCESS, None, m))
      && Execute(env, m, 27, [], next) == Goes(m.(pri := at, cip := next))
  {
    hide Execute, Apply, Wrap, CellEffect, Block, ToPri, ToAlt, ToCell, Arithmetic, Control, Load, Store, BytesOf;
    PlainExecutes(env, m, 25, [], next);
    PlainExecutes(env, m, 27, [], next);
    StoppedApplied(m, ERR_MEMACCESS, next);
    var at := Wrap(m.pri * 4 + m.alt);
    RegistersApplied(m, at, m.alt, next);
    if InData(m.data, at) {
      LoadApplied(m, at, next);
    }
  }

  /** The same with elements of another size. */
  lemma ScaledExecutes(env: Env, m: Machine, a: int, next: int)
    ensures IsCount(a) ==>
      var at := Wrap(ShiftLeft(m.pri, a) + m.alt);
      && (IsOpen(env, m, at) && InData(m.data, at) ==>
           Execute(env, m, 26, [a], next) == Goes(m.(pri := Load(m.data, at), cip := next)))
      && (!IsOpen(env, m, at) ==> Execute(env, m, 26, [a], next) == Ends(ERR_MEMACCESS, None, m))
      && Execute(env, m, 28, [a], next) == Goes(m.(pri := at, cip := next))
  {
    hide Execute, Apply, Wrap, CellEffect, Block, ToPri, ToAlt, ToCell, Control, Load, Store, ShiftLeft;
    if IsCount(a) {
      PlainExecutes(env, m, 26, [a], next);
      PlainExecutes(env, m, 28, [a], next);
      StoppedApplied(m, ERR_MEMACCESS, next);
      var at := Wrap(ShiftLeft(m.pri, a) + m.alt);
      RegistersApplied(m, at, m.alt, next);
      if InData(m.data, at) {
        LoadApplied(m, at, next);
      }
    }
  }

  /** LODB.I and STRB.I: one, two or four bytes, the low one first. */
  lemma BytesExecute(env: Env, m: Machine, n: int, next: int)
    requires n == 1 || n == 2
    ensures IsOpen(env, m, m.pri) && m.pri + n <= |m.data| ==>
      var v := if n == 1 then m.data[m.pri] else m.data[m.pri] as int + 0x100 * m.data[m.pri + 1] as int;
      Execute(env, m, 10, [n], next) == Goes(m.(pri := v, cip := next))
    ensures IsOpen(env, m, m.alt) && m.alt + n <= |m.data| ==>
      var low := m.data[m.alt := m.pri % 0x100];
      var data := if n == 1 then low else low[m.alt + 1 := m.pri / 0x100 % 0x100];
      Execute(env, m, 24, [n], next) == Goes(m.(data := data, cip := next))
  {
    hide Execute, Apply, CellEffect, Block, ToPri, ToAlt, ToCell, Arithmetic, Control, Wrap;
    PlainExecutes(env, m, 10, [n], next);
    PlainExecutes(env, m, 24, [n], next);
    if IsOpen(env, m, m.pri) && m.pri + n <= |m.data| {
      var v := if n == 1 then m.data[m.pri] else m.data[m.pri] as int + 0x100 * m.data[m.pri + 1] as int;
      RegistersApplied(m, v, m.alt, next);
    }
    if IsOpen(env, m, m.alt) && m.alt + n <= |m.data| {
      BytesApplied(m, m.alt, n, next);
    }
  }

  /** With four bytes they take a cell, and with any other number nothing; the address is checked first. */
  lemma OtherBytesExecute(env: Env, m: Machine, n: int, next: int)
    requires n != 1 && n != 2
    ensures Execute(env, m, 10, [n], next) ==
      if n == 4 || !IsOpen(env, m, m.pri) then Execute(env, m, 9, [], next) else Goes(m.(cip := next))
    ensures Execute(env, m, 24, [n], next) ==
      if n == 4 || !IsOpen(env, m, m.alt) then Execute(env, m, 23, [], next) else Goes(m.(cip := next))
  {
    hide Execute, Apply, CellEffect, Block, ToPri, ToAlt, Arithmetic, Control, BytesOf;
    PlainExecutes(env, m, 10, [n], next);
    PlainExecutes(env, m, 24, [n], next);
    PlainExecutes(env, m, 9, [], next);
    PlainExecutes(env, m, 23, [], next);
    RegistersApplied(m, m.pri, m.alt, next);
    LoadAt(m, m.pri, next);
    NothingApplied(m, 0, next);
    assert BytesOf(m.pri)[..4] == BytesOf(m.pri);
  }

  lemma BytesApplied(m: Machine, at: nat, n: nat, next: int)
    requires (n == 1 || n == 2) && at + n <= |m.data|
    ensures
      var low := m.data[at := m.pri % 0x100];
      var data := if n == 1 then low else low[at + 1 := m.pri / 0x100 % 0x100];
      Apply(m, Computed(m.pri, m.alt, at, BytesOf(m.pri)[..n]), next) == Goes(m.(data := data, cip := next))
  {
    var low := m.data[at := m.pri % 0x100];
    var data := if n == 1 then low else low[at + 1 := m.pri / 0x100 % 0x100];
    assert Overwrite(m.data, at, BytesOf(m.pri)[..n]) == data;
  }

  /** Both ends of a block are open; its end may be where the stack or the memory ends. */
  predicate IsOpenBlock(env: Env, m: Machine, at: int, n: int) {
    IsOpen(env, m, at) && 0 <= at + n <= env.stp && !(m.hea < at + n < m.stk)
  }

  /** MOVS, CMPS and FILL refuse every other block, at PRI or at ALT; FILL has only the one at ALT. */
  lemma BlocksRefused(env: Env, m: Machine, op: int, n: int, next: int)
    requires 117 <= op <= 119
    ensures !IsOpenBlock(env, m, m.alt, n) || (op != 119 && !IsOpenBlock(env, m, m.pri, n)) <==>
      Execute(env, m, op, [n], next) == Ends(ERR_MEMACCESS, None, m)
    ensures n < 0 ==> !Execute(env, m, op, [n], next).Goes?
  {
    hide Execute, MoveEffect, CellEffect, Repeated, BytesOf;
    PlainExecutes(env, m, op, [n], next);
  }

  /** MOVS copies a block whose ends are open, from PRI to ALT. */
  lemma MovsExecutes(env: Env, m: Machine, n: nat, next: int)
    requires IsOpenBlock(env, m, m.pri, n) && IsOpenBlock(env, m, m.alt, n) && env.stp <= |m.data|
    ensures Execute(env, m, 117, [n], next) ==
      Goes(m.(data := m.data[..m.alt] + m.data[m.pri..m.pri + n] + m.data[m.alt + n..], cip := next))
  {
    hide Execute, MoveEffect, CellEffect, Load, Store;
    PlainExecutes(env, m, 117, [n], next);
  }

  /** CMPS compares two such blocks, the one at ALT with the one at PRI. */
  lemma CmpsExecutes(env: Env, m: Machine, n: nat, next: int)
    requires IsOpenBlock(env, m, m.pri, n) && IsOpenBlock(env, m, m.alt, n) && env.stp <= |m.data|
    ensures Execute(env, m, 118, [n], next) ==
      Goes(m.(pri := env.compare(m.data[m.alt..m.alt + n], m.data[m.pri..m.pri + n]), cip := next))
  {
    hide Execute, MoveEffect, CellEffect, Apply;
    PlainExecutes(env, m, 118, [n], next);
    RegistersApplied(m, env.compare(m.data[m.alt..m.alt + n], m.data[m.pri..m.pri + n]), m.alt, next);
  }

  /** FILL stores PRI in every whole cell of the block. */
  lemma FillExecutes(env: Env, m: Machine, n: nat, next: int) returns (data: seq<Byte>)
    requires IsOpenBlock(env, m, m.alt, n) && env.stp <= |m.data|
    ensures |data| == |m.data| && Execute(env, m, 119, [n], next) == Goes(m.(data := data, cip := next))
    ensures forall i :: 0 <= i < |data| && !(m.alt <= i < m.alt + n - n % 4) ==> data[i] == m.data[i]
    ensures forall k: nat :: 4 * k + 4 <= n ==> Load(data, m.alt + 4 * k) == Wrap(m.pri)
  {
    hide Execute, MoveEffect, CellEffect, Load, Store, Repeated, BytesOf;
    PlainExecutes(env, m, 119, [n], next);
    var cells := n / 4;
    RepeatedLength(BytesOf(m.pri), cells);
    data := Overwrite(m.data, m.alt, Repeated(BytesOf(m.pri), cells));
    forall k: nat | k < cells
      ensures Load(data, m.alt + 4 * k) == Wrap(m.pri)
    {
      RepeatedAt(BytesOf(m.pri), cells, k);
      LoadOfBytes(data, m.alt + 4 * k, m.pri);
    }
  }

  lemma {:induction false} RepeatedLength(bytes: seq<Byte>, n: nat)
    ensures |Repeated(bytes, n)| == |bytes| * n
  {
    if n > 0 {
      RepeatedLength(bytes, n - 1);
    }
  }

  lemma {:induction false} RepeatedAt(bytes: seq<Byte>, n: nat, k: nat)
    requires k < n && |bytes| == 4
    ensures |Repeated(bytes, n)| == 4 * n && Repeated(bytes, n)[4 * k..4 * k + 4] == bytes
    decreases k
  {
    RepeatedLength(bytes, n);
    RepeatedLength(bytes, n - 1);
    if k > 0 {
      RepeatedAt(bytes, n - 1, k - 1);
      assert Repeated(bytes, n)[4 * k..4 * k + 4] == Repeated(bytes, n - 1)[4 * (k - 1)..4 * (k - 1) + 4];
    }
  }

  lemma LoadOfBytes(data: seq<Byte>, at: int, v: int)
    requires InData(data, at) && data[at..at + 4] == BytesOf(v)
    ensures Load(data, at) == Wrap(v)
  {
    hide Load, BytesOf, Wrap;
    assert Store(data, at, v) == data by {
      hide Load, BytesOf, Wrap;
    }
    LoadStored(data, at, v);
  }

  // ----- The stack -----

  /** PUSH of a register, a constant, a cell or an address. */
  lemma PushExecutes(env: Env, m: Machine, op: int, operands: seq<int>, next: int)
    requires op == 36 || op == 37 || 39 <= op <= 41 || op == 133
    requires |operands| == if op <= 37 then 0 else 1
    ensures
      var at := if op == 40 then operands[0] else if op == 41 then m.frm + operands[0] else m.stk - 4;
      Execute(env, m, op, operands, next) ==
        if !InData(m.data, m.stk - 4) || !InData(m.data, at) then Outside
        else
          var v := if op == 36 then m.pri else if op == 37 then m.alt else if op == 39 then operands[0]
                   else if op == 133 then m.frm + operands[0] else Load(m.data, at);
          Goes(m.(stk := m.stk - 4, data := Store(m.data, m.stk - 4, v), cip := next))
  {
    hide EffectOf, Apply, Pop, Stack, Heap, Proc, Return, Halt, Sysreq, SwitchTo, SetControl, Taken, Load, Store;
    hide PushAll;
    if op >= 39 {
      assert operands == [operands[0]];
      PushOne(m, PushSource(op).value, operands[0]);
    }
  }

  lemma PushOne(m: Machine, s: Source, a: int)
    ensures PushAll(m, s, [a]) == var v := Operand(m, s, a); if v.Some? then Push(m, v.value) else None
  {
    hide Operand, Push;
    assert [a][1..] == [];
  }

  /** POP to either register. */
  lemma PopExecutes(env: Env, m: Machine, op: int, next: int)
    requires op == 42 || op == 43
    ensures Execute(env, m, op, [], next) ==
      if !InData(m.data, m.stk) then Outside
      else
        var v := Load(m.data, m.stk);
        Goes(if op == 42 then m.(pri := v, stk := m.stk + 4, cip := next)
             else m.(alt := v, stk := m.stk + 4, cip := next))
  {
    hide EffectOf, Apply, Push, PushAll, Stack, Heap, Proc, Return, Halt, Sysreq, SwitchTo, SetControl, Taken, Load;
  }

  /** STACK and HEAP leave the old pointer in ALT, and refuse to lose the margin or to pass the end. */
  lemma StackExecutes(env: Env, m: Machine, a: int, next: int)
    ensures
      var n := m.(alt := m.stk, stk := m.stk + a, cip := next);
      Execute(env, m, 44, [a], next) ==
        if !IsCell(n.stk) then Outside
        else if n.hea + 64 > n.stk then Leaves(ERR_STACKERR, n) else if n.stk > env.stp then Leaves(ERR_STACKLOW, n)
        else Goes(n)
    ensures
      var n := m.(alt := m.hea, hea := m.hea + a, cip := next);
      Execute(env, m, 45, [a], next) ==
        if !IsCell(n.hea) then Outside
        else if n.hea + 64 > n.stk then Leaves(ERR_STACKERR, n) else if n.hea < env.hlw then Leaves(ERR_HEAPLOW, n)
        else Goes(n)
  {
    hide EffectOf, Apply, Push, PushAll, Pop, Proc, Return, Halt, Sysreq, SwitchTo, SetControl, Taken;
  }

  /** SWAP exchanges a register with the top of the stack. */
  lemma SwapExecutes(env: Env, m: Machine, op: int, next: int)
    requires op == 131 || op == 132
    ensures Execute(env, m, op, [], next) ==
      if !InData(m.data, m.stk) then Outside
      else
        var v := Load(m.data, m.stk);
        Goes(if op == 131 then m.(pri := v, data := Store(m.data, m.stk, m.pri), cip := next)
             else m.(alt := v, data := Store(m.data, m.stk, m.alt), cip := next))
  {
    hide Execute, MoveEffect, Block, Arithmetic, Load, BytesOf;
    PlainExecutes(env, m, op, [], next);
  }

  // ----- Calls -----

  /** CALL and CALL.PRI push the address behind them and go to their target. */
  lemma CallExecutes(env: Env, m: Machine, op: int, operands: seq<int>, next: int)
    requires (op == 49 && |operands| == 1) || op == 50
    ensures Execute(env, m, op, operands, next) ==
      if !InData(m.data, m.stk - 4) then Outside
      else
        var target := if op == 49 then operands[0] else m.pri;
        Goes(m.(stk := m.stk - 4, data := Store(m.data, m.stk - 4, next), cip := target))
  {
    hide EffectOf, Apply, Pop, Stack, Heap, Proc, Return, Halt, Sysreq, SwitchTo, SetControl, Taken, PushAll, Store;
  }

  /** PROC pushes the frame, starts a new one there, and refuses to lose the margin. */
  lemma ProcExecutes(env: Env, m: Machine, next: int)
    ensures Execute(env, m, 46, [], next) ==
      if !InData(m.data, m.stk - 4) then Outside
      else
        var top := m.stk - 4;
        var n := m.(stk := top, frm := top, data := Store(m.data, top, m.frm), cip := next);
        if m.hea + 64 > top then Leaves(ERR_STACKERR, n) else Goes(n)
  {
    hide EffectOf, Apply, Pop, Stack, Heap, Return, Halt, Sysreq, SwitchTo, SetControl, Taken, PushAll, Store;
  }

  /** RET takes the frame and the address off the stack, RETN the parameters and their size as well. */
  lemma ReturnExecutes(env: Env, m: Machine, op: int, next: int)
    requires op == 47 || op == 48
    ensures Execute(env, m, op, [], next) ==
      if !InData(m.data, m.stk) || !InData(m.data, m.stk + 4) then Outside
      else
        var back := Load(m.data, m.stk + 4);
        var n := m.(frm := Load(m.data, m.stk), stk := m.stk + 8, cip := back);
        if back % 0x1_0000_0000 >= 4 * |env.code| then Ends(ERR_MEMACCESS, None, m)
        else if op == 47 then Goes(n)
        else if !InData(m.data, m.stk + 8) || !IsCell(m.stk + 12 + Load(m.data, m.stk + 8)) then Outside
        else Goes(n.(stk := m.stk + 12 + Load(m.data, m.stk + 8)))
  {
    hide EffectOf, Apply, Pop, Stack, Heap, Proc, Halt, Sysreq, SwitchTo, SetControl, Taken, PushAll, Load;
  }

  /** The push that one of several operands makes. */
  function SinglePush(op: int): int {
    match (op - 138) % 4 { case 0 => 39 case 1 => 40 case 2 => 41 case _ => 133 }
  }

  /** PUSH2 to PUSH5 push their operands one after the other. */
  lemma PushManyExecutes(env: Env, m: Machine, op: int, a: int, rest: seq<int>, next: int)
    requires 138 <= op <= 153 && rest != [] && |rest| == (op - 138) / 4 + 1
    ensures
      var first := Execute(env, m, SinglePush(op), [a], next);
      Execute(env, m, op, [a] + rest, next) ==
        if !first.Goes? then first
        else Execute(env, first.next, if op < 142 then SinglePush(op) else op - 4, rest, next)
  {
    hide EffectOf, Apply, Pop, Stack, Heap, Proc, Return, Halt, Sysreq, SwitchTo, SetControl, Taken, Load, Store;
    hide Push, Operand, PushAll;
    PushOne(m, PushSource(op).value, a);
    PushFirst(m, PushSource(op).value, a, rest);
    if PushAll(m, PushSource(op).value, [a]).Some? {
      var p := PushAll(m, PushSource(op).value, [a]).value;
      PushNowhere(p, PushSource(op).value, rest, next);
    }
  }

  lemma PushFirst(m: Machine, s: Source, a: int, rest: seq<int>)
    ensures
      var p := PushAll(m, s, [a]);
      PushAll(m, s, [a] + rest) == if p.Some? then PushAll(p.value, s, rest) else None
  {
    hide Push, Operand;
    assert ([a] + rest)[1..] == rest && [a][1..] == [];
  }

  /** Pushing does not look at the instruction pointer. */
  lemma {:induction false} PushNowhere(m: Machine, s: Source, operands: seq<int>, cip: int)
    ensures
      var p, q := PushAll(m, s, operands), PushAll(m.(cip := cip), s, operands);
      if p.None? then q == None else q == Some(p.value.(cip := cip))
    decreases |operands|
  {
    hide Load, Store;
    if operands != [] && Operand(m, s, operands[0]).Some? {
      var p := Push(m, Operand(m, s, operands[0]).value);
      if p.Some? {
        PushNowhere(p.value, s, operands[1..], cip);
      }
    }
  }

  /** PUSH.R pushes PRI that many times. */
  lemma PushRepeatedExecutes(env: Env, m: Machine, n: nat, next: int)
    ensures Execute(env, m, 38, [0], next) == Goes(m.(cip := next))
    ensures
      var first := Execute(env, m, 36, [], next);
      Execute(env, m, 38, [n + 1], next) == if !first.Goes? then first else Execute(env, first.next, 38, [n], next)
  {
    hide EffectOf, Apply, Pop, Stack, Heap, Proc, Return, Halt, Sysreq, SwitchTo, SetControl, Taken, Load, Store;
    hide Push, PushAll;
    assert Copies(m.pri, n + 1) == [m.pri] + Copies(m.pri, n);
    assert Copies(m.pri, 0) == [];
    PushNone(m);
    PushFirst(m, Constant, m.pri, Copies(m.pri, n));
    PushOne(m, Constant, m.pri);
    if Push(m, m.pri).Some? {
      PushKeepsRegisters(m, m.pri);
      PushNowhere(Push(m, m.pri).value, Constant, Copies(m.pri, n), next);
    }
  }

  lemma PushNone(m: Machine)
    ensures PushAll(m, Constant, []) == Some(m)
  {}

  lemma PushKeepsRegisters(m: Machine, v: int)
    requires Push(m, v).Some?
    ensures Push(m, v).value.pri == m.pri
  {}

  // ----- Jumps -----

  /** Every jump: the operand is where it goes if its condition holds, else the next instruction follows. */
  lemma JumpStep(env: Env, m: Machine, op: int, a: int, next: int)
    requires Fetches(env, m, op, [a], next) && 51 <= op <= 64
    ensures op == 51 ==> Step(env, m) == Goes(m.(cip := a))
    ensures op == 52 ==> Step(env, m) == Goes(m.(cip := next + a))
    ensures op == 53 ==> Step(env, m) == Goes(m.(cip := if m.pri == 0 then a else next))
    ensures op == 54 ==> Step(env, m) == Goes(m.(cip := if m.pri != 0 then a else next))
    ensures op == 55 ==> Step(env, m) == Goes(m.(cip := if m.pri == m.alt then a else next))
    ensures op == 56 ==> Step(env, m) == Goes(m.(cip := if m.pri != m.alt then a else next))
    ensures op == 61 ==> Step(env, m) == Goes(m.(cip := if m.pri < m.alt then a else next))
    ensures op == 62 ==> Step(env, m) == Goes(m.(cip := if m.pri <= m.alt then a else next))
    ensures op == 63 ==> Step(env, m) == Goes(m.(cip := if m.pri > m.alt then a else next))
    ensures op == 64 ==> Step(env, m) == Goes(m.(cip := if m.pri >= m.alt then a else next))
    ensures
      var p, q := m.pri % 0x1_0000_0000, m.alt % 0x1_0000_0000;
      && (op == 57 ==> Step(env, m) == Goes(m.(cip := if p < q then a else next)))
      && (op == 58 ==> Step(env, m) == Goes(m.(cip := if p <= q then a else next)))
      && (op == 59 ==> Step(env, m) == Goes(m.(cip := if p > q then a else next)))
      && (op == 60 ==> Step(env, m) == Goes(m.(cip := if p >= q then a else next)))
  {
    hide Step, Fetches;
    hide EffectOf, Apply, Push, PushAll, Pop, Stack, Heap, Proc, Return, Halt, Sysreq, SwitchTo, SetControl;
    FetchedStep(env, m, op, [a], next);
  }

  /** SWITCH goes where the table at its operand says; a table without records has only its default. */
  lemma SwitchExecutes(env: Env, m: Machine, a: int, next: int)
    ensures
      var t := a / 4;
      Execute(env, m, 129, [a], next) ==
        if a % 4 == 0 && 0 <= t && t + 1 < |env.code| && env.code[t] == 130
           && 0 <= env.code[t + 1] && t + 3 + 2 * env.code[t + 1] <= |env.code|
        then Goes(m.(cip := env.code[Sw.Selected(env.code, t, m.pri)]))
        else Outside
  {
    hide EffectOf, Apply, Push, PushAll, Pop, Stack, Heap, Proc, Return, Halt, Sysreq, SetControl, Taken;
    hide Sw.Selected;
  }

  /** In the unsigned order the negative cells come behind all others. */
  lemma UnsignedOrder(v: int, w: int)
    requires IsCell(v) && IsCell(w)
    ensures Unsigned(v) < Unsigned(w) <==> if (v < 0) == (w < 0) then v < w else w < 0
    ensures Unsigned(v) == Unsigned(w) <==> v == w
  {}

  // ----- Arithmetic -----

  lemma ComputedApplied(m: Machine, op: int, a: int, next: int)
    ensures
      var e := Compute(op, m.pri, m.alt, a);
      && (e.Values? ==> Apply(m, Arithmetic(m, op, a), next) == Goes(m.(pri := e.pri, alt := e.alt, cip := next)))
      && (e.ByZero? ==> Apply(m, Arithmetic(m, op, a), next) == Ends(ERR_DIVIDE, None, m))
      && (e.Undefined? ==> Apply(m, Arithmetic(m, op, a), next) == Outside)
  {
    hide Compute, Apply;
    var e := Compute(op, m.pri, m.alt, a);
    if e.Values? {
      RegistersApplied(m, e.pri, e.alt, next);
    } else {
      NothingApplied(m, ERR_DIVIDE, next);
    }
  }

  lemma NothingApplied(m: Machine, err: int, next: int)
    ensures Apply(m, Stopped(err), next) == Ends(err, None, m) && Apply(m, Astray, next) == Outside
  {}

  predicate IsArithmetic(op: int) {
    28 <= op <= 30 || 65 <= op <= 88 || 93 <= op <= 108 || op == 112 || op == 113
  }

  lemma ArithmeticExecutes(env: Env, m: Machine, op: int, operands: seq<int>, next: int)
    requires IsArithmetic(op)
    ensures
      var e := Compute(op, m.pri, m.alt, if operands == [] then 0 else operands[0]);
      && (e.Values? ==> Execute(env, m, op, operands, next) == Goes(m.(pri := e.pri, alt := e.alt, cip := next)))
      && (e.ByZero? ==> Execute(env, m, op, operands, next) == Ends(ERR_DIVIDE, None, m))
      && (e.Undefined? ==> Execute(env, m, op, operands, next) == Outside)
  {
    hide Execute, Apply, Compute, Arithmetic, Load, Block, ToPri, ToAlt, ToCell, AddToCell, Wrap, ShiftLeft;
    PlainExecutes(env, m, op, operands, next);
    ComputedApplied(m, op, if operands == [] then 0 else operands[0], next);
  }

  /** Sums, differences and products wrap around. */
  lemma SumExecutes(env: Env, m: Machine, op: int, operands: seq<int>, next: int)
    requires op in {72, 75, 78, 79, 80, 85, 86, 87, 88, 107, 112} && operands != []
    ensures
      var a := operands[0];
      var v := if op == 72 then m.pri * m.alt else if op == 75 then Unsigned(m.pri) * Unsigned(m.alt)
               else if op == 78 then m.pri + m.alt else if op == 79 then m.pri - m.alt
               else if op == 80 then m.alt - m.pri
               else if op == 85 then -m.pri else if op == 86 then -1 - m.pri else if op == 87 then m.pri + a
               else if op == 88 then m.pri * a else if op == 107 then m.pri + 1 else m.pri - 1;
      Execute(env, m, op, operands, next) == Goes(m.(pri := Wrap(v), cip := next))
  {
    hide Execute, Wrap;
    ArithmeticExecutes(env, m, op, operands, next);
  }

  /** Comparisons leave one or zero in PRI, signed and unsigned. */
  lemma CompareExecutes(env: Env, m: Machine, op: int, operands: seq<int>, next: int)
    requires (op == 84 || 95 <= op <= 106) && operands != []
    ensures
      var p, q, a := m.pri % 0x1_0000_0000, m.alt % 0x1_0000_0000, operands[0];
      var holds := if op == 84 then m.pri == 0 else if op == 95 then m.pri == m.alt else if op == 96 then m.pri != m.alt
                   else if op == 97 then p < q else if op == 98 then p <= q else if op == 99 then p > q
                   else if op == 100 then p >= q else if op == 101 then m.pri < m.alt
                   else if op == 102 then m.pri <= m.alt else if op == 103 then m.pri > m.alt
                   else if op == 104 then m.pri >= m.alt else if op == 105 then m.pri == a else m.alt == a;
      Execute(env, m, op, operands, next) == Goes(m.(pri := if holds then 1 else 0, cip := next))
  {
    hide Execute, Wrap;
    ArithmeticExecutes(env, m, op, operands, next);
  }

  /** Shifts by 0 to 31 bits: multiplied, divided as unsigned, or divided rounding down. */
  lemma ShiftExecutes(env: Env, m: Machine, op: int, operands: seq<int>, next: int)
    requires 65 <= op <= 71 && operands != []
    requires 0 <= (if op <= 67 then m.alt else operands[0]) < 32
    ensures
      var n := if op <= 67 then m.alt else operands[0];
      var v := if op == 69 || op == 71 then m.alt else m.pri;
      var r := if op == 65 || op == 68 || op == 69 then v * Pow2(n)
               else if op == 67 then v / Pow2(n) else v % 0x1_0000_0000 / Pow2(n);
      Execute(env, m, op, operands, next) ==
        Goes(if op == 69 || op == 71 then m.(alt := Wrap(r), cip := next) else m.(pri := Wrap(r), cip := next))
  {
    hide Execute, Wrap, Pow2;
    ArithmeticExecutes(env, m, op, operands, next);
  }

  /** The four divisions; SDIV and SDIV.ALT are as their lemmas in `AmxAlu` say. */
  lemma DivideExecutes(env: Env, m: Machine, op: int, next: int)
    requires op == 76 || op == 77
    ensures
      var p, q := m.pri % 0x1_0000_0000, m.alt % 0x1_0000_0000;
      var x, y := if op == 76 then p else q, if op == 76 then q else p;
      Execute(env, m, op, [], next) ==
        if y == 0 then Ends(ERR_DIVIDE, None, m) else Goes(m.(pri := Wrap(x / y), alt := Wrap(x % y), cip := next))
  {
    hide Execute, Wrap;
    ArithmeticExecutes(env, m, op, [], next);
  }

  lemma SignedDivideExecutes(env: Env, m: Machine, op: int, next: int)
    requires (op == 73 || op == 74) && IsCell(m.pri) && IsCell(m.alt)
    ensures
      var s := if op == 73 then Sdiv(m.pri, m.alt) else SdivAlt(m.pri, m.alt);
      Execute(env, m, op, [], next) ==
        if (if op == 73 then m.alt else m.pri) == 0 then Ends(ERR_DIVIDE, None, m)
        else Goes(m.(pri := s.pri, alt := s.alt, cip := next))
  {
    hide Execute, Wrap, Truncated, Remainder, Fiddled;
    ArithmeticExecutes(env, m, op, [], next);
  }

  /** INC.ALT and DEC.ALT. */
  lemma AltExecutes(env: Env, m: Machine, op: int, next: int)
    requires op == 108 || op == 113
    ensures
      var v := if op == 108 then m.alt + 1 else m.alt - 1;
      Execute(env, m, op, [], next) == Goes(m.(alt := Wrap(v), cip := next))
  {
    hide Execute, Wrap;
    ArithmeticExecutes(env, m, op, [], next);
  }

  /** AND, OR and XOR, on each bit. */
  lemma BitsExecute(env: Env, m: Machine, op: int, next: int) returns (v: int)
    requires 81 <= op <= 83
    ensures IsCell(v) && Execute(env, m, op, [], next) == Goes(m.(pri := v, cip := next))
    ensures forall i: nat :: i < 32 ==>
      (BitOf(Unsigned(v), i) <==>
        var x, y := BitOf(Unsigned(m.pri), i), BitOf(Unsigned(m.alt), i);
        if op == 81 then x && y else if op == 82 then x || y else x != y)
  {
    hide Execute, Wrap, Joined, BitOf, Unsigned;
    ArithmeticExecutes(env, m, op, [], next);
    v := if op == 81 then And(m.pri, m.alt) else if op == 82 then Or(m.pri, m.alt) else Xor(m.pri, m.alt);
    forall i: nat | i < 32
      ensures
        BitOf(Unsigned(v), i) <==>
          var x, y := BitOf(Unsigned(m.pri), i), BitOf(Unsigned(m.alt), i);
          if op == 81 then x && y else if op == 82 then x || y else x != y
    {
      BitwiseIsBitwise(m.pri, m.alt, i);
    }
  }

  /** SIGN takes the low byte of a register as a signed one, and leaves all others as they are. */
  lemma SignExecutes(env: Env, m: Machine, op: int, next: int)
    requires (op == 93 || op == 94) && IsCell(m.pri) && IsCell(m.alt)
    ensures
      var v := if op == 93 then m.pri else m.alt;
      var low := v % 0x100;
      var w := if low >= 0x80 then low - 0x100 else v;
      Execute(env, m, op, [], next) == Goes(if op == 93 then m.(pri := w, cip := next) else m.(alt := w, cip := next))
  {
    hide Execute;
    ArithmeticExecutes(env, m, op, [], next);
    LowByte(m.pri);
    LowByte(m.alt);
  }

  lemma LowByte(v: int)
    requires IsCell(v)
    ensures Unsigned(v) % 0x100 == v % 0x100
  {}

  /** ALIGN for characters turns the place of a packed character into that of its byte. */
  lemma AlignExecutes(env: Env, m: Machine, op: int, next: int)
    requires (op == 29 || op == 30) && 0 <= m.pri <= CELLMAX && 0 <= m.alt <= CELLMAX
    ensures
      var v := if op == 29 then m.pri else m.alt;
      var w := v / 4 * 4 + 3 - v % 4;
      Execute(env, m, op, [1], next) == Goes(if op == 29 then m.(pri := w, cip := next) else m.(alt := w, cip := next))
    ensures Execute(env, m, op, [4], next) == Goes(m.(pri := Wrap(m.pri), cip := next))
  {
    hide Execute, Joined;
    ArithmeticExecutes(env, m, op, [1], next);
    ArithmeticExecutes(env, m, op, [4], next);
    XorWithThree(m.pri);
    XorWithThree(m.alt);
  }

  // ----- The control registers -----

  /** LCTRL reads the registers of the machine, and leaves PRI alone for any other number. */
  lemma LctrlExecutes(env: Env, m: Machine, a: int, next: int)
    ensures Execute(env, m, 31, [a], next) ==
      var v := if a == 0 then env.cod else if a == 1 then env.dat else if a == 2 then m.hea else if a == 3 then env.stp
               else if a == 4 then m.stk else if a == 5 then m.frm else if a == 6 then m.cip + 8
               else if a == 9 then env.flags else m.pri;
      Goes(m.(pri := v, cip := next))
  {
    hide Execute, Apply, CellEffect, Block, ToPri, ToAlt, ToCell, Arithmetic, LoadBytes, StoreBytes, IsHole, Wrap;
    PlainExecutes(env, m, 31, [a], next);
    RegistersApplied(m, Control(env, m, a), m.alt, next);
  }

  /** SCTRL sets the heap, the stack, the frame or the instruction pointer; JUMP.PRI sets the last. */
  lemma SctrlExecutes(env: Env, m: Machine, a: int, next: int)
    ensures Execute(env, m, 32, [a], next) == Goes(
      if a == 2 then m.(hea := m.pri, cip := next) else if a == 4 then m.(stk := m.pri, cip := next)
      else if a == 5 then m.(frm := m.pri, cip := next) else if a == 6 then m.(cip := m.pri) else m.(cip := next))
    ensures Execute(env, m, 128, [], next) == Goes(m.(cip := m.pri))
  {
    hide EffectOf, Apply, Push, PushAll, Pop, Stack, Heap, Proc, Return, Halt, Sysreq, SwitchTo, Taken;
  }

  /** BOUNDS refuses an index that is negative or above its operand. */
  lemma BoundsExecutes(env: Env, m: Machine, a: int, next: int)
    requires IsCell(m.pri) && 0 <= a <= CELLMAX
    ensures Execute(env, m, 121, [a], next) ==
      if 0 <= m.pri <= a then Goes(m.(cip := next)) else Ends(ERR_BOUNDS, None, m)
  {
    hide Execute, Apply, MoveEffect, Block, ToPri, ToAlt, ToCell, AddToCell, Arithmetic;
    PlainExecutes(env, m, 121, [a], next);
    RegistersApplied(m, m.pri, m.alt, next);
    NothingApplied(m, ERR_BOUNDS, next);
  }

  // ----- Natives and the end of a run -----

  /** HALT stores PRI as the result; with the code of a sleep it keeps everything. */
  lemma HaltExecutes(env: Env, m: Machine, a: int, next: int)
    ensures Execute(env, m, 120, [a], next) ==
      var n := m.(cip := next);
      if a == 12 then Sleeps(n, n, Some(m.pri)) else Ends(a, Some(m.pri), n)
  {
    hide EffectOf, Apply, Pop, Stack, Heap, Proc, Return, SwitchTo, SetControl, Taken, PushAll, Load, Store;
  }

  /**
    SYSREQ: the native finds the machine as it stands behind the instruction. If it returns no error
    the run goes on with the result, the memory and the parameter count that it left, and with the
    other registers as they were.
    */
  lemma NativeExecutes(env: Env, m: Machine, op: int, operands: seq<int>, next: int)
    requires (op == 122 && operands == []) || (op == 123 && |operands| == 1)
    ensures
      var index := if op == 122 then m.pri else operands[0];
      var (err, v) := env.native(index, View(m.pri, m.stk, m.hea, m.frm, next, m.paramcount, m.data));
      var n := m.(cip := next, pri := v.pri, paramcount := v.paramcount, data := v.data);
      Execute(env, m, op, operands, next) ==
        if |v.data| != |m.data| then Outside
        else if err == 0 then Goes(n)
        else if err == 12 then Sleeps(n, n.(stk := v.stk, hea := v.hea, frm := v.frm, cip := v.cip), None)
        else Ends(err, None, n)
  {
    hide EffectOf, Apply, Pop, Stack, Heap, Proc, Return, SwitchTo, SetControl, Taken, PushAll, Load, Store;
  }

  /** SYSREQ.N pushes the size of the parameters first, and takes it and them off afterwards. */
  lemma NativeWithSizeExecutes(env: Env, m: Machine, a: int, b: int, next: int)
    ensures !InData(m.data, m.stk - 4) ==> Execute(env, m, 135, [a, b], next) == Outside
    ensures InData(m.data, m.stk - 4) ==>
      var pushed := Store(m.data, m.stk - 4, b);
      var (err, v) := env.native(a, View(m.pri, m.stk - 4, m.hea, m.frm, next, m.paramcount, pushed));
      var n := m.(cip := next, pri := v.pri, stk := m.stk + b, paramcount := v.paramcount, data := v.data);
      Execute(env, m, 135, [a, b], next) ==
        if |v.data| != |m.data| then Outside
        else if err == 0 then Goes(n)
        else if err == 12 then Sleeps(n, n.(stk := v.stk, hea := v.hea, frm := v.frm, cip := v.cip), None)
        else Ends(err, None, n)
  {
    hide EffectOf, Apply, Pop, Stack, Heap, Proc, Return, SwitchTo, SetControl, Taken, PushAll, Load, Store;
  }

  /** A fresh call: what is refused, and the two cells that are pushed otherwise. */
  lemma FreshEntry(env: Env, amx: Machine, index: int)
    requires index != -2
    ensures (index == -1 && env.main < 0) || index < -1 || index >= |env.publics| ==>
      Enter(env, amx, index) == Leaves(ERR_INDEX, amx)
    ensures (index == -1 && env.main >= 0) || 0 <= index < |env.publics| ==>
      if amx.stk > env.stp then Enter(env, amx, index) == Leaves(ERR_STACKLOW, amx)
      else if amx.hea < env.hlw then Enter(env, amx, index) == Leaves(ERR_HEAPLOW, amx)
      else InData(amx.data, amx.stk - 4) && InData(amx.data, amx.stk - 8) ==>
        var at := if index == -1 then env.main else env.publics[index];
        var size := 4 * amx.paramcount;
        var data := Store(Store(amx.data, amx.stk - 4, size), amx.stk - 8, 0);
        var m := Machine(0, 0, 0, amx.stk - 8, amx.hea, at, amx.stk + size, amx.hea, 0, data);
        Enter(env, amx, index) == if m.hea + 64 > m.stk then Leaves(ERR_STACKERR, m) else Goes(m)
  {
    hide Store;
  }

  /** A continued call goes on where the structure says. */
  lemma ContinuedEntry(env: Env, amx: Machine)
    ensures Enter(env, amx, -2) ==
      if amx.stk > env.stp then Leaves(ERR_STACKLOW, amx) else if amx.hea < env.hlw then Leaves(ERR_HEAPLOW, amx)
      else if amx.hea + 64 > amx.stk then Leaves(ERR_STACKERR, amx) else Goes(amx)
  {}

  // ----- What the loader relocates -----

  predicate Lands(o: Outcome, at: int) {
    o.Goes? && o.next.cip == at
  }

  /** In some state of the machine the operand decides where it goes on. */
  ghost predicate GoesToOperand(env: Env, op: int, next: int) {
    exists m: Machine, a, b ::
      && a != b && a != next && b != next
      && Lands(Execute(env, m, op, [a], next), a) && Lands(Execute(env, m, op, [b], next), b)
  }

  /** Where the instructions without a target go on. */
  lemma OtherTargets(env: Env, m: Machine, op: int, a: int, next: int)
    requires !HasTarget(op) && Execute(env, m, op, [a], next).Goes?
    ensures
      var cip := Execute(env, m, op, [a], next).next.cip;
      || cip == next || (op == 32 && a == 6 && cip == m.pri) || (op == 52 && cip == next + a)
      || ((op == 47 || op == 48) && InData(m.data, m.stk + 4) && cip == Load(m.data, m.stk + 4))
      || ((op == 50 || op == 128) && cip == m.pri)
  {
    hide EffectOf, Taken, Load, Store, PushAll, PushSource;
  }

  /** A state in which the jump is taken. */
  function Ready(op: int): Machine {
    var more := op == 54 || op == 56 || op == 59 || op == 60 || op == 63 || op == 64;
    var pri := if more then 1 else 0;
    var alt := if more || op == 55 then 0 else 1;
    Machine(pri, alt, 0, 4, 0, 0, 0, 0, 0, [0, 0, 0, 0])
  }

  lemma ReadyJumps(env: Env, op: int, a: int, next: int)
    requires HasTarget(op) && op != SWITCH
    ensures Lands(Execute(env, Ready(op), op, [a], next), a)
  {
    hide EffectOf, Load, Store, PushAll;
  }

  /** The operands that the loader relocates are those that the interpreter can go to. */
  lemma TargetsAreOperands(env: Env, op: int, next: int)
    requires next != 0 && op != SWITCH
    ensures HasTarget(op) <==> GoesToOperand(env, op, next)
  {
    hide Execute, Ready, Load;
    if HasTarget(op) {
      ReadyJumps(env, op, next + 1, next);
      ReadyJumps(env, op, next + 2, next);
    } else if GoesToOperand(env, op, next) {
      var m: Machine, a, b :| a != b && a != next && b != next
        && Lands(Execute(env, m, op, [a], next), a) && Lands(Execute(env, m, op, [b], next), b);
      OtherTargets(env, m, op, a, next);
      OtherTargets(env, m, op, b, next);
    }
  }
}
