/**
  The interpreter as one step relation: what one instruction makes of the registers and the
  data. Code addresses are byte offsets from the start of the code.
  */
module AmxMachine {
  import opened AmxAlu
  import opened AmxCode
  import opened AmxConstants
  import opened AmxMemory
  import opened Words
  import opened Wrappers
  import Sw = AmxSwitch

  const HALT := 120
  const SYSREQ_PRI := 122
  const SYSREQ_C := 123
  const SYSREQ_N := 135

  // ----- State -----

  /** The registers of a run, the parameter counter of the AMX structure, and the data block. */
  datatype Machine = Machine(pri: int, alt: int, frm: int, stk: int, hea: int, cip: int,
    resetStk: int, resetHea: int, paramcount: int, data: seq<Byte>)

  /** What a native function finds in the AMX structure and the data, and what it leaves there. */
  datatype View = View(pri: int, stk: int, hea: int, frm: int, cip: int, paramcount: int, data: seq<Byte>)

  datatype Env = Env(code: seq<int>, main: int, publics: seq<int>, stp: int, hlw: int, cod: int, dat: int,
    flags: int, compare: (seq<Byte>, seq<Byte>) -> int,
    native: (int, View) -> (int, View))

  /** How an instruction ends that touches PRI, ALT and data only; `bytes` are written at `at`. */
  datatype Effect = Computed(pri: int, alt: int, at: int, bytes: seq<Byte>) | Stopped(err: int) | Astray

  /**
    How a step ends: in the next state; asleep, with `saved` in the AMX structure where a run
    without the sleep would be in `awake`; returned with the stack and heap reset; returned as
    they are; or with an access outside code or data.
    */
  datatype Outcome =
    | Goes(next: Machine)
    | Sleeps(awake: Machine, saved: Machine, retval: Option<int>)
    | Ends(err: int, retval: Option<int>, last: Machine)
    | Leaves(err: int, last: Machine)
    | Outside

  // ----- Instructions on PRI, ALT and data -----

  /** The addresses that checked instructions refuse: between heap and stack, or not below `stp`. */
  predicate IsHole(env: Env, m: Machine, a: int) {
    m.hea <= a < m.stk || a < 0 || a >= env.stp
  }

  /** The same for the end of a block. */
  predicate EndsInHole(env: Env, m: Machine, a: int) {
    m.hea < a < m.stk || a < 0 || a > env.stp
  }

  function ToPri(m: Machine, a: int): Effect {
    if InData(m.data, a) then Computed(Load(m.data, a), m.alt, 0, []) else Astray
  }

  function ToAlt(m: Machine, a: int): Effect {
    if InData(m.data, a) then Computed(m.pri, Load(m.data, a), 0, []) else Astray
  }

  function ToCell(m: Machine, a: int, v: int): Effect {
    Computed(m.pri, m.alt, a, BytesOf(v))
  }

  function AddToCell(m: Machine, a: int, v: int): Effect {
    if InData(m.data, a) then ToCell(m, a, Load(m.data, a) + v) else Astray
  }

  function Registers(pri: int, alt: int): Effect {
    Computed(pri, alt, 0, [])
  }

  function Arithmetic(m: Machine, op: int, a: int): Effect {
    match Compute(op, m.pri, m.alt, a)
    case ByZero => Stopped(ERR_DIVIDE)
    case Undefined => Astray
    case Values(pri, alt) => Registers(pri, alt)
  }

  /** LODB.I: one, two or four bytes. */
  function LoadBytes(m: Machine, n: int): Effect {
    if n != 1 && n != 2 && n != 4 then Registers(m.pri, m.alt)
    else if m.pri < 0 || m.pri + n > |m.data| then Astray
    else if n == 1 then Registers(m.data[m.pri] as int, m.alt)
    else if n == 2 then Registers(m.data[m.pri] as int + 0x100 * m.data[m.pri + 1] as int, m.alt)
    else ToPri(m, m.pri)
  }

  /** STRB.I */
  function StoreBytes(m: Machine, n: int): Effect {
    if n == 1 || n == 2 || n == 4 then Computed(m.pri, m.alt, m.alt, BytesOf(m.pri)[..n])
    else Registers(m.pri, m.alt)
  }

  function Control(env: Env, m: Machine, n: int): int {
    match n
    case 0 => env.cod
    case 1 => env.dat
    case 2 => m.hea
    case 3 => env.stp
    case 4 => m.stk
    case 5 => m.frm
    case 6 => m.cip + 8
    case 9 => env.flags
    case _ => m.pri
  }

  function Repeated(bytes: seq<Byte>, n: nat): seq<Byte> {
    if n == 0 then [] else bytes + Repeated(bytes, n - 1)
  }

  predicate BlockRefused(env: Env, m: Machine, a: int, n: int) {
    IsHole(env, m, a) || EndsInHole(env, m, a + n)
  }

  /** MOVS, CMPS and FILL. */
  function Block(env: Env, m: Machine, op: int, n: int): Effect {
    if op == 119 then
      if BlockRefused(env, m, m.alt, n) then Stopped(ERR_MEMACCESS)
      else if n < 0 then Astray
      else Computed(m.pri, m.alt, m.alt, Repeated(BytesOf(m.pri), n / 4))
    else if BlockRefused(env, m, m.pri, n) || BlockRefused(env, m, m.alt, n) then Stopped(ERR_MEMACCESS)
    else if n < 0 || m.pri < 0 || m.pri + n > |m.data| || m.alt < 0 || m.alt + n > |m.data| then Astray
    else if op == 117 then Computed(m.pri, m.alt, m.alt, m.data[m.pri..m.pri + n])
    else Registers(env.compare(m.data[m.alt..m.alt + n], m.data[m.pri..m.pri + n]), m.alt)
  }

  function ViaPointer(m: Machine, a: int): int {
    if InData(m.data, a) then Load(m.data, a) else -1
  }

  function MoveEffect(env: Env, m: Machine, op: int, a: int): Effect {
    match op
    case 1 => ToPri(m, a)
    case 2 => ToAlt(m, a)
    case 3 => ToPri(m, m.frm + a)
    case 4 => ToAlt(m, m.frm + a)
    case 5 => ToPri(m, ViaPointer(m, a))
    case 6 => ToAlt(m, ViaPointer(m, a))
    case 7 => ToPri(m, ViaPointer(m, m.frm + a))
    case 8 => ToAlt(m, ViaPointer(m, m.frm + a))
    case 9 => if IsHole(env, m, m.pri) then Stopped(ERR_MEMACCESS) else ToPri(m, m.pri)
    case 10 => if IsHole(env, m, m.pri) then Stopped(ERR_MEMACCESS) else LoadBytes(m, a)
    case 11 => Registers(a, m.alt)
    case 12 => Registers(m.pri, a)
    case 13 => Registers(Wrap(m.frm + a), m.alt)
    case 14 => Registers(m.pri, Wrap(m.frm + a))
    case 15 => ToCell(m, a, m.pri)
    case 16 => ToCell(m, a, m.alt)
    case 17 => ToCell(m, m.frm + a, m.pri)
    case 18 => ToCell(m, m.frm + a, m.alt)
    case 19 => ToCell(m, ViaPointer(m, a), m.pri)
    case 20 => ToCell(m, ViaPointer(m, a), m.alt)
    case 21 => ToCell(m, ViaPointer(m, m.frm + a), m.pri)
    case 22 => ToCell(m, ViaPointer(m, m.frm + a), m.alt)
    case 23 => if IsHole(env, m, m.alt) then Stopped(ERR_MEMACCESS) else ToCell(m, m.alt, m.pri)
    case 24 => if IsHole(env, m, m.alt) then Stopped(ERR_MEMACCESS) else StoreBytes(m, a)
    case 25 =>
      var offs := Wrap(m.pri * 4 + m.alt);
      if IsHole(env, m, offs) then Stopped(ERR_MEMACCESS) else ToPri(m, offs)
    case 26 =>
      if !IsCount(a) then Astray
      else
        var offs := Wrap(ShiftLeft(m.pri, a) + m.alt);
        if IsHole(env, m, offs) then Stopped(ERR_MEMACCESS) else ToPri(m, offs)
    case 27 => Registers(Wrap(m.pri * 4 + m.alt), m.alt)
    case 31 => Registers(Control(env, m, a), m.alt)
    case 33 => Registers(m.alt, m.alt)
    case 34 => Registers(m.pri, m.pri)
    case 35 => Registers(m.alt, m.pri)
    case _ => Arithmetic(m, op, a)
  }

  function CellEffect(env: Env, m: Machine, op: int, a: int, b: int): Effect {
    match op
    case 89 => Registers(0, m.alt)
    case 90 => Registers(m.pri, 0)
    case 91 => ToCell(m, a, 0)
    case 92 => ToCell(m, m.frm + a, 0)
    case 109 => AddToCell(m, a, 1)
    case 110 => AddToCell(m, m.frm + a, 1)
    case 111 => AddToCell(m, m.pri, 1)
    case 114 => AddToCell(m, a, -1)
    case 115 => AddToCell(m, m.frm + a, -1)
    case 116 => AddToCell(m, m.pri, -1)
    case 121 => if Unsigned(m.pri) > Unsigned(a) then Stopped(ERR_BOUNDS) else Registers(m.pri, m.alt)
    case 131 =>
      if InData(m.data, m.stk) then Computed(Load(m.data, m.stk), m.alt, m.stk, BytesOf(m.pri)) else Astray
    case 132 =>
      if InData(m.data, m.stk) then Computed(m.pri, Load(m.data, m.stk), m.stk, BytesOf(m.alt)) else Astray
    case 154 =>
      if InData(m.data, a) && InData(m.data, b) then Registers(Load(m.data, a), Load(m.data, b)) else Astray
    case 155 =>
      if InData(m.data, m.frm + a) && InData(m.data, m.frm + b)
      then Registers(Load(m.data, m.frm + a), Load(m.data, m.frm + b)) else Astray
    case 156 => ToCell(m, a, b)
    case 157 => ToCell(m, m.frm + a, b)
    case _ => Arithmetic(m, op, a)
  }

  /** The opcodes that leave the stack, the heap, the frame and the flow of control alone. */
  function EffectOf(env: Env, m: Machine, op: int, a: int, b: int): Effect {
    if op <= 35 then MoveEffect(env, m, op, a)
    else if 117 <= op <= 119 then Block(env, m, op, a)
    else if op == 125 || op == 127 || op == 134 || op == 136 || op == 137 then Registers(m.pri, m.alt)
    else CellEffect(env, m, op, a, b)
  }

  // ----- The stack -----

  function Push(m: Machine, v: int): Option<Machine> {
    if InData(m.data, m.stk - 4) then Some(m.(stk := m.stk - 4, data := Store(m.data, m.stk - 4, v))) else None
  }

  datatype Source = Constant | Global | Local | Address

  /** What PUSH.C, PUSH, PUSH.S and PUSH.ADR put on the stack. */
  function Operand(m: Machine, s: Source, a: int): Option<int> {
    match s
    case Constant => Some(a)
    case Global => if InData(m.data, a) then Some(Load(m.data, a)) else None
    case Local => if InData(m.data, m.frm + a) then Some(Load(m.data, m.frm + a)) else None
    case Address => Some(m.frm + a)
  }

  /** The operands one after the other; a later one may read what an earlier one pushed. */
  function PushAll(m: Machine, s: Source, operands: seq<int>): (r: Option<Machine>)
    ensures r.Some? ==> r.value == m.(stk := m.stk - 4 * |operands|, data := r.value.data)
    ensures r.Some? ==> |r.value.data| == |m.data|
    decreases |operands|
  {
    if operands == [] then Some(m)
    else
      var v := Operand(m, s, operands[0]);
      if v.None? then None
      else
        var p := Push(m, v.value);
        if p.None? then None else PushAll(p.value, s, operands[1..])
  }

  /** The opcodes that push their operands, and how they take them. */
  function PushSource(op: int): Option<Source> {
    if op == 39 then Some(Constant)
    else if op == 40 then Some(Global)
    else if op == 41 then Some(Local)
    else if op == 133 then Some(Address)
    else if 138 <= op <= 153 then
      Some(match (op - 138) % 4 { case 0 => Constant case 1 => Global case 2 => Local case _ => Address })
    else None
  }

  function Copies(v: int, n: nat): (s: seq<int>)
    ensures |s| == n
  {
    seq(n, i => v)
  }

  // ----- One step -----

  function GoesTo(m: Option<Machine>, cip: int): Outcome {
    if m.Some? then Goes(m.value.(cip := cip)) else Outside
  }

  predicate Taken(op: int, pri: int, alt: int) {
    match op
    case 51 => true
    case 53 => pri == 0
    case 54 => pri != 0
    case 55 => pri == alt
    case 56 => pri != alt
    case 57 => Unsigned(pri) < Unsigned(alt)
    case 58 => Unsigned(pri) <= Unsigned(alt)
    case 59 => Unsigned(pri) > Unsigned(alt)
    case 60 => Unsigned(pri) >= Unsigned(alt)
    case 61 => pri < alt
    case 62 => pri <= alt
    case 63 => pri > alt
    case _ => pri >= alt
  }

  predicate MarginIsGone(m: Machine) {
    m.hea + STKMARGIN > m.stk
  }

  /** STACK and HEAP, and the checks behind them. */
  function Stack(env: Env, m: Machine, a: int, next: int): Outcome {
    var r := m.(alt := m.stk, stk := m.stk + a, cip := next);
    if !IsCell(r.stk) then Outside
    else if MarginIsGone(r) then Leaves(ERR_STACKERR, r)
    else if r.stk > env.stp then Leaves(ERR_STACKLOW, r)
    else Goes(r)
  }

  function Heap(env: Env, m: Machine, a: int, next: int): Outcome {
    var r := m.(alt := m.hea, hea := m.hea + a, cip := next);
    if !IsCell(r.hea) then Outside
    else if MarginIsGone(r) then Leaves(ERR_STACKERR, r)
    else if r.hea < env.hlw then Leaves(ERR_HEAPLOW, r)
    else Goes(r)
  }

  function Proc(m: Machine, next: int): Outcome {
    var p := Push(m, m.frm);
    if p.None? then Outside
    else
      var r := p.value.(frm := p.value.stk, cip := next);
      if MarginIsGone(r) then Leaves(ERR_STACKERR, r) else Goes(r)
  }

  /** RET, and RETN that also drops the parameters. */
  function Return(env: Env, m: Machine, parameters: bool): Outcome {
    if !InData(m.data, m.stk) || !InData(m.data, m.stk + 4) then Outside
    else
      var offs := Load(m.data, m.stk + 4);
      if Unsigned(offs) >= 4 * |env.code| then Ends(ERR_MEMACCESS, None, m)
      else
        var r := m.(frm := Load(m.data, m.stk), stk := m.stk + 8, cip := offs);
        if !parameters then Goes(r)
        else if !InData(m.data, r.stk) || !IsCell(r.stk + Load(m.data, r.stk) + 4) then Outside
        else Goes(r.(stk := r.stk + Load(m.data, r.stk) + 4))
  }

  /** HALT: a sleep saves everything, anything else resets the stack and the heap. */
  function Halt(m: Machine, err: int, next: int): Outcome {
    var r := m.(cip := next);
    if err == ERR_SLEEP then Sleeps(r, r, Some(m.pri)) else Ends(err, Some(m.pri), r)
  }

  function ViewOf(m: Machine): View {
    View(m.pri, m.stk, m.hea, m.frm, m.cip, m.paramcount, m.data)
  }

  /**
    SYSREQ: the native works on the AMX structure; the registers come from the interpreter's own
    variables if the run goes on, and from the structure if it sleeps. `drop` is what the
    interpreter takes off the stack afterwards, in its own variable only.
    */
  function Sysreq(env: Env, m: Machine, index: int, drop: int): Outcome {
    var (err, v) := env.native(index, ViewOf(m));
    if |v.data| != |m.data| then Outside
    else
      var r := m.(pri := v.pri, stk := m.stk + drop, paramcount := v.paramcount, data := v.data);
      if err == ERR_NONE then Goes(r)
      else if err == ERR_SLEEP then Sleeps(r, r.(stk := v.stk, hea := v.hea, frm := v.frm, cip := v.cip), None)
      else Ends(err, None, r)
  }

  function SwitchTo(env: Env, m: Machine, a: int): Outcome {
    if a % 4 == 0 && Sw.IsTable(env.code, a / 4)
    then Goes(m.(cip := env.code[Sw.Selected(env.code, a / 4, m.pri)]))
    else Outside
  }

  function SetControl(m: Machine, a: int, next: int): Machine {
    match a
    case 2 => m.(hea := m.pri, cip := next)
    case 4 => m.(stk := m.pri, cip := next)
    case 5 => m.(frm := m.pri, cip := next)
    case 6 => m.(cip := m.pri)
    case _ => m.(cip := next)
  }

  function Apply(m: Machine, e: Effect, next: int): Outcome {
    match e
    case Astray => Outside
    case Stopped(err) => Ends(err, None, m)
    case Computed(pri, alt, at, bytes) =>
      if at < 0 || at + |bytes| > |m.data| then Outside
      else Goes(m.(pri := pri, alt := alt, data := Overwrite(m.data, at, bytes), cip := next))
  }

  function Pop(m: Machine, toPri: bool, next: int): Outcome {
    if !InData(m.data, m.stk) then Outside
    else
      var v := Load(m.data, m.stk);
      Goes(if toPri then m.(pri := v, stk := m.stk + 4, cip := next) else m.(alt := v, stk := m.stk + 4, cip := next))
  }

  /** A fetched instruction: `a` and `b` are its first operands, `next` the address behind it. */
  function Execute(env: Env, m: Machine, op: int, operands: seq<int>, next: int): Outcome {
    var a := if operands == [] then 0 else operands[0];
    var b := if |operands| < 2 then 0 else operands[1];
    if op == 32 then Goes(SetControl(m, a, next))
    else if op == 36 then GoesTo(Push(m, m.pri), next)
    else if op == 37 then GoesTo(Push(m, m.alt), next)
    else if op == 38 then (if a < 0 then Outside else GoesTo(PushAll(m, Constant, Copies(m.pri, a)), next))
    else if PushSource(op).Some? then GoesTo(PushAll(m, PushSource(op).value, operands), next)
    else if op == 42 || op == 43 then Pop(m, op == 42, next)
    else if op == 44 then Stack(env, m, a, next)
    else if op == 45 then Heap(env, m, a, next)
    else if op == 46 then Proc(m, next)
    else if op == 47 || op == 48 then Return(env, m, op == 48)
    else if op == 49 then GoesTo(Push(m, next), a)
    else if op == 50 then GoesTo(Push(m, next), m.pri)
    else if op == 52 then Goes(m.(cip := next + a))
    else if op == 51 || 53 <= op <= 64 then Goes(m.(cip := if Taken(op, m.pri, m.alt) then a else next))
    else if op == HALT then Halt(m, a, next)
    else if op == SYSREQ_PRI then Sysreq(env, m.(cip := next), m.pri, 0)
    else if op == SYSREQ_C then Sysreq(env, m.(cip := next), a, 0)
    else if op == SYSREQ_N then
      var p := Push(m, b);
      if p.None? then Outside else Sysreq(env, p.value.(cip := next), a, b + 4)
    else if op == 128 then Goes(m.(cip := m.pri))
    else if op == 129 then SwitchTo(env, m, a)
    else Apply(m, EffectOf(env, m, op, a, b), next)
  }

  /** The opcode at the instruction pointer, and 0, which is none, outside the code. */
  function OpAt(env: Env, m: Machine): int {
    if m.cip >= 0 && m.cip % 4 == 0 && m.cip / 4 < |env.code| then env.code[m.cip / 4] else 0
  }

  /** Fetching reads the opcode and its operands; the debug symbols are stepped over. */
  function Step(env: Env, m: Machine): Outcome {
    if m.cip < 0 || m.cip % 4 != 0 || m.cip / 4 >= |env.code| then Outside
    else
      var k := m.cip / 4;
      var op := env.code[k];
      match InterpreterLayout(op)
      case Refused => Ends(ERR_INVINSTR, None, m)
      case _ =>
        var n := Length(Interpreter, env.code, k);
        if n.None? then Outside
        else
          var next := m.cip + 4 * n.value;
          if op == SYMBOL then Goes(m.(cip := next))
          else Execute(env, m, op, env.code[k + 1..k + n.value], next)
  }
}
