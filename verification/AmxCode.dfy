/**
  The code of an abstract machine, as cells. Three pieces of code take it apart: the loader's
  relocation pass, the interpreter and the disassembler.
  */
module AmxCode {
  import opened Words
  import opened Wrappers

  const SWITCH := 129
  const CASETBL := 130
  const FILE_OP := 124
  const SYMBOL := 126

  /**
    What follows an opcode: a fixed number of operands, a byte count and that many bytes, or a
    case table. `Refused` is an opcode that the decoder does not accept.
    */
  datatype Layout = Fixed(operands: nat) | Skip | Table | Refused

  datatype Decoder = Loader | Interpreter | Disassembler

  // ----- The three decoders -----

  /** `amx_BrowseRelocate`, in the order of its switch. */
  function LoaderLayout(op: int): Layout {
    if 150 <= op <= 153 then Fixed(5)
    else if 146 <= op <= 149 then Fixed(4)
    else if 142 <= op <= 145 then Fixed(3)
    else if 138 <= op <= 141 || 154 <= op <= 157 then Fixed(2)
    else if
      || 1 <= op <= 8 || 10 <= op <= 22 || op == 24 || op == 26 || 28 <= op <= 32
      || 38 <= op <= 41 || op == 44 || op == 45 || op == 52 || 68 <= op <= 71
      || op == 87 || op == 88 || op == 91 || op == 92 || op == 105 || op == 106
      || op == 109 || op == 110 || op == 114 || op == 115 || 117 <= op <= 121 || op == 133
      then Fixed(1)
    else if
      || op == 9 || op == 23 || op == 25 || op == 27 || 33 <= op <= 37 || op == 42 || op == 43
      || 46 <= op <= 48 || op == 50 || 65 <= op <= 67 || 72 <= op <= 86 || op == 89 || op == 90
      || 93 <= op <= 104 || op == 107 || op == 108 || 111 <= op <= 113 || op == 116
      || op == 122 || op == 128 || op == 131 || op == 132 || op == 134 || op == 137
      then Fixed(0)
    else if HasTarget(op) then Fixed(1)
    else if op == 123 then Fixed(1)
    else if op == 135 then Fixed(2)
    else if op == FILE_OP || op == SYMBOL then Skip
    else if op == 125 || op == 127 then Fixed(2)
    else if op == 136 then Fixed(1)
    else if op == CASETBL then Table
    else Refused
  }

  /** The opcodes whose operand is a code address: CALL, the jumps and SWITCH. */
  predicate HasTarget(op: int) {
    op == 49 || op == 51 || 53 <= op <= 64 || op == SWITCH
  }

  /** The parameters that the interpreter takes off the code, opcode by opcode. */
  function InterpreterLayout(op: int): Layout {
    if op <= 0 || op > 157 then Refused
    else if op <= 32 then (if op == 9 || op == 23 || op == 25 || op == 27 then Fixed(0) else Fixed(1))
    else if op <= 43 then (if 38 <= op <= 41 then Fixed(1) else Fixed(0))
    else if op <= 64 then (if op == 50 || 46 <= op <= 48 then Fixed(0) else Fixed(1))
    else if op <= 106 then
      (if 68 <= op <= 71 || op == 87 || op == 88 || op == 91 || op == 92 || op >= 105 then Fixed(1) else Fixed(0))
    else if op <= 121 then
      (if op == 107 || op == 108 || 111 <= op <= 113 || op == 116 then Fixed(0) else Fixed(1))
    else if op == 123 || op == SWITCH || op == 133 || op == 136 then Fixed(1)
    else if op == FILE_OP || op == CASETBL then Refused
    else if op == 125 || op == 127 || op == 135 then Fixed(2)
    else if op == SYMBOL then Skip
    else if op <= 137 then Fixed(0)
    else if op <= 153 then Fixed((op - 138) / 4 + 2)
    else Fixed(2)
  }

  /** The disassembler's opcode table, run by run. */
  function DisassemblerLayout(op: int): Layout {
    if op <= 0 then Refused
    else if op <= 8 then Fixed(1)
    else if op <= 9 then Fixed(0)
    else if op <= 22 then Fixed(1)
    else if op <= 23 then Fixed(0)
    else if op <= 24 then Fixed(1)
    else if op <= 25 then Fixed(0)
    else if op <= 26 then Fixed(1)
    else if op <= 27 then Fixed(0)
    else if op <= 32 then Fixed(1)
    else if op <= 37 then Fixed(0)
    else if op <= 41 then Fixed(1)
    else if op <= 43 then Fixed(0)
    else if op <= 45 then Fixed(1)
    else if op <= 48 then Fixed(0)
    else if op <= 49 then Fixed(1)
    else if op <= 50 then Fixed(0)
    else if op <= 64 then Fixed(1)
    else if op <= 67 then Fixed(0)
    else if op <= 71 then Fixed(1)
    else if op <= 86 then Fixed(0)
    else if op <= 88 then Fixed(1)
    else if op <= 90 then Fixed(0)
    else if op <= 92 then Fixed(1)
    else if op <= 104 then Fixed(0)
    else if op <= 106 then Fixed(1)
    else if op <= 108 then Fixed(0)
    else if op <= 110 then Fixed(1)
    else if op <= 113 then Fixed(0)
    else if op <= 115 then Fixed(1)
    else if op <= 116 then Fixed(0)
    else if op <= 121 then Fixed(1)
    else if op <= 122 then Fixed(0)
    else if op <= 123 then Fixed(1)
    else if op <= 127 then Refused
    else if op <= 128 then Fixed(0)
    else if op <= 129 then Fixed(1)
    else if op <= 130 then Table
    else if op <= 132 then Fixed(0)
    else if op <= 133 then Fixed(1)
    else if op <= 134 then Fixed(0)
    else if op <= 135 then Fixed(2)
    else if op <= 136 then Refused
    else if op <= 137 then Fixed(0)
    else if op <= 141 then Fixed(2)
    else if op <= 145 then Fixed(3)
    else if op <= 149 then Fixed(4)
    else if op <= 153 then Fixed(5)
    else if op <= 157 then Fixed(2)
    else Refused
  }

  function LayoutOf(d: Decoder, op: int): Layout {
    match d
    case Loader => LoaderLayout(op)
    case Interpreter => InterpreterLayout(op)
    case Disassembler => DisassemblerLayout(op)
  }

  /** The decoders never disagree about an opcode: they read it alike, or refuse it. */
  lemma LayoutsAgree(d: Decoder, op: int)
    ensures LayoutOf(d, op) == LoaderLayout(op) || LayoutOf(d, op).Refused?
    ensures LoaderLayout(op).Refused? <==> op <= 0 || op > 157
    ensures InterpreterLayout(op).Refused? <==> op <= 0 || op > 157 || op == FILE_OP || op == CASETBL
    ensures DisassemblerLayout(op).Refused? <==> op <= 0 || op > 157 || 124 <= op <= 127 || op == 136
  {
    InterpreterAgrees(op);
    DisassemblerAgrees(op);
    hide LoaderLayout, InterpreterLayout, DisassemblerLayout;
  }

  lemma InterpreterAgrees(op: int)
    ensures LoaderLayout(op).Refused? <==> op <= 0 || op > 157
    ensures InterpreterLayout(op) == if op == FILE_OP || op == CASETBL then Refused else LoaderLayout(op)
  {}

  lemma DisassemblerAgrees(op: int)
    ensures LoaderLayout(op).Refused? <==> op <= 0 || op > 157
    ensures DisassemblerLayout(op) == if 124 <= op <= 127 || op == 136 then Refused else LoaderLayout(op)
  {}

  // ----- Cutting the code into instructions -----

  /**
    The number of cells of the instruction at `k`; none if the decoder refuses the opcode, if
    the instruction runs past the end of the code or if its count is not a number of whole cells.
    */
  function Length(d: Decoder, code: seq<int>, k: nat): (r: Option<nat>)
    requires k < |code|
    ensures r.Some? ==> r.value > 0 && k + r.value <= |code|
  {
    match LayoutOf(d, code[k])
    case Refused => None
    case Fixed(n) => if k + 1 + n <= |code| then Some(1 + n) else None
    case Skip =>
      if k + 1 < |code| && code[k + 1] >= 0 && code[k + 1] % 4 == 0 && k + 2 + code[k + 1] / 4 <= |code|
      then Some(2 + code[k + 1] / 4) else None
    case Table =>
      if k + 1 < |code| && code[k + 1] >= 0 && k + 3 + 2 * code[k + 1] <= |code|
      then Some(3 + 2 * code[k + 1]) else None
  }

  /** Decoding from `from` on, instruction by instruction, gets to `k`. */
  predicate Reaches(d: Decoder, code: seq<int>, from: nat, k: nat)
    requires k <= |code|
    decreases k - from
  {
    || from == k
    || (from < k && Length(d, code, from).Some? && Reaches(d, code, from + Length(d, code, from).value, k))
  }

  /** `k` is the start of an instruction or the end of the code. */
  predicate IsBoundary(d: Decoder, code: seq<int>, k: int) {
    0 <= k <= |code| && Reaches(d, code, 0, k)
  }

  /** Decoding gets to the end. */
  predicate Accepts(d: Decoder, code: seq<int>) {
    IsBoundary(d, code, |code|)
  }

  lemma {:induction false} ReachesFurther(d: Decoder, code: seq<int>, from: nat, k: nat)
    requires k < |code| && Reaches(d, code, from, k) && Length(d, code, k).Some?
    ensures Reaches(d, code, from, k + Length(d, code, k).value)
    decreases k - from
  {
    hide LayoutOf, Length;
    if from < k {
      ReachesFurther(d, code, from + Length(d, code, from).value, k);
    }
  }

  /** Behind every instruction there is a boundary. */
  lemma NextBoundary(d: Decoder, code: seq<int>, k: nat)
    requires k < |code| && IsBoundary(d, code, k) && Length(d, code, k).Some?
    ensures IsBoundary(d, code, k + Length(d, code, k).value)
  {
    ReachesFurther(d, code, 0, k);
  }

  /** Of two boundaries the later lies behind the whole instruction at the earlier. */
  lemma {:induction false} BoundariesAreApart(d: Decoder, code: seq<int>, from: nat, j: nat, k: nat)
    requires j < k <= |code| && Reaches(d, code, from, j) && Reaches(d, code, from, k)
    ensures Length(d, code, j).Some? && j + Length(d, code, j).value <= k
    decreases j - from
  {
    hide LayoutOf, Length;
    if from < j {
      BoundariesAreApart(d, code, from + Length(d, code, from).value, j, k);
    } else {
      ReachesIsAhead(d, code, from + Length(d, code, from).value, k);
    }
  }

  lemma ReachesIsAhead(d: Decoder, code: seq<int>, from: nat, k: nat)
    requires k <= |code| && Reaches(d, code, from, k)
    ensures from <= k
  {}

  /** In accepted code every boundary before the end is a whole instruction. */
  lemma AcceptedHasLength(d: Decoder, code: seq<int>, k: nat)
    requires k < |code| && Accepts(d, code) && IsBoundary(d, code, k)
    ensures Length(d, code, k).Some?
  {
    BoundariesAreApart(d, code, 0, k, |code|);
  }

  /** The opcodes at the boundaries that `d` refuses are the only thing it can disagree about. */
  predicate RefusesNone(d: Decoder, code: seq<int>) {
    forall k :: 0 <= k < |code| && IsBoundary(Loader, code, k) ==> !LayoutOf(d, code[k]).Refused?
  }

  lemma SameLength(d: Decoder, code: seq<int>, k: nat)
    requires k < |code| && !LayoutOf(d, code[k]).Refused?
    ensures Length(d, code, k) == Length(Loader, code, k)
  {
    LayoutsAgree(d, code[k]);
    hide LoaderLayout, InterpreterLayout, DisassemblerLayout;
  }

  lemma {:induction false} SameReach(d: Decoder, code: seq<int>, from: nat, k: nat)
    requires Accepts(Loader, code) && RefusesNone(d, code)
    requires k <= |code| && IsBoundary(Loader, code, from)
    ensures Reaches(Loader, code, from, k) <==> Reaches(d, code, from, k)
    decreases k - from
  {
    hide LayoutOf, LoaderLayout, InterpreterLayout, DisassemblerLayout, Length;
    if from < k {
      SameLength(d, code, from);
      AcceptedHasLength(Loader, code, from);
      NextBoundary(Loader, code, from);
      SameReach(d, code, from + Length(Loader, code, from).value, k);
    }
  }

  /** The step from one instruction to the next, with refused opcodes stepped over as the loader does. */
  function Stride(d: Decoder, code: seq<int>, k: nat): (r: Option<nat>)
    requires k < |code|
    ensures r.Some? ==> r.value > 0 && k + r.value <= |code|
  {
    if LayoutOf(d, code[k]).Refused? then Length(Loader, code, k) else Length(d, code, k)
  }

  predicate Strides(d: Decoder, code: seq<int>, from: nat, k: nat)
    requires k <= |code|
    decreases k - from
  {
    || from == k
    || (from < k && Stride(d, code, from).Some? && Strides(d, code, from + Stride(d, code, from).value, k))
  }

  lemma {:induction false} StridesReach(d: Decoder, code: seq<int>, from: nat, k: nat)
    requires k <= |code|
    ensures Strides(d, code, from, k) <==> Reaches(Loader, code, from, k)
    decreases k - from
  {
    hide LayoutOf, LoaderLayout, InterpreterLayout, DisassemblerLayout, Length;
    if from < k {
      if !LayoutOf(d, code[from]).Refused? {
        SameLength(d, code, from);
      }
      if Stride(d, code, from).Some? {
        StridesReach(d, code, from + Stride(d, code, from).value, k);
      }
    }
  }

  /**
    All decoders cut all code, case tables included, into the same instructions, if they step over
    what they refuse; and code that the loader accepts is accepted by every decoder that refuses
    none of its opcodes.
    */
  lemma SameCut(d: Decoder, code: seq<int>, k: nat)
    requires k <= |code|
    ensures IsBoundary(Loader, code, k) <==> Strides(d, code, 0, k)
    ensures k < |code| && !LayoutOf(d, code[k]).Refused? ==> Length(d, code, k) == Length(Loader, code, k)
    ensures Accepts(Loader, code) && RefusesNone(d, code) ==>
      Accepts(d, code) && (IsBoundary(Loader, code, k) <==> IsBoundary(d, code, k))
  {
    hide LayoutOf, LoaderLayout, InterpreterLayout, DisassemblerLayout, Length;
    StridesReach(d, code, 0, k);
    if k < |code| && !LayoutOf(d, code[k]).Refused? {
      SameLength(d, code, k);
    }
    if Accepts(Loader, code) && RefusesNone(d, code) {
      assert IsBoundary(Loader, code, 0);
      SameReach(d, code, 0, |code|);
      SameReach(d, code, 0, k);
    }
  }

  // ----- Relocation -----

  /** Cell `i` is a code address inside the instruction at `k`. */
  predicate IsAddressOf(code: seq<int>, k: nat, i: int)
    requires k < |code|
  {
    || (HasTarget(code[k]) && i == k + 1)
    || (code[k] == CASETBL && k + 1 < |code| && k + 2 <= i <= k + 2 + 2 * code[k + 1] && (i - k) % 2 == 0)
  }

  /** Cell `i` is an operand of a call, jump or switch, or an address in a case table. */
  ghost predicate IsAddress(code: seq<int>, i: int) {
    exists k :: 0 <= k < |code| && IsBoundary(Loader, code, k) && IsAddressOf(code, k, i)
  }

  /** Adding the address of the code, in a cell. */
  function Plus(v: int, base: int): (r: int)
    ensures -0x8000_0000 <= r < 0x8000_0000 && (r - (v + base)) % 0x1_0000_0000 == 0
  {
    (v + base + 0x8000_0000) % CELL - 0x8000_0000
  }

  /** The jump that the interpreter takes on the relocated cell is the one in the file. */
  lemma RelocationIsUndone(v: int, base: int)
    requires -0x8000_0000 <= v < 0x8000_0000
    ensures Plus(Plus(v, base), -base) == v
  {}

  ghost predicate IsRelocated(code: seq<int>, base: int, image: seq<int>) {
    && |image| == |code|
    && forall i :: 0 <= i < |code| ==> image[i] == if IsAddress(code, i) then Plus(code[i], base) else code[i]
  }

  /** Inside one instruction only that instruction decides what is an address. */
  lemma AddressIsOwn(code: seq<int>, k: nat, i: nat)
    requires k < |code| && IsBoundary(Loader, code, k)
    requires Length(Loader, code, k).Some? && k <= i < k + Length(Loader, code, k).value
    ensures IsAddress(code, i) <==> IsAddressOf(code, k, i)
  {
    hide LoaderLayout, Reaches, Length;
    if IsAddress(code, i) {
      var j :| 0 <= j < |code| && IsBoundary(Loader, code, j) && IsAddressOf(code, j, i);
      if j < k {
        BoundariesAreApart(Loader, code, 0, j, k);
        AddressIsInside(code, j, i);
      } else if k < j {
        BoundariesAreApart(Loader, code, 0, k, j);
      }
    }
  }

  lemma AddressIsInside(code: seq<int>, k: nat, i: int)
    requires k < |code| && Length(Loader, code, k).Some? && IsAddressOf(code, k, i)
    ensures k < i < k + Length(Loader, code, k).value
  {}

  ghost predicate RelocatedBelow(code: seq<int>, base: int, image: seq<int>, k: int) {
    && |image| == |code|
    && forall i :: 0 <= i < k && i < |code| ==>
      image[i] == if IsAddress(code, i) then Plus(code[i], base) else code[i]
  }

  /** Relocated code is cut like the code in the file, and has the same opcodes and counts. */
  lemma {:induction false} RelocationKeepsReach(code: seq<int>, base: int, image: seq<int>, from: nat, k: nat)
    requires Accepts(Loader, code) && IsRelocated(code, base, image)
    requires k <= |code| == |image| && IsBoundary(Loader, code, from)
    ensures Reaches(Loader, code, from, k) <==> Reaches(Loader, image, from, k)
    decreases k - from
  {
    hide LayoutOf, Length, IsRelocated;
    if from < k {
      RelocationKeepsLength(code, base, image, from);
      NextBoundary(Loader, code, from);
      RelocationKeepsReach(code, base, image, from + Length(Loader, code, from).value, k);
    }
  }

  lemma RelocationKeepsLength(code: seq<int>, base: int, image: seq<int>, k: nat)
    requires Accepts(Loader, code) && IsRelocated(code, base, image)
    requires k < |code| && IsBoundary(Loader, code, k)
    ensures image[k] == code[k] && Length(Loader, code, k).Some?
    ensures Length(Loader, image, k) == Length(Loader, code, k)
  {
    hide IsBoundary, Accepts, IsAddress;
    AcceptedHasLength(Loader, code, k);
    AddressIsOwn(code, k, k);
    if Length(Loader, code, k).value > 1 {
      AddressIsOwn(code, k, k + 1);
    }
  }

  datatype Verdict = Accepted | InvalidInstruction | Malformed

  /** Decoding gets to an instruction that it cannot take: an unknown opcode or a malformed one. */
  ghost predicate IsStuck(code: seq<int>, unknown: bool) {
    exists k :: IsStuckAt(code, k, unknown)
  }

  predicate IsStuckAt(code: seq<int>, k: int, unknown: bool) {
    && 0 <= k < |code| && IsBoundary(Loader, code, k) && Length(Loader, code, k).None?
    && LoaderLayout(code[k]).Refused? == unknown
  }

  /** Decoding can only get stuck at one place, and then the code is not accepted. */
  lemma StuckOnce(code: seq<int>, k: int, unknown: bool)
    requires IsStuckAt(code, k, unknown)
    ensures !Accepts(Loader, code)
    ensures IsStuck(code, unknown) && !IsStuck(code, !unknown)
  {
    hide LoaderLayout, Reaches, Length;
    if Accepts(Loader, code) {
      AcceptedHasLength(Loader, code, k);
    }
    if IsStuck(code, !unknown) {
      var j :| IsStuckAt(code, j, !unknown);
      if j < k {
        BoundariesAreApart(Loader, code, 0, j, k);
      } else if k < j {
        BoundariesAreApart(Loader, code, 0, k, j);
      }
    }
  }

  lemma AcceptedIsNotStuck(code: seq<int>, unknown: bool)
    requires Accepts(Loader, code)
    ensures !IsStuck(code, unknown)
  {
    if k :| IsStuckAt(code, k, unknown) {
      StuckOnce(code, k, unknown);
    }
  }

  lemma RelocatedFurther(code: seq<int>, base: int, before: seq<int>, image: seq<int>, k: nat, n: nat)
    requires k < |code| && IsBoundary(Loader, code, k) && Length(Loader, code, k) == Some(n)
    requires RelocatedBelow(code, base, before, k)
    requires |image| == |code| && image[..k] == before[..k]
    requires forall i :: k <= i < k + n ==>
      image[i] == if IsAddressOf(code, k, i) then Plus(code[i], base) else code[i]
    ensures RelocatedBelow(code, base, image, k + n)
  {
    hide IsAddress, IsAddressOf, IsBoundary, Length, Plus;
    forall i | 0 <= i < k + n && i < |code|
      ensures image[i] == if IsAddress(code, i) then Plus(code[i], base) else code[i]
    {
      if i < k {
        assert image[i] == image[..k][i] == before[i];
      } else {
        AddressIsOwn(code, k, i);
      }
    }
  }

  /** One round of the loader's pass: relocates the instruction at `cip`. */
  method BrowseOne(image: array<int>, base: int, cip: nat) returns (size: Option<nat>)
    requires cip < image.Length
    modifies image
    ensures size == Length(Loader, old(image[..]), cip)
    ensures size.Some? ==> forall i :: cip <= i < cip + size.value ==>
      image[i] == if IsAddressOf(old(image[..]), cip, i) then Plus(old(image[i]), base) else old(image[i])
    ensures image[..cip] == old(image[..cip])
    ensures size.Some? ==> forall i :: cip + size.value <= i < image.Length ==> image[i] == old(image[i])
  {
    var op := image[cip];
    match LoaderLayout(op) {
      case Refused =>
        return None;
      case Fixed(n) =>
        if cip + 1 + n > image.Length {
          return None;
        }
        if HasTarget(op) {
          image[cip + 1] := Plus(image[cip + 1], base);
        }
        return Some(1 + n);
      case Skip =>
        if cip + 1 >= image.Length {
          return None;
        }
        var num := image[cip + 1];
        if num < 0 || num % 4 != 0 || cip + 2 + num / 4 > image.Length {
          return None;
        }
        return Some(2 + num / 4);
      case Table =>
        if cip + 1 >= image.Length {
          return None;
        }
        var num := image[cip + 1];
        if num < 0 || cip + 3 + 2 * num > image.Length {
          return None;
        }
        BrowseTable(image, base, cip + 2, num);
        return Some(3 + 2 * num);
    }
  }

  /** The default and the `num` record addresses, from cell `at` on. */
  method BrowseTable(image: array<int>, base: int, at: nat, num: nat)
    requires at + 2 * num < image.Length
    modifies image
    ensures forall j :: 0 <= j < image.Length ==>
      image[j] == if at <= j <= at + 2 * num && (j - at) % 2 == 0 then Plus(old(image[j]), base) else old(image[j])
  {
    var i := 0;
    while i <= num
      invariant 0 <= i <= num + 1
      invariant forall j :: 0 <= j < image.Length ==>
        image[j] == if at <= j < at + 2 * i && (j - at) % 2 == 0 then Plus(old(image[j]), base) else old(image[j])
    {
      image[at + 2 * i] := Plus(image[at + 2 * i], base);
      i := i + 1;
    }
  }

  /**
    The loader's pass, on the code in place. `Malformed` is code with an instruction that is cut
    off or has a count of no whole number of cells; the source does not look for it.
    */
  method Browse(image: array<int>, base: int) returns (verdict: Verdict)
    modifies image
    ensures verdict.Accepted? <==> Accepts(Loader, old(image[..]))
    ensures verdict.Accepted? ==> IsRelocated(old(image[..]), base, image[..])
    ensures verdict.InvalidInstruction? <==> IsStuck(old(image[..]), true)
    ensures verdict.Malformed? <==> IsStuck(old(image[..]), false)
  {
    ghost var code := image[..];
    hide LoaderLayout, Reaches, Length, IsAddress, IsAddressOf, IsStuck, RelocatedBelow;
    StartIsBoundary(code, base);
    var cip: nat := 0;
    while cip < image.Length
      invariant cip <= image.Length && IsBoundary(Loader, code, cip)
      invariant forall i :: cip <= i < image.Length ==> image[i] == code[i]
      invariant RelocatedBelow(code, base, image[..], cip)
    {
      ghost var before := image[..];
      var op := image[cip];
      SameRest(code, before, cip);
      var size := BrowseOne(image, base, cip);
      if size.None? {
        StuckOnce(code, cip, LoaderLayout(op).Refused?);
        return if LoaderLayout(op).Refused? then InvalidInstruction else Malformed;
      }
      RelocatedFurther(code, base, before, image[..], cip, size.value);
      NextBoundary(Loader, code, cip);
      cip := cip + size.value;
    }
    AcceptedIsNotStuck(code, true);
    AcceptedIsNotStuck(code, false);
    AllRelocated(code, base, image[..]);
    verdict := Accepted;
  }

  lemma StartIsBoundary(code: seq<int>, base: int)
    ensures IsBoundary(Loader, code, 0) && RelocatedBelow(code, base, code, 0)
  {}

  lemma AllRelocated(code: seq<int>, base: int, image: seq<int>)
    requires RelocatedBelow(code, base, image, |code|)
    ensures IsRelocated(code, base, image)
  {}

  /** An instruction is read from its own cells only. */
  lemma SameRest(code: seq<int>, image: seq<int>, k: nat)
    requires k < |code| == |image|
    requires forall i :: k <= i < |code| ==> image[i] == code[i]
    ensures Length(Loader, image, k) == Length(Loader, code, k)
    ensures forall i :: IsAddressOf(image, k, i) <==> IsAddressOf(code, k, i)
  {
    hide LoaderLayout;
  }
}
