# Models of the Pawn tool chain and its run time

This project models the parts of the repository where the code is hard to get right and proves
that they do what they are for. Cells are 32 bits wide and memory is little-endian. Code that
updates state in place is modelled by methods over arrays and classes; what they are proved
against are functions on values, and the properties of those functions are lemmas.

- **Compact code** (`CompactFormat`, `CompactLoader`, `CompactWriter`, `CompactRoundTrip`). The
  assembler writes cells as groups of seven bits, the loader expands the stream inside its own
  buffer from the end, with a ring for cells that would overwrite unread bytes. The expansion is
  the obvious forward decoder; the ring is large enough exactly under a stated bound; and what
  the assembler accepts is loaded back cell by cell.
- **The abstract machine** (`AmxConstants`, `AmxCode`, `AmxSwitch`, `AmxMemory`, `AmxAlu`, `AmxMachine`,
  `AmxRun`, `AmxOpcodes`, `AmxFrames`, `AmxCalls`). Three decoders of the code agree on where
  instructions start; the loader relocates exactly the operands that the interpreter can go to; a step
  relation gives each opcode its effect, which is stated once more, opcode by opcode, on registers and
  memory alone. On it rest the chain of saved frames, the return that matches a call, the instruction pointer
  that is always at an instruction, runs split by sleeps, and a host that finds its stack and heap
  as it left them.
- **The peephole optimizer** (`Peephole`, `PeepholeSums`, `PeepholeArrays`, `PeepholeCells`,
  `PeepholeContext`). The rewrite rules of the compiler mean the same to the interpreter as what they
  replace, for all operands and states, errors included; each lemma says which registers its rule
  gives up. Rules that give up nothing may be applied in the middle of a block.
- **The hook dispatcher** (`AmxHost`, `AmxArguments`, `AmxContract`, `DynHook`). Handlers are called
  in the order of a snapshot, with the caller's arguments, up to the first that stops; the original
  is called exactly if none did; the stack discipline of the host holds in both cases. What a call of
  the interpreter does to the structure, whether it refuses, ends, sleeps or leaves early, is one
  contract (`AmxHost.Obeys`), which the hook relies on and the interpreter is proved to keep. What
  arrives of a mixed list of cells and strings is one function, which the passing loop is proved
  against.
- **The compact set** (`CompactSet`, `CompactWalk`). The natives keep a sorted array that stands
  for a set; the `foreach` loop over it, in both directions, is a walk by value however its body
  changes the set, and the short cut that the compiler emits refines that walk exactly under a stated
  condition on the slots. Bodies that only add meet it, and so do bodies that only remove, on the way
  down as long as they remove nothing below the visited value.
- **Multi-word division** (`Arith`, `Div64`), **packed strings** (`PackedCell`, `PackedStrings`),
  **UTF-8** (`Utf8`), **URL encoding** (`UrlEncode`), **the memory file** (`Lines`, `MemFile`). Bytes
  and cells are the types of `Words`.
- **INI files** (`Lines`, `IniText`, `IniBuffer`, `IniFile`, `IniNames`, `IniCache`, `IniWrite`, `IniPuts`,
  `IniRoundTrip`, `IniOthers`). The quoting writer and the cleaning reader undo each other under an
  exact condition; names are found in any case of their letters; the rewrite through a cache that holds
  no text equals a plain line edit; a setting that was put is got back, one that was deleted is gone
  exactly if it was there once, and all others are what they were.

Where the natural statement does not hold, the model keeps what the code does and a lemma gives
the exact condition: the quotient of `div64_32` fits a cell exactly if the high cell is below the
divisor (`Div64.ExactIffQuotientFits`); SDIV divides rounding down exactly if the dividend and the
quotient leave the same remainder (`AmxAlu.SdivIsFlooredIff`, `AmxAlu.SdivOfSix`); the rewrite rule
for a constant less a local keeps PRI exactly if the difference is 0 or the smallest cell
(`PeepholeSums.ConstantDifference`), and those for storing a constant and for pushing ALT keep PRI
exactly if it held that value before (`PeepholeCells.StoreConstant`, `Peephole.MovePushIsPush`); a
sleep is transparent exactly if the native leaves the machine's pointers alone and the checks on
entry pass (`AmxRun.SysreqSleeps`), but in SYSREQ.N exactly if the native has moved the stack
pointer of the structure over the parameters
(`AmxRun.SysreqNSleeps`); the short cut of `foreach` goes where `setnext` would exactly if the slot
of the visited value is in use or the last slot in use holds nothing larger, which a body that removes
and adds can break (`CompactWalk.Misled`); downwards it goes where `setprev` would exactly if that slot
is in use or the first, or its neighbour holds what the nearest smaller slot in use holds, which one
removal can break (`CompactWalk.Repeated`); both are `CompactWalk.ShortCut`, with the slots stated in
`CompactWalk.IsSafeAt`; the ring of the loader suffices exactly under a bound on the encoded prefixes
(`CompactLoader.RingCapacity`); a run that ends gives its host the stack without the parameters and the
heap as it was exactly if it was not continued, or had slept with the stack and heap it started on
(`AmxContract.EndedRestores`, `AmxContract.SleptWithLocal`); `amx_Allot` keeps its margin exactly for
requests that fit the gap (`AmxHost.AllotTestIsExact`); `Exec_hook` hands a handler all n
arguments exactly if n is 0 or `hea + 64 <= stk - 4*(n - 1)` (`AmxHost.Fitting`), and `dynhook_call`
exactly if that holds with the strings added to the heap (`AmxArguments.EverythingArrives`);
`amx_UTF8Put` is undone exactly for values that are not negative (`Utf8.PutThenGet`); an INI value
comes back exactly if it is quoted or has no outer blanks (`IniText.ValueRoundTrip`).

What comes from outside is a parameter or is chosen arbitrarily: native functions and the
comparison of memory blocks are functions in `AmxMachine.Env`, a handler is any behaviour that obeys the
contract of `DynHook.Plugin.Exec`, and whether the allocator has memory left is an argument of
`MemFile.File.Write`. Runs have a bound on their steps (`fuel`); every statement holds for every
bound.

## Model

| member | source | states |
|---|---|---|
| `Div64.BorrowTestIsExact` | compiler/source/amx/fixed.c:172-173 | comparing the wrapped difference with the complement of the subtrahend detects a borrow in every case, and only then |
| `Div64.EstimateNeverTooLarge` | compiler/source/amx/fixed.c:166-171 | dividing by the high half of the divisor plus one never gives more than the true digit, and the estimate is a half word |
| `Div64.EstimateDigit` | compiler/source/amx/fixed.c:169-171 | the two half-word products put together are the whole product of estimate and divisor |
| `Div64.SubtractLow` | compiler/source/amx/fixed.c:190-191 | the two cells together lose exactly the subtrahend, borrow included |
| `Div64.CorrectHighDigit` | compiler/source/amx/fixed.c:177-183 | the correcting loop ends, with a remainder below the divisor shifted up by a half word |
| `Div64.HighDigit` | compiler/source/amx/fixed.c:163-183 | estimate and correction give the high digit and leave the matching remainder |
| `Div64.CorrectLowDigit` | compiler/source/amx/fixed.c:196-201 | the same for the low digit, whose half word does not overflow |
| `Div64.LowDigit` | compiler/source/amx/fixed.c:184-201 | the low digit leaves the remainder of the whole division |
| `Div64.LowDigitStaysBelowBase` | compiler/source/amx/fixed.c:197-201 | no increment of the low digit can wrap around |
| `Div64.DigitsMakeQuotient` | compiler/source/amx/fixed.c:203 | two digits and a remainder below the divisor are the one quotient and remainder |
| `Div64.Divide` | compiler/source/amx/fixed.c:151-204 | the result is the quotient of the two cells by the divisor, as a cell, and the remainder is left in `t[0]` with `t[1]` zero |
| `Div64.ExactIffQuotientFits` | compiler/source/amx/fixed.c:160-161 | the cell is the whole quotient exactly if `t[1]` is below the divisor |
| `CompactFormat.ValueIsTwosComplement` | compiler/source/amx/amx.c:830-846 | the value of a group is its digits in base 128, taken as two's complement by the sign bit of its first byte |
| `CompactFormat.AccumulateIsDigits` | compiler/source/amx/amx.c:830-839 | shifting in group after group is positional notation modulo the cell |
| `CompactFormat.ConcatGroups` | compiler/source/amx/amx.c:830-839 | cutting a stream into groups loses nothing |
| `CompactFormat.GroupsConcat` | compiler/source/amx/amx.c:830-839 | groups put behind each other are cut apart as they were: no group is the beginning of another |
| `CompactLoader.SpareRing.Park` | compiler/source/amx/amx.c:858-862 | parking appends to the ring buffer, modulo its size |
| `CompactLoader.SpareRing.Drop` | compiler/source/amx/amx.c:848-852 | taking out advances the ring by its oldest cell |
| `CompactLoader.SignExtend` | compiler/source/amx/amx.c:841-846 | the loop that fills in bytes of ones gives the two's complement extension |
| `CompactLoader.ReadGroupBackward` | compiler/source/amx/amx.c:828-846 | reading the last group from its end gives its forward value and stops at its start |
| `CompactLoader.FlushRing` | compiler/source/amx/amx.c:848-852 | exactly the waiting cells whose place is behind the unread bytes are stored, and no unread byte is touched |
| `CompactLoader.StoreOrPark` | compiler/source/amx/amx.c:853-863 | a cell is stored if its place is free and parked otherwise; it fails exactly if the ring is full |
| `CompactLoader.ExpandCell` | compiler/source/amx/amx.c:828-863 | one round keeps the split into unread bytes, parked cells in descending order and finished cells; it fails exactly if too many cells wait |
| `CompactLoader.ExpandGroups` | compiler/source/amx/amx.c:815-867 | all rounds: the finished image, with bytes behind it untouched, exactly if the ring never overflows |
| `CompactLoader.Expand` | compiler/source/amx/amx.c:815-867 | expanding in place leaves exactly the cells of the forward decoder, for every well-formed stream that the ring can take, and says exactly which those are |
| `CompactLoader.WaitingIs` | compiler/source/amx/amx.c:853-863 | the number of waiting cells is the number of later cells that start before the encoded length |
| `CompactLoader.RingCapacity` | compiler/source/amx/amx.c:848-863 | for every stream the ring suffices exactly if each prefix of k cells that leaves more than 64 others is encoded in fewer than 4(k+64) bytes; for a stream no longer than its cells that is so exactly if all prefixes are |
| `CompactWriter.CutDigits` | compiler/source/compiler/sc6.c:257-261 | the loop that cuts a cell leaves its base-128 digits |
| `CompactWriter.NoShorterTail` | compiler/source/compiler/sc6.c:262-270 | dropping redundant leading groups stops only where fewer groups could not hold the cell |
| `CompactWriter.EncodeCell` | compiler/source/compiler/sc6.c:239-277 | the bytes are one group with the value of the cell, and no group with that value is shorter |
| `CompactWriter.Writer.WriteEncoded` | compiler/source/compiler/sc6.c:279-301 | the stream grows by the encoded cells; it is given up exactly if a prefix runs ahead by the margin |
| `CompactWriter.Writer.WriteEncodedN` | compiler/source/compiler/sc6.c:303-325 | the same for a run of one cell, although only its end is tested |
| `CompactWriter.MarginOfRun` | compiler/source/compiler/sc6.c:312-316 | testing the margin once behind a run of equal cells is testing it behind each |
| `CompactWriter.BrokenMarginStays` | compiler/source/compiler/sc6.c:292-295 | a stream that broke the margin cannot be repaired by what follows |
| `CompactRoundTrip.MarginFitsRing` | compiler/source/compiler/sc6.c:292-295 | the margin of the assembler is safe for the loader: at most fifteen cells ever wait |
| `CompactRoundTrip.EncodedStream` | compiler/source/compiler/sc6.c:239-301 | what the assembler writes is decoded to the cells it was given |
| `CompactRoundTrip.AssembleAndLoad` | compiler/source/compiler/sc6.c:279-301 | assembler and loader together give back every cell, exactly if the margin holds and the stream is no longer than the cells |
| `AmxCode.LayoutsAgree` | compiler/source/compiler/pawndisasm.c:58-217 | loader, interpreter and disassembler read every opcode alike or refuse it, and these are the opcodes that each refuses |
| `AmxCode.BoundariesAreApart` | compiler/source/amx/amx.c:542-789 | instructions do not overlap |
| `AmxCode.NextBoundary` | compiler/source/amx/amx.c:542-789 | behind an instruction the next one starts |
| `AmxCode.SameCut` | compiler/source/compiler/pawndisasm.c:516-553 | all code, switches included, is cut into the same instructions by loader, interpreter and disassembler, if each steps over what it refuses; and a decoder that refuses none of the opcodes of accepted code accepts it too |
| `AmxCode.AddressIsOwn` | compiler/source/amx/amx.c:725-784 | whether a cell is an address is decided by the instruction that it is part of |
| `AmxCode.BrowseTable` | compiler/source/amx/amx.c:772-784 | of a case table the default and the record addresses are relocated, not the labels |
| `AmxCode.BrowseOne` | compiler/source/amx/amx.c:542-788 | one instruction: its size, and relocation of its addresses only |
| `AmxCode.Browse` | compiler/source/amx/amx.c:501-812 | the pass accepts exactly the code that can be cut to its end, and then exactly the operands of calls, jumps and switches and the addresses of case tables have the base added; code with a cut-off instruction or a bad count, which the source lets pass, gets a verdict of its own |
| `AmxCode.StuckOnce` | compiler/source/amx/amx.c:544-547 | code with an instruction that cannot be taken is not accepted, and it fails in one way only |
| `AmxCode.RelocationKeepsReach` | compiler/source/amx/amx.c:501-812 | relocated code is cut like the code in the file |
| `AmxCode.RelocationIsUndone` | compiler/source/amx/amx.c:487-495 | the jump taken on a relocated cell is the one in the file |
| `AmxSwitch.SelectedIsPaired` | compiler/source/amx/amx.c:2779-2802 | in a sorted table the switch takes the address paired with PRI if PRI is a label and the default otherwise, over the whole signed range |
| `AmxSwitch.SearchMisses` | compiler/source/amx/amx.c:2785-2800 | a search that finds nothing has left out no label |
| `AmxSwitch.Switch` | compiler/source/amx/amx.c:2779-2802 | the loop of the interpreter finds what the recursive search says |
| `AmxSwitch.SelectedIsAddress` | compiler/source/amx/amx.c:772-784 | every cell that a switch can take its target from is one that the loader relocates |
| `AmxSwitch.SwitchAfterRelocation` | compiler/source/amx/amx.c:2779-2802 | after relocation the switch goes where the file says |
| `AmxMemory.LoadStored` | compiler/source/amx/amx.c:1788-1805 | a stored cell reads back, wrapped to the cell |
| `AmxMemory.LoadElsewhere` | compiler/source/amx/amx.c:1788-1805 | a write elsewhere leaves a cell alone, aligned or not |
| `AmxRun.RunKeepsReset` | compiler/source/amx/amx.c:1932-1991 | no step changes the values that ABORT resets the stack and heap to, sleeps and continuations included |
| `AmxRun.SplitRunIsUnsplitRun` | compiler/source/amx/amx.c:1944-1953 | if natives that sleep leave the pointers of the structure alone, and the run sleeps only where there is room and not in SYSREQ.N, then however many sleeps split it, continuing computes what the run without them would |
| `AmxRun.SleepNeedsRoom` | compiler/source/amx/amx.c:2699-2759 | with such natives a sleep by HALT, SYSREQ.C or SYSREQ.PRI is transparent exactly if the checks on entry pass |
| `AmxRun.SleepIsFetched` | compiler/source/amx/amx.c:2699-2844 | only these three and SYSREQ.N sleep |
| `AmxRun.HaltSleeps` | compiler/source/amx/amx.c:2699-2715 | a sleep by HALT is transparent exactly if the checks on entry pass |
| `AmxRun.SysreqSleeps` | compiler/source/amx/amx.c:2741-2759 | a sleep by SYSREQ.C is transparent exactly if the native leaves the stack, heap, frame and instruction pointers alone and the checks pass |
| `AmxRun.SysreqPriSleeps` | compiler/source/amx/amx.c:2723-2740 | the same for SYSREQ.PRI |
| `AmxRun.SysreqNSleeps` | compiler/source/amx/amx.c:2823-2844 | a sleep by SYSREQ.N is transparent exactly if the native has itself taken the parameters off the stack of the structure, leaves the other pointers alone, and the checks pass there |
| `AmxRun.Amx.Exec` | compiler/source/amx/amx.c:1853-1996 | one call of the interpreter: enters, runs, and on return the AMX structure is the saved state of a sleep or has stack and heap reset, with PRI as the result of a halt; if the checks on entry fail, it is as before but for the parameters already pushed |
| `AmxRun.Amx.ExecToEnd` | compiler/source/amx/pawnrun/prun5.c:331-333 | a host that continues after every sleep: when the program ends, the stack is the entry stack without the parameters, and the heap is the entry heap |
| `AmxContract.Call` | compiler/source/amx/amx.c:1853-1996 | one call of the interpreter keeps the contract that the host and the hook rely on: a refused call leaves the structure alone, but for parameters already counted off; a run that ended has stack and heap reset, to the values at the call or, when continued, to those in the structure; a sleep holds them; an early return is an error |
| `AmxContract.EndedRestores` | compiler/source/amx/amx.c:1944-1991 | a run that ends leaves the stack without the parameters and the heap as it was exactly if it was not continued, or had slept with the stack and heap it started on |
| `AmxContract.SleptWithLocal` | compiler/source/amx/amx.c:1944-1953 | a continued run that halts leaves the stack elsewhere, if the sleep was deeper in the stack |
| `AmxContract.RunKeepsSize` | compiler/source/amx/amx.c:1996-2962 | over every run the data block keeps its size, no parameters wait, and an early return carries an error other than that of a sleep |
| `AmxAlu.BitwiseIsBitwise` | compiler/source/amx/amx.c:2490-2498 | AND, OR and XOR work on each of the 32 bits |
| `AmxAlu.SdivAltIsFloored` | compiler/source/amx/amx.c:2438-2463 | SDIV.ALT divides rounding down, with the matching remainder, for all cells but the one quotient that does not fit, which wraps |
| `AmxAlu.SdivIsFlooredIff` | compiler/source/amx/amx.c:2413-2437 | SDIV does so exactly if the dividend and the quotient leave the same remainder, because it takes the remainder of the quotient; the one quotient that does not fit wraps |
| `AmxAlu.SdivOfSix` | compiler/source/amx/amx.c:2422-2424 | six by two: SDIV leaves a remainder of one |
| `AmxOpcodes.ConstantExecutes` | compiler/source/amx/amx.c:2059-2072 | CONST and ADDR load a constant, or an address in the frame |
| `AmxOpcodes.MoveExecutes` | compiler/source/amx/amx.c:2220-2230 | MOVE, XCHG and ZERO of a register, and the instructions that do nothing |
| `AmxOpcodes.LoadExecutes` | compiler/source/amx/amx.c:2000-2035 | LOAD reads a global or a local cell, LREF the cell that it points to, each into its register, exactly if all of them lie in the memory |
| `AmxOpcodes.StoreExecutes` | compiler/source/amx/amx.c:2073-2108 | STOR and SREF write the register to the same places, under the same condition |
| `AmxOpcodes.CellExecutes` | compiler/source/amx/amx.c:2522-2639 | ZERO, INC and DEC change one cell: a global one, a local one, or the one at PRI |
| `AmxOpcodes.PairExecutes` | compiler/source/amx/amx.c:2940-2962 | both registers are loaded, or a constant is stored, by one instruction |
| `AmxOpcodes.IndirectExecutes` | compiler/source/amx/amx.c:2036-2041 | LOAD.I and STOR.I use an address exactly if it is below `stp` and not between heap and stack |
| `AmxOpcodes.LidxExecutes` | compiler/source/amx/amx.c:2132-2147 | LIDX and IDXADDR give an element of an array of cells, and its address |
| `AmxOpcodes.ScaledExecutes` | compiler/source/amx/amx.c:2138-2153 | the same for elements of another size |
| `AmxOpcodes.BytesExecute` | compiler/source/amx/amx.c:2042-2058 | LODB.I and STRB.I read and write one or two bytes, the low one first |
| `AmxOpcodes.OtherBytesExecute` | compiler/source/amx/amx.c:2042-2058 | with four bytes they are LOAD.I and STOR.I, with any other number they only check the address |
| `AmxOpcodes.BlocksRefused` | compiler/source/amx/amx.c:2640-2697 | MOVS, CMPS and FILL fail on memory exactly if an end of a block is not open; FILL has only the block at ALT |
| `AmxOpcodes.MovsExecutes` | compiler/source/amx/amx.c:2640-2665 | MOVS copies a block |
| `AmxOpcodes.CmpsExecutes` | compiler/source/amx/amx.c:2666-2688 | CMPS compares the block at ALT with the one at PRI |
| `AmxOpcodes.FillExecutes` | compiler/source/amx/amx.c:2689-2698 | after FILL every whole cell of the block is PRI, and no other byte has changed |
| `AmxOpcodes.PushExecutes` | compiler/source/amx/amx.c:2231-2253 | PUSH of a register, a constant, a cell or an address, if the place on the stack and the cell lie in the memory |
| `AmxOpcodes.PopExecutes` | compiler/source/amx/amx.c:2254-2259 | POP to either register |
| `AmxOpcodes.SwapExecutes` | compiler/source/amx/amx.c:2806-2815 | SWAP exchanges a register with the top of the stack |
| `AmxOpcodes.StackExecutes` | compiler/source/amx/amx.c:2260-2273 | STACK and HEAP keep the old pointer in ALT and refuse to lose the margin or to pass the end |
| `AmxOpcodes.PushManyExecutes` | compiler/source/amx/amx.c:2870-2939 | PUSH2 to PUSH5 are that many pushes |
| `AmxOpcodes.PushRepeatedExecutes` | compiler/source/amx/amx.c:2241-2245 | PUSH.R is that many pushes of PRI |
| `AmxOpcodes.CallExecutes` | compiler/source/amx/amx.c:2296-2303 | CALL and CALL.PRI push the address behind them and go to their target |
| `AmxOpcodes.ProcExecutes` | compiler/source/amx/amx.c:2274-2278 | PROC pushes the frame, starts a new one at the top of the stack, and ends the run if the margin is lost |
| `AmxOpcodes.ReturnExecutes` | compiler/source/amx/amx.c:2279-2295 | RET takes frame and address off the stack unless the address lies outside the code; RETN drops the parameters and their size as well |
| `AmxOpcodes.JumpStep` | compiler/source/amx/amx.c:2304-2384 | every jump goes to its operand exactly if its comparison of PRI with zero or ALT holds, signed or unsigned, and on behind itself otherwise |
| `AmxOpcodes.UnsignedOrder` | compiler/source/amx/amx.c:2337-2360 | in the unsigned order the negative cells come behind all others |
| `AmxOpcodes.SwitchExecutes` | compiler/source/amx/amx.c:2779-2802 | SWITCH goes where the table says, also when the table has only its default |
| `AmxOpcodes.SumExecutes` | compiler/source/amx/amx.c:2481-2515 | sums, differences, products and complements wrap around |
| `AmxOpcodes.AltExecutes` | compiler/source/amx/amx.c:2579-2613 | INC.ALT and DEC.ALT count in ALT |
| `AmxOpcodes.CompareExecutes` | compiler/source/amx/amx.c:2538-2575 | comparisons leave one or zero in PRI, signed and unsigned |
| `AmxOpcodes.ShiftExecutes` | compiler/source/amx/amx.c:2385-2409 | shifts by 0 to 31 bits multiply, divide as unsigned, or divide rounding down |
| `AmxOpcodes.DivideExecutes` | compiler/source/amx/amx.c:2467-2480 | UDIV and UDIV.ALT give quotient and remainder of the unsigned cells, or the error of a division by zero |
| `AmxOpcodes.SignedDivideExecutes` | compiler/source/amx/amx.c:2413-2463 | SDIV and SDIV.ALT leave what their lemmas say, or the error of a division by zero |
| `AmxOpcodes.BitsExecute` | compiler/source/amx/amx.c:2490-2498 | AND, OR and XOR set PRI bit by bit |
| `AmxOpcodes.SignExecutes` | compiler/source/amx/amx.c:2530-2537 | SIGN takes the low byte of a register as a signed one |
| `AmxOpcodes.AlignExecutes` | compiler/source/amx/amx.c:2154-2167 | ALIGN turns the place of a packed character into that of its byte |
| `AmxOpcodes.LctrlExecutes` | compiler/source/amx/amx.c:2168-2197 | LCTRL reads the registers of the machine |
| `AmxOpcodes.SctrlExecutes` | compiler/source/amx/amx.c:2198-2219 | SCTRL sets the heap, the stack, the frame or the instruction pointer |
| `AmxOpcodes.BoundsExecutes` | compiler/source/amx/amx.c:2716-2722 | BOUNDS refuses an index that is negative or above its operand |
| `AmxOpcodes.HaltExecutes` | compiler/source/amx/amx.c:2699-2715 | HALT stores PRI as the result, and sleeps with the code of a sleep |
| `AmxOpcodes.NativeExecutes` | compiler/source/amx/amx.c:2723-2759 | SYSREQ: what the native finds, and what of its work the run goes on with |
| `AmxOpcodes.NativeWithSizeExecutes` | compiler/source/amx/amx.c:2823-2845 | SYSREQ.N pushes the size of the parameters and takes them off afterwards |
| `AmxOpcodes.FreshEntry` | compiler/source/amx/amx.c:1937-1991 | a fresh call is refused for a bad index, a pointer out of range or a lost margin, and pushes two cells otherwise |
| `AmxOpcodes.ContinuedEntry` | compiler/source/amx/amx.c:1944-1992 | a continued call goes on where the structure says, after the same checks |
| `AmxOpcodes.OtherTargets` | compiler/source/amx/amx.c:2198-2375 | where an instruction without a code address as operand can go on |
| `AmxOpcodes.TargetsAreOperands` | compiler/source/amx/amx.c:725-743 | an operand is relocated exactly if the interpreter can go to it |
| `Peephole.LoadLoadExchange` | compiler/source/compiler/sc7.c:305-344 | two loads and an exchange are two loads the other way round |
| `Peephole.LoadPushLoadPop` | compiler/source/compiler/sc7.c:90-159 | an operand that goes to ALT by way of the stack is loaded there |
| `Peephole.PushLoadPopIsMove` | compiler/source/compiler/sc7.c:603-622 | an intermediate result is moved to ALT instead of being pushed and popped |
| `Peephole.MovePushLoadPop` | compiler/source/compiler/sc7.c:169-183 | ALT that goes through PRI and the stack and back stays where it is |
| `Peephole.PushPopIsMove` | compiler/source/compiler/sc7.c:636-640 | a push that is popped at once is a move |
| `Peephole.MoveLoadExchange` | compiler/source/compiler/sc7.c:357-371 | an operand for ALT is loaded there |
| `Peephole.LoadPushIsPush` | compiler/source/compiler/sc7.c:744-768 | a value that is only pushed is pushed from where it is |
| `Peephole.MovePushIsPush` | compiler/source/compiler/sc7.c:774-778 | the same from ALT; PRI, which no marker gives up, is the same exactly if it was that of ALT |
| `Peephole.LoadLoadPushPush` | compiler/source/compiler/sc7.c:685-724 | two operands that are only pushed, in both orders |
| `Peephole.ReferenceMoveLoad` | compiler/source/compiler/sc7.c:373-402 | a cell behind a pointer is read into ALT |
| `PeepholeSums.MoveLoadSum` | compiler/source/compiler/sc7.c:643-672 | a sum or a difference with its operand in the other register |
| `PeepholeSums.ConstantOperand` | compiler/source/compiler/sc7.c:794-808 | a constant operand becomes part of the instruction |
| `PeepholeSums.AddAdd` | compiler/source/compiler/sc7.c:834-838 | two constants in a row are added up |
| `PeepholeSums.ConstantDifference` | compiler/source/compiler/sc7.c:819-828 | a constant less an operand: the rule for globals is right; the one for locals keeps PRI exactly if the difference is 0 or the smallest cell |
| `PeepholeSums.CompareAndJump` | compiler/source/compiler/sc7.c:879-938 | a comparison and a test of its result are one jump, which goes the same way |
| `PeepholeSums.ZeroAndJump` | compiler/source/compiler/sc7.c:948-957 | comparing with a zero in ALT is a test of PRI |
| `PeepholeSums.ExchangeCompare` | compiler/source/compiler/sc7.c:270-289 | an exchange turns a comparison round |
| `PeepholeSums.ExchangeCompareJump` | compiler/source/compiler/sc7.c:250-269 | the same with a test behind it |
| `PeepholeSums.ChainedCompare` | compiler/source/compiler/sc7.c:210-249 | the middle of a chained comparison needs no exchange |
| `PeepholeArrays.ElementLoad` | compiler/source/compiler/sc7.c:443-485 | an array element is loaded through LIDX, with or without the check of its index, for every base and scale, with the same errors |
| `PeepholeArrays.ElementAddress` | compiler/source/compiler/sc7.c:486-529 | the same for the address of an element |
| `PeepholeArrays.ScaleAddIsIndex` | compiler/source/compiler/sc7.c:537-552 | the short form with a base that is already on the stack |
| `PeepholeArrays.CheckedIndex` | compiler/source/compiler/sc7.c:567-576 | a base and a checked index of a packed array |
| `PeepholeArrays.PushLoadIndirectPop` | compiler/source/compiler/sc7.c:626-630 | reading through PRI while PRI is kept, if the address is not the cell that the push takes |
| `PeepholeCells.IncAndLoad` | compiler/source/compiler/sc7.c:971-1010 | counting up or down where the value is not used |
| `PeepholeCells.ZeroAndStore` | compiler/source/compiler/sc7.c:1036-1055 | storing zero |
| `PeepholeCells.ConstantZero` | compiler/source/compiler/sc7.c:1056-1065 | loading zero |
| `PeepholeCells.LocalDeclared` | compiler/source/compiler/sc7.c:584-593 | room for a local and its first value are one push |
| `PeepholeCells.NativeCall` | compiler/source/compiler/sc7.c:1076-1080 | the three instructions around a native are SYSREQ.N, if the native does not look at where it is called from |
| `PeepholeCells.PushesJoin` | compiler/source/compiler/sc7.c:1093-1175 | up to five pushes are one instruction |
| `PeepholeCells.LoadBoth` | compiler/source/compiler/sc7.c:1189-1208 | two loads are one instruction, in either order |
| `PeepholeCells.LoadBothPushPush` | compiler/source/compiler/sc7.c:1218-1227 | the same with two pushes |
| `PeepholeCells.StoreConstant` | compiler/source/compiler/sc7.c:1235-1244 | storing a constant: the macro keeps PRI, which no marker gives up, exactly if it was the constant before |
| `PeepholeContext.PlaceFreeBlock` | compiler/source/compiler/sc7.c:1773-1800 | what a block does does not depend on where it stands, unless it looks |
| `PeepholeContext.RewriteInBlock` | compiler/source/compiler/sc7.c:1773-1800 | a rule that gives up nothing may be applied in the middle of any such block: the whole block means the same |
| `AmxFrames.Fetched` | compiler/source/amx/amx.c:1851-1852 | a step that goes on has read a whole instruction |
| `AmxFrames.OtherStepKeepsFrame` | compiler/source/amx/amx.c:1998-2962 | every instruction but calls, PROC and returns keeps the frame pointer and goes on at an instruction |
| `AmxFrames.CallStep` | compiler/source/amx/amx.c:2296-2299 | a call adds a link to the chain: the return address, below the size of the parameters |
| `AmxFrames.ProcStep` | compiler/source/amx/amx.c:2274-2278 | PROC completes the link with the frame of the caller and points the frame pointer at it |
| `AmxFrames.ReturnStep` | compiler/source/amx/amx.c:2279-2295 | a return takes the innermost link away and gives the caller its frame, return address and stack |
| `AmxFrames.StepKeepsChain` | compiler/source/amx/amx.c:2274-2299 | every disciplined step keeps the chain: links in increasing order below `stp`, return addresses at instructions |
| `AmxCalls.RunKeepsChain` | compiler/source/amx/amx.c:1996-2962 | over every run the chain stays intact, and every instruction pointer reached is the start of an instruction or the end of the code |
| `AmxCalls.RunIsAwake` | compiler/source/amx/amx.c:1996-2962 | these runs are the runs of the interpreter without sleeps |
| `AmxCalls.OuterCallsStay` | compiler/source/amx/amx.c:2274-2299 | as long as only inner calls come and go, the links of the outer ones stay |
| `AmxCalls.ReturnMatchesCall` | compiler/source/amx/amx.c:2274-2299 | the return that matches a call gives back the frame, the address behind the call and, for RETN, the stack pointer from before the parameters |
| `AmxCalls.BeginLinks` | compiler/source/amx/amx.c:1986-1991 | what a fresh run pushes is the outermost link |
| `AmxCalls.OutermostReturn` | compiler/source/amx/amx.c:1986-1991 | when the called function returns, the stack pointer is where ABORT would put it |
| `AmxCalls.WalkFindsFrames` | compiler/source/amx/amx.c:2274-2278 | walking the saved frame pointers in memory finds the calls under way and no more |
| `AmxHost.AllotTestIsExact` | compiler/source/amx/amx.c:4205-4224 | the unsigned test of `amx_Allot` keeps the margin exactly for requests that fit between heap and stack |
| `AmxHost.Script.Push` | compiler/source/amx/amx.c:1713-1726 | a push refuses below the margin and otherwise stores one cell and counts it |
| `AmxHost.Script.Allot` | compiler/source/amx/amx.c:4205-4224 | a block is granted by the test above and lies at the old end of the heap |
| `AmxHost.Script.PushString` | compiler/source/amx/amx.c:1748-1783 | the string and its zero lie in a new heap block, its address on the stack, and nothing outside the gap changes |
| `AmxHost.Script.Arguments` | experiments/006-companion-plugin/dynhook.cpp:244-251 | the parameters on the stack, in order |
| `AmxHost.Script.PushArguments` | experiments/006-companion-plugin/dynhook.cpp:263-264 | pushing backwards puts the arguments in declared order; those that reach the margin are missing at the front |
| `AmxHost.Fitting` | experiments/006-companion-plugin/dynhook.cpp:263-264 | how many arguments fit above the margin, and that all n do exactly if n is 0 or the margin is kept with all but one |
| `AmxHost.Script.ReadString` | experiments/006-companion-plugin/dynhook.cpp:85-94 | the low bytes of the cells up to the zero cell, or nothing without an address |
| `AmxArguments.EverythingArrives` | experiments/006-companion-plugin/dynhook.cpp:174-191 | all arguments of a mixed list arrive exactly if the margin is kept with all strings and all cells but one |
| `AmxArguments.OnlyCells` | experiments/006-companion-plugin/dynhook.cpp:174-191 | of cells alone the last ones arrive, as many as fit above the margin |
| `AmxArguments.ArgumentIs` | experiments/006-companion-plugin/dynhook.cpp:174-191 | when all arrive, each argument is its cell, or the address of a terminated copy of its string |
| `DynHook.Plugin.Add` | experiments/006-companion-plugin/dynhook.cpp:99-106 | the handler is appended and the new count returned; other chains stay |
| `DynHook.Plugin.Remove` | experiments/006-companion-plugin/dynhook.cpp:108-118 | the first handler of that name is taken out |
| `DynHook.Plugin.Replace` | experiments/006-companion-plugin/dynhook.cpp:120-131 | the first handler of that name is replaced in its place |
| `DynHook.Plugin.Clear` | experiments/006-companion-plugin/dynhook.cpp:133-142 | the chain is dropped and its length returned |
| `DynHook.Plugin.constructor` | experiments/006-companion-plugin/dynhook.cpp:75-84 | a plugin that was just loaded knows no chain, no mark and no script |
| `DynHook.Plugin.LoadScript` | experiments/006-companion-plugin/dynhook.cpp:329-345 | the names of a script with public functions are kept |
| `DynHook.Plugin.UnloadScript` | experiments/006-companion-plugin/dynhook.cpp:347 | and forgotten |
| `DynHook.Plugin.Intercept` | experiments/006-companion-plugin/dynhook.cpp:204-209 | a callback is marked |
| `DynHook.Plugin.NothingIsHandled` | experiments/006-companion-plugin/dynhook.cpp:230-242 | without a mark or a handler, and while a dispatch is under way, every call is passed on |
| `DynHook.Plugin.MarkThenCall` | experiments/006-companion-plugin/dynhook.cpp:204-284 | after a mark and a registration the next call is a dispatch to the handlers that were there and the new one |
| `DynHook.AddThenRemove` | experiments/006-companion-plugin/dynhook.cpp:99-118 | removing undoes adding exactly if the handler was not in the chain, or nothing but it followed |
| `DynHook.Plugin.RunHandler` | experiments/006-companion-plugin/dynhook.cpp:262-266 | a handler is called with fresh arguments, the caller's stay in memory, and if it comes to its end stack and heap are as before; a refused or aborted call counts as 0 |
| `DynHook.Plugin.RunChain` | experiments/006-companion-plugin/dynhook.cpp:253-270 | the existing handlers of the snapshot are called in order up to the first that stops, even if they edit the chain; as long as each comes to its end they all find the same arguments |
| `DynHook.Plugin.Dispatch` | experiments/006-companion-plugin/dynhook.cpp:244-284 | stopped: no original, stop value returned, stack cleaned up; else the original is called last with the host's arguments, and the structure is what the interpreter makes of it, whether it refuses, ends, sleeps or leaves |
| `DynHook.Plugin.ExecHook` | experiments/006-companion-plugin/dynhook.cpp:228-284 | a call is dispatched exactly if no dispatch is under way, its index names a public function of a loaded script, the name is marked, and handlers are registered for it; every other call, for whatever index, is passed on as it is and answered as the interpreter answers it: continued, refused or run; what the handlers stored decides who is called and what the host gets; the depth is restored and, if every function that was called comes to its end and none was continued, the stack is the host's without its parameters and the heap as it was |
| `DynHook.Plugin.CallHandler` | experiments/006-companion-plugin/dynhook.cpp:170-196 | a handler called from a script finds exactly the arguments that fit, in order, in front of what waited on the stack, and its strings in memory, provided that nothing is read from the gap between heap and stack; the count for formats without strings holds always |
| `DynHook.Plugin.Call` | experiments/006-companion-plugin/dynhook.cpp:157-199 | the existing handlers of the snapshot are called in order and counted, each with the arguments that the structure before it gives, in front of those that waited; if each comes to its end heap and stack are as before, without what waited |
| `Utf8.FirstInvertsEncoding` | compiler/source/amx/amx.c:4402-4476 | a sequence is accepted with a value exactly if it starts with the shortest encoding of that value, which is no surrogate and not FFFE or FFFF |
| `Utf8.AcceptedIsEncoding` | compiler/source/amx/amx.c:4402-4476 | nothing else is accepted |
| `Utf8.FirstOfEncoding` | compiler/source/amx/amx.c:4402-4476 | every encodable value is accepted |
| `Utf8.AcceptedBytes` | compiler/source/amx/amx.c:4402-4476 | the accepted sequences and their values, byte by byte: no form that is too long, no surrogate, neither U+FFFE nor U+FFFF, and everything else |
| `Utf8.CollectFollowUps` | compiler/source/amx/amx.c:4440-4456 | the loop takes the follow-up bytes, or stops at the first that is none |
| `Utf8.Get` | compiler/source/amx/amx.c:4402-4476 | a character is found exactly if the string starts with the bytes of one, with its value, and the pointer moves behind it |
| `Utf8.BytesAreEncoding` | compiler/source/amx/amx.c:4491-4532 | the bytes put down by six cases are the one encoding |
| `Utf8.Put` | compiler/source/amx/amx.c:4485-4540 | written exactly if its one to six bytes fit and it is no surrogate, nor U+FFFE or U+FFFF; nothing else in the buffer changes |
| `Utf8.PutThenGet` | compiler/source/amx/amx.c:4485-4540 | reading back what was put gives the value exactly if it is not negative |
| `Utf8.Check` | compiler/source/amx/amx.c:4547-4558 | a string is valid and has its length as the scan says |
| `Utf8.ValidIffEncoded` | compiler/source/amx/amx.c:4547-4558 | a string is valid exactly if it is a row of encodings, and the length is their number |
| `PackedStrings.PackedPtrFindsCharacter` | compiler/source/amx/amxstring.c:154-163 | the byte that the pointer gives is the character, on a little-endian host |
| `PackedStrings.PackAligned` | compiler/source/amx/amxstring.c:65-82 | the aligned path appends the characters |
| `PackedStrings.ShiftLoop` | compiler/source/amx/amxstring.c:86-95 | every cell becomes the end of one source cell and the start of the next, also in place behind the source; what is read behind the source may be anything |
| `PackedStrings.PackShifted` | compiler/source/amx/amxstring.c:83-98 | the shifting path appends the characters, whatever lies behind the source |
| `PackedStrings.PackUnpacked` | compiler/source/amx/amxstring.c:99-125 | the path for unpacked sources appends the characters |
| `PackedStrings.StrPack` | compiler/source/amx/amxstring.c:61-127 | all three paths keep the first `offs` characters, append `len` and clear the rest of the last cell; the source may be the destination when `offs` is zero, and for a packed source when its cells are moved whole or its text ends before `offs`, as in appending a string to itself |
| `PackedStrings.AppendedLength` | compiler/source/amx/amxstring.c:61-127 | the result has length `offs` + `len` |
| `PackedStrings.AppendedUnpacks` | compiler/source/amx/amxstring.c:133-163 | each character of the result reads back, by unpacking and by pointer |
| `PackedStrings.AppendedIsUnique` | compiler/source/amx/amxstring.c:61-127 | there is only one such result, so the three paths agree |
| `PackedStrings.StrLen` | compiler/source/amx/amx.c:4236-4269 | the length of a packed or unpacked string is the place of its first zero |
| `PackedStrings.FirstZeroByte` | compiler/source/amx/amx.c:4252 | the byte search finds the first zero byte |
| `PackedStrings.ZeroByteCell` | compiler/source/amx/amx.c:4252-4262 | the first zero character is in the cell of the first zero byte |
| `PackedStrings.StrUnpack` | compiler/source/amx/amxstring.c:133-152 | the cells are the characters of a packed source, and those of an unpacked one as they are, also when source and destination are the same array |
| `UrlEncode.PlainBytesStay` | compiler/source/amx/amxstring.c:914-920 | letters, digits and four signs stay, and nothing else; the others become a percent sign and two digits or capital letters |
| `UrlEncode.Measure` | compiler/source/amx/amxstring.c:944-957 | the count is the longest prefix whose encoding and terminator fit |
| `UrlEncode.WriteBackward` | compiler/source/amx/amxstring.c:966-973 | one character is replaced by its encoding, before which nothing changes |
| `UrlEncode.Convert` | compiler/source/amx/amxstring.c:961-975 | converting from the end overwrites no character before it was read |
| `UrlEncode.UrlEncodeInPlace` | compiler/source/amx/amxstring.c:929-975 | the buffer holds the percent-encoding of the longest prefix that fits |
| `UrlEncode.DecodeEncode` | compiler/source/amx/amxstring.c:964-974 | decoding by section 2.1 of RFC 3986 gives the text back |
| `UrlEncode.KeptPrefixDecodes` | compiler/source/amx/amxstring.c:944-975 | what was kept decodes to the prefix, and all was kept exactly if it fits |
| `CompactSet.Search` | compiler/source/amx/itercore.c:45-59 | the position splits the run into smaller values and the others |
| `CompactSet.SearchDecides` | compiler/source/amx/itercore.c:45-59 | a value is a member exactly if it stands there |
| `CompactSet.CountIsCardinality` | compiler/source/amx/itercore.c:137-143 | slot zero is the number of members |
| `CompactSet.RunIsDetermined` | compiler/source/amx/itercore.c:20-31 | two arrays for the same set have the same run |
| `CompactSet.Init` | compiler/source/amx/itercore.c:62-69 | the array stands for the empty set |
| `CompactSet.InsertAt` | compiler/source/amx/itercore.c:89-96 | the shifting loop inserts one slot |
| `CompactSet.Add` | compiler/source/amx/itercore.c:75-98 | the set gains the value, unless it is negative, and the result tells whether it was new |
| `CompactSet.Remove` | compiler/source/amx/itercore.c:101-120 | the set loses the value and the result tells whether it was there |
| `CompactSet.Has` | compiler/source/amx/itercore.c:123-134 | membership |
| `CompactSet.Free` | compiler/source/amx/itercore.c:149-164 | the least natural number that is not a member |
| `CompactSet.Get` | compiler/source/amx/itercore.c:188-199 | the member with `index` members below it, or -1 |
| `CompactSet.Alloc` | compiler/source/amx/itercore.c:205-230 | the least missing number is returned and added |
| `CompactSet.Next` | compiler/source/amx/itercore.c:236-250 | the least member above a value, or the smallest cell if there is none |
| `CompactSet.Prev` | compiler/source/amx/itercore.c:255-269 | the greatest member below a value, likewise |
| `CompactWalk.WalkIsOrdered` | compiler/source/amx/itercore.c:236-269 | stepping through a set that is changed meanwhile yields strictly increasing values, or strictly decreasing ones on the way down |
| `CompactWalk.YieldedIffPresentAtTurn` | compiler/source/amx/itercore.c:236-269 | a value is yielded, once, exactly if it is a member when its turn comes |
| `CompactWalk.WalkIsFinite` | compiler/source/amx/itercore.c:236-269 | the n-th value is at least n, or at most n below the largest cell, so the walk ends |
| `CompactWalk.WalkByValue` | compiler/source/compiler/sc1.c:10912-10999 | the loop in a generator, upwards or downwards, is such a walk and ends, whatever its body does to the array; a body that breaks out does so at the value that came next |
| `CompactWalk.ForEach` | compiler/source/compiler/sc1.c:11049-11281 | the compiled loop with its short cut, upwards or downwards, left at its end or by a break, ends whatever its body does; it is a walk by value exactly if the slots are safe at each short cut, and so it is if each run of the body only adds or only removes, on the way down nothing below the visited value |
| `CompactWalk.ShortCut` | compiler/source/compiler/sc1.c:11187-11258 | one short cut goes where `setnext` or `setprev` would exactly if, upwards, its slot is in use or the last slot in use holds nothing larger; downwards, its slot is in use or the first, or the neighbour holds what the nearest smaller slot in use holds |
| `CompactWalk.OneMoreEdit` | compiler/source/amx/itercore.c:75-120 | the edits that `setadd` and `setremove` say they make, strung together, are such a run of the body |
| `CompactWalk.PlainIsSafe` | compiler/source/compiler/sc1.c:11187-11258 | after a body that only added, or only removed (on the way down nothing below the visited value), the short cut is safe |
| `CompactWalk.Misled` | compiler/source/compiler/sc1.c:11183-11187 | two removals and an insertion leave the visited value behind the slots in use and a larger member unseen: the condition can fail upwards |
| `CompactWalk.Repeated` | compiler/source/compiler/sc1.c:11183-11187 | one removal below the visited value makes the loop downwards yield that value again: the condition can fail downwards |
| `Lines.PieceIsUnique` | compiler/source/compiler/scmemfil.c:119-154 | there is only one piece that a line reader may return |
| `Lines.CutConcatenates` | compiler/source/compiler/scmemfil.c:119-154 | the pieces together are the text |
| `Lines.PiecesOfText` | compiler/source/compiler/scmemfil.c:119-154 | in a text without NUL each piece ends in its only newline, fills the buffer or is the last |
| `Lines.WrittenLinesAreRead` | compiler/source/compiler/scmemfil.c:119-165 | lines that were written one after the other are read back as they were |
| `MemFile.File.Read` | compiler/source/compiler/memfile.c:67-90 | as much as there is, from the position on, which moves |
| `MemFile.File.Write` | compiler/source/compiler/memfile.c:92-114 | the text is laid over the contents at the position, growing the buffer if needed; without memory nothing changes |
| `MemFile.File.Seek` | compiler/source/compiler/scmemfil.c:74-107 | the position is clamped to the contents |
| `MemFile.Terminate` | compiler/source/compiler/scmemfil.c:130-146 | what was read ahead is cut behind its first newline and terminated |
| `MemFile.File.Gets` | compiler/source/compiler/scmemfil.c:119-154 | the buffer holds the next piece, and the position is right behind it, despite the reading ahead |
| `MemFile.File.Puts` | compiler/source/compiler/scmemfil.c:156-165 | the string up to its NUL is written |
| `MemFile.File.ReadAll` | compiler/source/compiler/sc6.c:1041-1042 | reading until NULL ends and gives the pieces of the whole file |
| `IniText.FittingIsLongest` | compiler/source/amx/minIni.c:166-178 | the quoting copy takes the longest prefix whose escaped form fits |
| `IniText.UnescapedEscaped` | compiler/source/amx/minIni.c:166-187 | removing escapes undoes adding them |
| `IniText.QuotedRoundTrip` | compiler/source/amx/minIni.c:195-226 | a quoted value is read as the prefix that was written, never half an escape |
| `IniText.ValueRoundTrip` | compiler/source/amx/minIni.c:150-226 | a written value reads back exactly if it was quoted or has no outer blanks, and as a prefix when it was cut off |
| `IniText.WholeIsNotCut` | compiler/source/amx/minIni.c:150-179 | a value is written whole exactly if its escaped form, or it, fits |
| `IniBuffer.SaveStrncpy` | compiler/source/amx/minIni.c:150-193 | the copy in all three ways, inside its bounds |
| `IniBuffer.CopyEnquoted` | compiler/source/amx/minIni.c:166-179 | the quoting loop, with its stop before half an escape |
| `IniBuffer.CopyDequoted` | compiler/source/amx/minIni.c:180-187 | the loop that drops escapes |
| `IniBuffer.FindComment` | compiler/source/amx/minIni.c:203-215 | the scan stops at the first comment outside quotes |
| `IniBuffer.CleanString` | compiler/source/amx/minIni.c:195-226 | the text without comment, trailing blanks and quotes, in place |
| `IniFile.FirstPieceIsPiece` | compiler/source/amx/minGlue.h:19 | a read ends at a newline, a full buffer or the end of the file |
| `IniFile.File.Read` | compiler/source/amx/minGlue.h:19 | one read of a line |
| `IniFile.FindSection` | compiler/source/amx/minIni.c:242-262 | the file is read up to behind the header of the section, if there is one |
| `IniFile.FindKey` | compiler/source/amx/minIni.c:267-280 | the file is read up to the key, if it comes before the next header |
| `IniFile.GetKeyString` | compiler/source/amx/minIni.c:228-300 | a setting is found exactly if the lookup on the text finds it, with its value, and the place of its line |
| `IniFile.SamePlace` | compiler/source/amx/minIni.c:266-280 | a key that does not begin like a comment is found at the same place by reader and writer |
| `IniNames.KeyShape` | compiler/source/amx/minIni.c:266-280 | a line has a key exactly if the key stands, in any case, between blanks in front of the first equal sign, or of the first colon if there is none |
| `IniNames.SectionShape` | compiler/source/amx/minIni.c:246-251 | a line is the header of a section exactly if the name stands, in any case, between the first sign, a bracket, and the last closing bracket |
| `IniNames.FirstSignDecides` | compiler/source/amx/minIni.c:247-280 | a header and a comment are told by the first sign that is not white |
| `IniNames.CaseDoesNotMatter` | compiler/source/amx/minIni.c:246-280 | names that differ in the case of letters are looked up, placed and deleted alike |
| `IniNames.OneNamePerLine` | compiler/source/amx/minIni.c:246-280 | no line has two names that differ in anything else |
| `IniWrite.WriteKey` | compiler/source/amx/minIni.c:558-572 | the line of a setting, which fits the buffer |
| `IniWrite.WriteSection` | compiler/source/amx/minIni.c:543-556 | the line of a header, which fits the buffer |
| `IniWrite.CheckEnquote` | compiler/source/amx/minIni.c:530-541 | quotes exactly for values with a quote, semicolon or hash, or a blank at the end |
| `IniCache.Rewrite.ReadBack` | compiler/source/amx/minIni.c:594-598 | reading again into what is left of the buffer gives the same line |
| `IniCache.Rewrite.Flush` | compiler/source/amx/minIni.c:583-610 | exactly the text that the cache stands for is written, and the mark moves behind it |
| `IniCache.Rewrite.CopyLine` | compiler/source/amx/minIni.c:731-735 | a line is added to what was copied, whether or not the cache was full |
| `IniWrite.CopyToSection` | compiler/source/amx/minIni.c:710-739 | everything up to the header is copied as it is |
| `IniWrite.CopyToKey` | compiler/source/amx/minIni.c:754-783 | everything up to the key or the next header is copied as it is |
| `IniWrite.AddAtEnd` | compiler/source/amx/minIni.c:715-721 | at the end the new lines follow the text, with a newline between exactly if the last flush did not end in one or was a newline alone |
| `IniWrite.SeparatorSeparates` | compiler/source/amx/minIni.c:715-721 | what is put between the text and the new lines lets them start a line of their own |
| `IniWrite.PutHere` | compiler/source/amx/minIni.c:789-813 | the new line takes the place of the old or stands before the header, and the rest follows as it is |
| `IniPuts.RewriteFile` | compiler/source/amx/minIni.c:696-815 | the rewrite through the cache is the plain line edit, for every file, separator included |
| `IniPuts.SameLengthEdit` | compiler/source/amx/minIni.c:668-687 | overwriting a line of the same length is the same edit |
| `IniPuts.Puts` | compiler/source/amx/minIni.c:630-815 | the file becomes the one edited text, or stays if a reader finds just this value |
| `IniRoundTrip.NewLineIsFound` | compiler/source/amx/minIni.c:754-772 | in the edited text the search for the key ends at the new line |
| `IniRoundTrip.PutThenGet` | compiler/source/amx/minIni.c:228-300 | after a put, a get finds the value, exactly under the condition of the quoting |
| `IniRoundTrip.CreateThenGet` | compiler/source/amx/minIni.c:641-651 | the same for a file that was created |
| `IniOthers.DeleteThenGet` | compiler/source/amx/minIni.c:754-813 | after a deletion a get finds what the next line of the key says, so the setting is gone exactly if the key was there once |
| `IniOthers.OtherSettingsStay` | compiler/source/amx/minIni.c:696-815 | after a put or a deletion, a get of any other key or section finds what it found before |
| `IniOthers.OtherKeyStays` | compiler/source/amx/minIni.c:754-813 | the same for another key behind the same header, line by line, also if the last line had no newline |
| `IniOthers.OtherSectionStays` | compiler/source/amx/minIni.c:696-813 | the same for every section, in front of and behind the edited one |
| `IniOthers.EditedIs` | compiler/source/amx/minIni.c:696-815 | the edit is a rewrite piece by piece, which is what these are proved on |

## Left out

- AmxAlu.Compute: a shift by a negative count or by more than 31 bits is undefined in C, and ends the run in `Outside`; SDIV is the arm for compilers whose division truncates, and the other arm is not modelled.
- AmxMachine.Block: the sign and size of what CMPS leaves in PRI is a parameter, as C leaves it open.
- PeepholeContext.RewriteInBlock: the matching of the rules on lines of text, and rules that give up a register in the middle of a block, are not modelled; the two short array rules that are written with `loadi` never match.
- Peephole.LoadPushLoadPop: memory operands are not the cells below the stack that the push takes, which compiled code never reads.
- AmxMachine.Step: opcodes are numbers, not label addresses; an access outside code or data and an offset that leaves the 32-bit range end the run in `Outside`, about which nothing is claimed; the debug hook of `op_break` is absent.
- AmxRun.Amx.Exec: the registers and the data block are passed from step to step as values; the updates of the AMX structure are in place. An early return in the middle of a run (stack margin, bounds of STACK and HEAP) says the error code, the data and the parameter count, but not the pointers in the structure, which are those of the last SYSREQ; the flag checks at the top of the function are not modelled.
- AmxFrames.IsDisciplined: jumps to computed addresses, setting the frame pointer, a RETN with locals still on the stack and stores into saved frame cells are excluded; compiled code does none of them.
- AmxRun.Amx.ExecToEnd: the bound on steps leaves runs that never end unmodelled.
- AmxCode.Browse: code with an instruction that is cut off, or with a negative or unaligned count, gets a verdict of its own; the source does not look for it.
- CompactLoader.Expand: the stream has to be well formed and the memory size to fit it, as the source's assertions say.
- Div64.Divide: the ANSI `n_fmul` and `n_fdiv` around it drop parts of the operands and are not modelled.
- AmxHost.Script.PushString: a string larger than the gap between heap and stack, which the test of `amx_Allot` lets pass, is excluded.
- DynHook.Plugin.Exec: what is called is any code that keeps the caller's argument cells and does not leave the stack above its own parameters or the pointers outside the data; hooking of the machine code is not modelled.
- AmxContract.Call: natives that find no parameters waiting leave none behind, so that a call does not end with some that nobody took.
- DynHook.Plugin.CallHandler: an argument that is read from the gap between heap and stack, where the arguments themselves are put, is only counted; a string larger than that gap ends the model in `astray`.
- AmxHost.Script.ReadString: a string without a terminator ends with the data block; the source reads on.
- PackedStrings.StrPack: an unpacked source that is the destination itself at an `offs` above zero, and a packed one at an unaligned `offs` below its length, are excluded; string comparison, insertion and searching natives are not modelled.
- UrlEncode.Decode: the native decoder's loop never runs (`compiler/source/amx/amxstring.c:870`); the decoder here is the one of section 2.1 of RFC 3986.
- CompactSet.Add: room in the array is the caller's business, as in the source; `setrandom` is not modelled.
- CompactWalk.ForEach: the loop over the first dimension of a two-dimensional array, which counts an index, is not modelled.
- IniPuts.Puts: erasing a whole section, failures to open or rename files and the temporary name are not modelled; files hold no NUL characters.
- IniPuts.RewriteFile: erasing a whole section is not modelled.
- IniFile.FindSection: a section selected by its index is not modelled.
- IniFile.FindKey: a key selected by its index is not modelled.
- IniFile.GetKeyString: enumerating sections and keys by index is not modelled; case folding is ASCII only.
- MemFile.File.Write: the name of the file and `mfdump` are not modelled.
- Dynamic libraries, the JIT, byte swapping on big-endian hosts, the garbage collector, date and time natives, terminals, sockets and the debugger are not part of this model.
