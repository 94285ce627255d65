# A verified model of the ARMv5 simulator's machine

The project models the machine inside the simulator: the banked register table, the byte memory, the
fetch and dispatch of instruction words, the data-processing unit, single and block transfers, branches,
MSR, and the exceptions that a step raises. It proves what whole programs do on that machine.

**Form.** `Registers`, `Memory` and `ArmCore` are classes over arrays that their methods update in place;
every handler is a method on an `ArmCore`, with the loops and early returns of the C code. Each method is
proved equal to a function on `Machine` values (`Abs()` before and after), and the theorems are about
those functions. For every instruction word there is also an outcome law that is stated by the bits of the
word, without those functions (`DataLaws.DataOutcome`, `MsrLaws.MsrOutcome`, `SingleLaws.SingleOutcome`,
`BlockLaws`, `BranchLaws.BranchOutcome`, `Steps.OtherOutcome`; `Steps.EveryWord` says that they cover all).
C integers are ranges of the mathematical integers, with every wrap-around written out as a remainder; the
bitwise operators are defined bit by bit in `Words.dfy`, and the masks of the code are proved to do their
arithmetic.

The byte order, a compile-time symbol of the simulator, is a constant of `ArmCore`; the theorems hold for
both. The dispatch repeats its case labels; the copies agree and are modelled once.

"The manual" and its sections (A2.3, A3.2, A5.1 to A5.4) are those of the ARM Architecture Reference Manual,
ARM DDI 0100.

**Undefined values.** C variables that are read without having been assigned (the data of a failed load,
the word of a failed fetch, the result of an access that is skipped when Rn is R15) are the fields of an
`Indeterminate` parameter, so that every theorem holds whatever they contain. The bounds test of the memory
looks at the first byte of an access only; three cells of arbitrary content behind the memory stand for
what an accepted access at its very end reaches. A shift by 32 bits, undefined in C, gives 0.

**What is false of the code, and exactly when.**
- A step from User or System mode does not always stay there. It leaves exactly when it executes an MSR
  that writes the CPSR (the mask is negated with `!`, so the mode bits come out below 16), or when it skips
  a data-processing instruction on its condition: the handler then returns 1, which `arm_step` raises as
  RESET (`Modes.UserStep`; `MsrLeavesUserMode` and `SkippedMoveLeavesUserMode` are failing inputs).
  `StepKeepsMode` has the exact condition for all seven modes, `RunKeepsMode` for whole runs.
- A step that writes R15 only by branching does not always move the counter by 4 plus the displacement:
  the RESET of a skipped data-processing instruction sets it to 0. It moves as asked exactly when the step
  does not skip a data-processing instruction, or skips one at the last word of the address space
  (`ProgramCounter.StepMovesPc`, over runs `RunMovesThroughout`; `SkippedMoveResets` is a failing input).
- An accepted memory access lies in the memory exactly when its last byte does
  (`MemoryMap.AcceptedAccessInside`), whatever the return code says; `AcceptedAccessOutside` is one that
  does not.
- The condition test agrees with the condition table except for PL, and for LE exactly when LE holds
  (`Core.ConditionsAgree`; `ConditionsDisagree` has an input for each).
- Z says that the 32-bit result is zero exactly when the operands are not a hidden zero: a sum of 2^32, a
  difference of -2^32, MVN of all ones (`Arithmetic.NegativeAndZeroFlags`; `HiddenZeroOfAddition` is a
  failing input).
- C is the carry of the manual for sums and its opposite for differences; V is the overflow of the manual
  exactly when nothing is carried into bit 31 or borrowed from it (`Arithmetic.CarryAndOverflowFlags`;
  `CarryAndOverflowDiffer` has failing inputs). Other operations set both exactly for MVN.
- Block transfers use the addresses of section A5.4 in its order exactly when they go upwards or list one
  register, and in the opposite order otherwise (`BlockLaws.OrderMatchesManual`, `OppositeOrder`); they
  write back the base of that section exactly when they are not pre-indexed (`BaseMatchesManual`).
- A call does not return to the word after the BL but to the one after that
  (`ProgramCounter.CallReturns`).
- MSR writes what the manual says exactly when the register it overwrites has no bit outside the mask
  (`BranchOther.MsrMatchesManual`; `MsrClearsMode` is a failing input).
- An MSR of an immediate is executed as TEQ or CMN (`DataLaws.MsrImmediateCompares`).
- The BX branch is dead: its encoding satisfies the MSR test made before (`BranchOther.BxIsCapturedByMsr`).

**Files.** `Words`, `ArmConstants`, `Decode`: integers, constants, instruction fields. `RegisterFile`,
`Banking`: the register table and its refinement of the mode table. `MainMemory`, `MemoryMap`: memory and
its refinement of a byte map. `Core`: state, accessors, fetch, conditions. `DataProcessing`, `Shifter`,
`Arithmetic`: the data-processing unit and its meaning. `LoadStore`, `SingleLaws`, `SubWords`,
`BlockTransfers`, `BlockLaws`: single and block transfers. `BranchOther`, `BranchLaws`, `MsrLaws`: branches
and MSR. `Instruction`, `Runs`, `Steps`, `Modes`, `ProgramCounter`: dispatch, steps, runs.
`CommandCreator`, `EncodeExecute`, `DataLaws`: the instruction builders, and executing what they build and
every other data-processing word. `Programs`, `BlockCopy`, `Stack`, `MultiWord`: programs that the
machine fetches from its memory, run for any number of steps.

The bit-field and byte-reversal macros are those of `util.h` (lines 30-40) and the exceptions those of
`arm_exception.c` (lines 32-63); the table cites both at the lines that use them.

`dafny verify dfyconfig.toml` checks the project.

## Model

| member | source | states |
|---|---|---|
| Words.GetBitsMacro | memory.c:132 | the mask expression of the bit-field macro is the field of h-l+1 bits from bit l up |
| Decode.FieldsAreGetBits | arm_load_store.c:37-42 | every named field of an instruction word is the bit field that the handlers extract |
| Decode.BitsAreBits | arm_load_store.c:39-42 | every named single bit, S, L, W, B, U and P included, is the bit of that number |
| RegisterFile.Registers.GetMode | registers.c:50-53 | the mode is the five low bits of the CPSR |
| RegisterFile.Registers.Read | registers.c:73-168 | reading (reg, mode) returns the cell that the selection denotes, 0 when none answers |
| RegisterFile.Registers.ReadSpsr | registers.c:176-201 | the SPSR of an exception mode, 0 in User, System and unknown modes |
| RegisterFile.Registers.Write | registers.c:203-297 | writing (reg, mode) changes that one cell of the table and no other; a write that denotes no cell changes none |
| RegisterFile.Registers.WriteSpsr | registers.c:304-326 | likewise for the SPSR of a mode |
| RegisterFile.Registers.WriteCpsr | registers.c:300-302 | only the CPSR cell changes |
| Banking.CellsFollowTable | registers.c:73-168 | two accesses share a cell if and only if the mode table of section A2.3 gives them the same physical register |
| Banking.WriteThenRead | registers.c:203-326 | a write is seen by exactly the accesses that share its physical register |
| Banking.ReadsLastWrite | registers.c:73-326 | after any history of register, SPSR and CPSR writes in any modes, a read returns the last value written through any mode sharing the register |
| Banking.PrivateRegistersSurvive | registers.c:203-326 | whatever other modes write, the R13, R14, SPSR of a mode and the R8-R12 of FIQ keep their values |
| Banking.NoRegister | registers.c:120-168 | R13 and R14 of a mode outside the seven, and the SPSR of a mode without one, read as 0 and drop their writes |
| Banking.UnknownMode | registers.c:73-168 | all other registers of a mode outside the seven are those of User mode |
| MainMemory.Memory.ReadByte | memory.c:52-59 | the byte, or -1 and the caller's variable untouched |
| MainMemory.Memory.ReadHalf | memory.c:61-74 | the two bytes composed in the byte order asked for, or -1 |
| MainMemory.Memory.ReadWord | memory.c:78-94 | the accumulation loop and the byte reversal compose the four bytes in the byte order asked for, or -1 |
| MainMemory.Memory.WriteByte | memory.c:96-104 | only that byte changes, or -1 and nothing |
| MainMemory.Memory.WriteHalf | memory.c:106-123 | the loop over 9-bit slices stores the two base-256 digits in order |
| MainMemory.Memory.WriteWord | memory.c:125-141 | the loop over 9-bit slices stores the four base-256 digits in order |
| MainMemory.SplitSlice | memory.c:111-120 | byte i of a value of n bytes, in either byte order, is the 9-bit slice of the write loops cut to a byte |
| MainMemory.Reverse4Reverses | memory.c:86-92 | the word reversal macro reverses the four bytes |
| MemoryMap.ComposeSplit | memory.c:78-141 | composing the n bytes of a value gives it back modulo 256^n, for every n |
| MemoryMap.ReadBackWord | memory.c:78-141 | a word read back is the word written, in either byte order |
| MemoryMap.ReadBackHalf | memory.c:61-123 | a half-word read back is the half-word written |
| MemoryMap.WriteBackWord | memory.c:78-141 | writing back the word read changes no byte |
| MemoryMap.OppositeByteOrder | memory.c:61-94 | reading in the opposite byte order gives the byte reversal |
| MemoryMap.AcceptedAccessInside | memory.c:126-129 | an accepted access stays in the memory if and only if its last byte is below the size (or the memory spans all addresses) |
| MemoryMap.AcceptedAccessOutside | memory.c:126-129 | a concrete accepted access that reaches outside |
| MemoryMap.EveryByteIsTheLastWritten | memory.c:96-141 | after any history of byte, half and word writes in either order, every cell holds the byte of the last accepted write that covers it |
| MemoryMap.ReadsCombineLastBytes | memory.c:52-141 | then every read of any width at any address, overlaps included, combines those bytes in the order asked for |
| MemoryMap.BytesOfStoredWord | memory.c:52-141 | each byte of a stored word is the matching digit |
| MemoryMap.HalvesOfStoredWord | memory.c:61-141 | each half of a stored word is the matching half |
| MemoryMap.HalvesMakeWord | memory.c:106-141 | two half-word stores are one word store |
| MemoryMap.BytesMakeWord | memory.c:96-141 | four byte stores are one word store |
| Core.PcMask | arm_core.c:91-94 | the mask 0xFFFFFFFD clears bit 1 and nothing else |
| Core.SeenPcIsMasked | arm_core.c:86-94 | R15 reads as the stored value plus 4 under the mask of the code |
| Core.ArmCore.ReadRegister | arm_core.c:84-101 | the register of the current mode; R15 reads 4 more than stored with bit 1 clear |
| Core.ArmCore.WriteRegister | arm_core.c:120-127 | one register write in the current mode, the rest of the machine kept |
| Core.ArmCore.Fetch | arm_core.c:167-182 | the word at the stored PC, PC + 4, one more cycle, also when the access fails |
| Core.RefusedFetch | arm_instruction.c:33-34 | a fetch that the memory refuses may give any word: its return code is ignored |
| Core.ArmCore.CondNotRespect | arm_core.c:208-328 | the return code of the sixteen arms on the current flags |
| Core.ConditionsAgree | arm_core.c:217-328 | the arms agree with the condition table of section A3.2 if and only if the condition is not PL and, for LE, LE holds |
| Core.ConditionsDisagree | arm_core.c:254-316 | concrete flags for which PL and LE disagree with the table |
| Core.ConditionPasses | arm_core.c:208-328 | by the bits of CPSR and instruction: the code lets pass the conditions of the table, with PL read as MI and LE as AL, and never the condition 15 |
| DataProcessing.MasksSetFlags | arm_data_processing.c:94-144 | the four successive masked updates set N, Z, C, V and keep bits 27..0 |
| DataProcessing.UpdateFlags | arm_data_processing.c:78-148 | flags, or CPSR from SPSR for R15, or UNDEFINED_INSTRUCTION in a mode without SPSR |
| DataProcessing.EffectuerOperation | arm_data_processing.c:150-278 | destination and flags of the sixteen operations, as a function of the state |
| DataProcessing.ArmDataProcessingShift | arm_data_processing.c:280-323 | the register form: condition, shift amount from immediate or register, operation |
| DataProcessing.ArmDataProcessingImmediateMsr | arm_data_processing.c:325-349 | the immediate form |
| Shifter.ShiftedBit | arm_data_processing.c:49-76 | every bit of the four shifts, for all amounts 0..31, is the operand bit that section A5.1 brings there, or 0 |
| Shifter.AsrIsSignedDivision | arm_data_processing.c:59-73 | ASR read as signed is floor division by 2^k, negatives included |
| Shifter.ShiftedMeans | arm_data_processing.c:49-76 | the four shifts as arithmetic: product modulo 2^32, quotient, signed quotient, exchange of the two parts |
| Shifter.RotationsAdd | arm_data_processing.c:75 | rotations compose by adding their amounts modulo 32 |
| Shifter.RotationInverse | arm_data_processing.c:75 | every rotation is undone by another |
| Arithmetic.TempIsResult | arm_data_processing.c:162-273 | the low half of the 64-bit temporary is the operation's result: congruent to the exact integer, or made of the right bits, for all sixteen opcodes |
| Arithmetic.ResultUnique | arm_data_processing.c:162-273 | and that description determines the result |
| Arithmetic.ExactAccounting | arm_data_processing.c:178-245 | result plus 2^32 times the new C is the exact sum, result minus 2^32 times the new C the exact difference; CPSR bits 27..0 are kept |
| Arithmetic.NegativeAndZeroFlags | arm_data_processing.c:103-122 | N is the sign of the result; Z says that the result is 0 if and only if the operands are not a hidden zero |
| Arithmetic.HiddenZeroOfAddition | arm_data_processing.c:103-111 | a concrete addition whose result is 0 with Z clear |
| Arithmetic.CarryAndOverflowFlags | arm_data_processing.c:123-144 | C is the carry of the manual if and only if the operation is a sum, its opposite for a difference; V is the overflow of the manual if and only if nothing is carried into bit 31 or borrowed from it |
| Arithmetic.LogicalCarryAndOverflow | arm_data_processing.c:123-144 | after the other operations C and V are set if and only if it is MVN |
| Arithmetic.CarryAndOverflowDiffer | arm_data_processing.c:123-144 | a concrete difference for C and a concrete sum for V |
| LoadStore.ArmLoadStore | arm_load_store.c:32-193 | condition and choice between word/byte and half-word transfers, as the function whose outcomes SingleOutcome and PcBaseOutcome give |
| LoadStore.TransferWordByte | arm_load_store.c:53-124 | LDR, LDRB, STR, STRB step by step, as the function whose outcomes SingleOutcome and PcBaseOutcome give |
| LoadStore.TransferHalf | arm_load_store.c:128-190 | LDRH and STRH step by step, as the function whose outcomes SingleOutcome gives |
| LoadStore.ArmLoadStoreMultiple | arm_load_store.c:195-251 | the register loop with its aborts, the refused forms, the write-back, as the function whose outcomes BlockRefused, StoreMultiple and LoadMultiple give |
| SingleLaws.SingleOutcome | arm_load_store.c:32-193 | every single transfer with a base other than R15, by the bits of the word: refused on its condition, malformed, aborted with a pre-indexed base moved and a post-indexed one not, refused after the access (post-indexed with W), or completed at base plus or minus the immediate, two-nibble, register or shifted offset |
| SingleLaws.PcBaseOutcome | arm_load_store.c:49-95 | every single transfer with base R15: refused, or a load without access and a store of the base plus 8 |
| SingleLaws.CompletesWhen | arm_load_store.c:32-193 | exactly when a single transfer completes |
| SingleLaws.StoreLaw | arm_load_store.c:74-122 | a completed store of any width and addressing mode writes the truncated register at the effective address, then moves a post-indexed base |
| SingleLaws.LoadLaw | arm_load_store.c:74-122 | a completed load puts the zero-extended value at the effective address in Rd, then moves a post-indexed base |
| SingleLaws.LoadDoneRegisters | arm_load_store.c:74-122 | every register after such a load: Rd holds the value unless it is a post-indexed base, which moves last; the base moves when the mode says so; no other register changes |
| SingleLaws.StoreDoneRegisters | arm_load_store.c:74-122 | after a store only the base changes, when the mode says so |
| SingleLaws.StoreThenLoad | arm_load_store.c:32-193 | a load at the effective address of an earlier store of the same width loads what was stored, whatever the addressing modes, the destination, and what happened to the registers in between |
| SubWords.WordThenByte | arm_load_store.c:81-114 | LDRB at byte i of an STR loads that byte of the stored register, in the configured byte order |
| SubWords.WordThenHalf | arm_load_store.c:81-173 | LDRH at either half of an STR loads that half of the stored register |
| SubWords.HalvesThenWord | arm_load_store.c:81-173 | two STRH, then LDR: the word that the halves spell |
| SubWords.BytesThenWord | arm_load_store.c:81-114 | four STRB, then LDR: the word that the bytes spell |
| SubWords.LoadCombinesLastBytes | arm_load_store.c:32-193 | after any completed stores of any widths and addressing modes, overlaps included, a load of any width combines the last bytes written |
| BlockTransfers.RegistersFromExact | arm_load_store.c:220-221 | the transferred registers are the listed ones, once each, in increasing order |
| BlockTransfers.StoreLoop | arm_load_store.c:219-235 | the register of rank k is stored at start plus or minus 4k until the memory refuses a word; every other byte is kept |
| BlockTransfers.LoadLoop | arm_load_store.c:219-235 | the register of rank k is loaded from start plus or minus 4k until the memory refuses a word, whose register receives the word before it; every other cell is kept |
| BlockLaws.BlockRefused | arm_load_store.c:195-217 | a block transfer whose condition is refused returns -1, one with an empty list, S = 1, or a listed base and W is undefined; both change nothing |
| BlockLaws.AddressLaw | arm_load_store.c:209-214 | start and successive addresses, hence the final base, on 32 bits for all four P/U settings |
| BlockLaws.OppositeOrder | arm_load_store.c:209-248 | the words of a transfer are those of section A5.4, in the opposite order when it goes downwards |
| BlockLaws.OrderMatchesManual | arm_load_store.c:209-248 | every register meets its word of section A5.4 if and only if the transfer goes upwards or lists at most one register |
| BlockLaws.BaseMatchesManual | arm_load_store.c:209-248 | the written-back base is that of section A5.4 if and only if the transfer is not pre-indexed |
| BlockLaws.StoreMultiple | arm_load_store.c:195-251 | every other STM: stored words, base, and the code: an abort first, then UNDEFINED_INSTRUCTION with the base unwritten when R15 is listed; nothing else changes |
| BlockLaws.LoadMultiple | arm_load_store.c:195-251 | every other LDM: loaded registers, the register of the refused word, base, and the code: an abort first, then UNDEFINED_INSTRUCTION with the base unwritten when R15 is listed |
| BlockLaws.AbortKeepsPrefix | arm_load_store.c:219-235 | an aborting STM stored exactly the listed registers below the failing one, inside the memory when base and size are aligned; no register and no other byte changed |
| BlockLaws.StoreThenLoad | arm_load_store.c:195-251 | STM then LDM with the same list, base and mode restores every listed register and leaves the others, whatever happened in between |
| BlockCopy.MnemonicsArePair | arm_load_store.c:200-206 | the encodings of LDMIA and STMIA with write-back satisfy the hypotheses of the copy for every list without the bases and R15 |
| BlockCopy.CopyOnce | arm_load_store.c:219-248 | three fetched steps, LDMIA, STMIA with write-back and B, copy one block, advance both bases and return to the load |
| BlockCopy.CopyLoop | arm_load_store.c:219-248 | 3k steps of that loop in memory copy exactly 4 times k times the number of listed registers bytes in order, advance both bases by that, and change no other byte |
| BlockCopy.CopyPossible | arm_load_store.c:219-248 | a machine that meets the hypotheses of the copy, for every pair and every size that fits |
| Stack.PushWordIsPush | arm_load_store.c:37-42 | the encoding of STR Rd, [Rn, #-4]! decodes to its fields |
| Stack.PopWordIsPop | arm_load_store.c:37-42 | the encoding of LDR Rd, [Rn], #4 decodes to its fields |
| Stack.PushEffect | arm_load_store.c:74-113 | STR Rd, [Rn, #-4]! stores Rd below the base and moves the base down |
| Stack.PopEffect | arm_load_store.c:81-122 | LDR Rd, [Rn], #4 loads Rd from the base and moves the base up |
| Stack.StackRefinement | arm_load_store.c:74-122 | any legal program of pushes, pops and register writes refines registers plus a LIFO sequence: base = initial base - 4 depth, elements below the base, bytes outside the area unchanged |
| Stack.ProgramRefinement | arm_load_store.c:74-122 | a program of pushes and pops fetched from memory: after every k steps of the run the machine represents the abstract one after k fetches and operations, and R15 is at word k |
| Stack.SubroutineBalanced | arm_load_store.c:74-122 | on the abstract machine, pushing registers and popping them in reverse order restores them and the stack |
| Stack.SubroutineRestores | arm_load_store.c:74-122 | so on the machine: saved registers and base are restored, whatever the body wrote |
| BranchOther.ArmBranch | arm_branch_other.c:31-49 | B, BL, BLX: link, state bit, target, as the function whose outcomes BranchOutcome gives |
| BranchLaws.BranchOutcome | arm_branch_other.c:31-49 | every branch, by the bits of the word: -1 and nothing changed, or R15 at its read value plus the distance, R14 at that value for BL and BLX, CPSR bit 5 set for BLX, nothing else changed; a BLX is always taken |
| BranchLaws.AlignedBranch | arm_branch_other.c:34-45 | from an aligned counter: stored PC plus four times the signed immediate, plus 2 for a BLX with bit 24; R14 is the stored PC plus 4 |
| BranchLaws.HalfWordTarget | arm_branch_other.c:39-42 | a concrete BLX to a half-word address |
| BranchOther.FonctionMsr | arm_branch_other.c:88-121 | MSR as coded: reserved bits, masks by privilege, the logical negation of the mask, as the function whose outcomes MsrOutcome gives |
| MsrLaws.MsrOutcome | arm_branch_other.c:59-121 | every word of the miscellaneous space: undefined, refused, or the CPSR or SPSR written bit by bit: the operand in the selected bytes among flags, mode bits outside User mode, and bit 5 of an SPSR, 0 elsewhere |
| DataLaws.MsrImmediateCompares | arm_instruction.c:49-62 | the immediate form of MSR never reaches that handler: it is executed as TEQ or CMN |
| BranchOther.MsrBits | arm_branch_other.c:105-117 | bit by bit: under a non-empty mask MSR writes the masked operand and clears every other bit |
| BranchOther.MsrMatchesManual | arm_branch_other.c:111-117 | MSR writes what the manual says if and only if the overwritten register has no bit outside the mask (under an empty mask: holds 0 or 1) |
| BranchOther.MsrClearsMode | arm_branch_other.c:111 | a concrete CPSR whose mode bits the manual keeps and the code clears |
| BranchOther.ArmMiscellaneous | arm_branch_other.c:59-69 | MSR when its encoding and condition hold, UNDEFINED_INSTRUCTION otherwise |
| BranchOther.BxIsCapturedByMsr | arm_branch_other.c:61-66 | every word that passes the BX test passes the MSR test before it |
| Instruction.ArmExecuteInstruction | arm_instruction.c:32-92 | fetch, then the handler selected by bits 27..25 and the sub-fields, as the function that the outcome laws of the six spaces describe |
| Instruction.SpacesAreBits | arm_instruction.c:36-63 | the sub-spaces of the dispatch, by the bits that it tests |
| Steps.EveryWord | arm_instruction.c:32-92 | every word belongs to exactly one of the six spaces that have an outcome law |
| Steps.OtherOutcome | arm_instruction.c:62-91 | the words without a handler of their own: software interrupts, and undefined ones |
| Instruction.ArmException | arm_instruction.c:97-100 | RESET rewrites CPSR and PC; software interrupts 0x123456 and 1; other codes are returned, as the function behind StepOutcome |
| Instruction.ArmStep | arm_instruction.c:94-102 | a non-zero code is raised as a byte, as the function that StepOutcome describes |
| Steps.StepOutcome | arm_instruction.c:94-102 | for every dispatched code: the code that the step returns, 255 for -1 and the known software interrupts included, and the machine it leaves |
| Steps.ReturnsZero | arm_instruction.c:94-102 | a step returns 0 if and only if its instruction completes or is software interrupt 1 |
| Steps.RunReturnsZero | arm_instruction.c:94-102 | over every run, all steps return 0 if and only if all instructions complete |
| Runs.ResetIffSkips | arm_instruction.c:32-102 | in every mode, the return code is that of RESET if and only if a data-processing instruction is skipped on its condition |
| Modes.MsrValueHasNoBit4 | arm_branch_other.c:105-112 | the CPSR that MSR writes has its mode bits below 16 |
| Modes.DispatchBehaves | arm_instruction.c:32-92 | every instruction word, in every mode: only cells that the mode can name change; from the seven modes, the mode is kept if and only if no MSR writes the CPSR and no flag-setting operation into R15 restores another mode |
| Modes.StepKeepsMode | arm_instruction.c:32-102 | a step changes only cells that its mode can name; from the seven modes it keeps the mode if and only if it executes no such exit and does not reset outside Supervisor mode |
| Modes.MsrLeavesUserMode | arm_branch_other.c:105-112 | MSR CPSR_f, R0 with R0 = 0 leaves User mode for a CPSR of 0 |
| Modes.SkippedMoveLeavesUserMode | arm_instruction.c:94-102 | MOVEQ with Z clear leaves User mode for Supervisor mode |
| Modes.RunKeepsMode | arm_instruction.c:32-102 | over every run from the seven modes, the mode holds throughout if and only if every step stays, and then no cell of another mode changes |
| Modes.RunIsolates | arm_instruction.c:32-102 | over every run, through whatever modes, a cell changes only while a mode that can name it is current |
| Modes.UserStep | arm_instruction.c:32-102 | from User or System mode: the mode is kept if and only if no MSR writes the CPSR and no data-processing instruction is skipped; no cell 17..36 changes |
| Modes.UserRun | arm_instruction.c:32-102 | over every run that stays in User or System mode, no cell 17..36 changes |
| ProgramCounter.DisplacementIsSigned | arm_branch_other.c:34-45 | the forced high byte and the shift give four times the signed 24-bit immediate modulo 2^32 |
| ProgramCounter.BranchMovesPc | arm_branch_other.c:36-45 | a taken branch moves the stored aligned PC by exactly its displacement |
| ProgramCounter.ReadsAddressPlus8 | arm_core.c:86-94 | after the fetch, R15 reads as the address of the instruction plus 8 |
| ProgramCounter.StepMovesPc | arm_core.c:167-182 | a step that writes R15 only by branching: 0 after a reset, moved by 4 plus the displacement otherwise, always aligned; moved as asked if and only if it does not reset, or resets at the last word |
| ProgramCounter.SkippedMoveResets | arm_instruction.c:94-102 | MOVEQ with Z clear sets the counter to 0 instead of moving it by 4 |
| ProgramCounter.RunCounts | arm_core.c:179 | a run of k steps counts k cycles modulo 2^32 |
| ProgramCounter.RunMovesPc | arm_core.c:167-182 | over every such run the PC stays aligned, at the sum of the movements since the start or the last reset |
| ProgramCounter.RunMovesThroughout | arm_core.c:167-182 | the PC moves as the instructions ask at every step of the run if and only if no step resets it from elsewhere than the last word |
| ProgramCounter.RunReturns | arm_branch_other.c:34-45 | the PC returns if and only if the movements since it was last set make up for the difference; without a reset, if and only if they sum to 0 modulo 2^32 |
| ProgramCounter.StraightRun | arm_core.c:171-177 | a run without taken branches ends 4 bytes per step after its start, or after 0 when it was reset |
| ProgramCounter.CallLinks | arm_branch_other.c:37-39 | a BL taken from an aligned address leaves that address + 8 in R14 |
| ProgramCounter.CallReturns | arm_branch_other.c:31-49 | a run of a BL, any body that keeps R14, and MOV PC, R14 lands on the second word after the BL |
| ProgramCounter.SwiReadsItself | arm_instruction.c:97-100 | the exception handler reads back the very software interrupt that was fetched and decides on its 24 low bits |
| Programs.StepThrough | arm_core.c:167-182 | a step at word i of a program in memory executes that word and, when it does not write R15, ends at word i + 1 |
| Programs.BackEffect | arm_branch_other.c:34-45 | a B with a negative immediate moves the counter back and changes nothing else |
| Programs.PlacedReads | arm_core.c:167-182 | any program can be placed in a memory that has room for it |
| CommandCreator.DecodeBuilt | command_creator.c:5-8 | decoding a built instruction returns the fields given |
| CommandCreator.RebuildDecoded | command_creator.c:5-8 | rebuilding the decoded fields of any word with bits 27..26 zero returns the word |
| CommandCreator.DecodeImmediate | command_creator.c:13-16 | decoding a built immediate operand returns rotation and value |
| CommandCreator.DecodeAmount | command_creator.c:18-21 | decoding a built shift-by-amount operand returns its fields and form bit |
| CommandCreator.DecodeRegister | command_creator.c:23-26 | decoding a built shift-by-register operand returns its fields and form bits |
| CommandCreator.RebuildImmediate | command_creator.c:13-16 | every 12-bit operand is rebuilt as an immediate from its decoded fields |
| CommandCreator.RebuildAmount | command_creator.c:18-21 | every operand with bit 4 clear is rebuilt from its decoded fields |
| CommandCreator.RebuildRegister | command_creator.c:23-26 | every operand with bit 4 set and bit 7 clear is rebuilt from its decoded fields |
| EncodeExecute.ReachesHandler | arm_instruction.c:36-63 | every built instruction with condition AL reaches the operation, with the operand of its form |
| EncodeExecute.BuiltInstructionExecutes | arm_data_processing.c:78-349 | for all valid fields: Rd receives the result of the operation on an operand with the right bits; compares write no register; no other cell, no memory changes; with S the CPSR gets N, Z, C, V of the result, or for Rd = R15 the SPSR; it fails exactly when that SPSR does not exist |
| DataLaws.DataOutcome | arm_data_processing.c:280-349 | every data-processing word, by its bits: code 1 and nothing changed when its condition is refused; otherwise the operand, result, flags and code of that theorem |
| MultiWord.AddEffect | arm_data_processing.c:192-207 | ADDS and ADCS: result and carry of the exact sum, other registers kept |
| MultiWord.LimbEffect | arm_data_processing.c:192-207 | four fetched steps, LDR, LDR, ADDS/ADCS, STR, add one limb of two numbers in memory; the loads and the store preserve C |
| MultiWord.AdditionIsExact | arm_data_processing.c:192-207 | a program in memory, run for any number of limbs: the stored number plus C times 2^(32n) is the exact sum, in place or not, and no other byte changes |
| MultiWord.AdditionPossible | arm_data_processing.c:192-207 | a machine that meets the hypotheses of the addition, for every plan and every number of limbs that fits |

## Left out

- The GDB server, scanner, sockets, IRQ sender, tracing and `printf` output: input and output.
- Allocation, freeing and the initial state of `arm_create`: the theorems start from any state.
- The character written by software interrupt 1: output.
- BX: its branch in `arm_miscellaneous` is dead, so `fonction_BX` is not modelled.
- Shifts by 32 bits are undefined in C: they are taken as 0, which only matters for ASR by 0 of a negative operand.
- Single transfers with base R15 have their outcome law only; the round trips of `SingleLaws` and `SubWords` are about other bases.
- Modes other than the seven: the register table models them (R13 and R14 read as 0, writes to them are dropped); the laws about transfers and built instructions assume one of the seven.
