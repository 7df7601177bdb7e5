# Models of HotSpot's AArch64 code emitters and of the Linux serviceability agent

This project models two parts of the repository in Dafny and proves what they promise.

**Emitted AArch64 code.** The C1 macro assembler emits a lock-free locking protocol, unrolled zeroing loops with a
computed entry, compare-and-branch sequences, arraycopy checks and profile updates. Underneath is the instruction
encoder: a field writer with a mask of written bits, addressing modes, add/sub immediates, PC-relative branches with
labels, and constants built from 16-bit parts. The encoder is proved against a decoder written from the Arm
Architecture Reference Manual (DDI 0487), and the emitted sequences against what they are meant to compute.

**The serviceability agent on Linux.** Reading a core file (sorted mappings, binary search, a read loop over several
mappings), reading a live process one word at a time, attaching to all its threads while dead ones are taken out of
the list being walked, and the CRC that guards separate debug files.

## Layout

| files | what they model |
|---|---|
| `Bits`, `BitFields`, `Wrappers` | numbers, bit strings and fields of a 32-bit word |
| `RecursionMask`, `StackLock`, `StackLockProof`, `StackLockTheorems`, `StackLockProgress` | the stack-locking protocol |
| `Machine`, `Zeroing`, `Initialize`, `ObjectInit` | zeroing code on a small instruction interpreter |
| `Instruction`, `Branches`, `BranchDecode`, `Labels`, `AdrpPairs`, `AdrpRuns` | the field writer, branches, labels, patching |
| `Addressing`, `AddressDecode`, `Pairs`, `AddSub`, `MovImmediate`, `Lea`, `FormAddress` | addresses and constants |
| `Compare`, `ArrayCopy`, `ReceiverProfile`, `TypeProfile` | lowered LIR operations |
| `CrcTable`, `Crc` | the debuglink CRC |
| `CoreMaps`, `CoreRead`, `ProcRead`, `WaitTrace`, `ThreadList` | the agent |

## How things are modelled

- **Stack locking** is a step relation over any number of threads and one sequentially consistent memory. Each load,
  store and compare-and-swap is a step of its own. Threads unlock in the reverse order of locking, biased locking is
  off, and a thread that takes the slow path stays there.
- **Words** are sequences of 32 bits; registers are natural numbers with explicit reduction modulo 2^32 or 2^64. C
  conversions that lose bits (`long` to `unsigned`, `int` negation) are written out. Register operands are hardware
  register numbers.
- **A failed `guarantee`** is a precondition of the emitting method, or `None` in the functions that say when it fails.
- **The zeroing code** is executed by an interpreter in which instruction `i` has address `base + 4 * i`, so that the
  computed branch lands on an instruction by arithmetic. `Leads` says that finitely many steps lead from one state to
  another; the interpreter is deterministic.
- **System calls** (`pread`, `ptrace`, `waitpid`) are parameters: file contents, readable words, a trace of answers.
  `qsort` is represented by insertion sort; only "sorted and a permutation" is used of it.
- **Code and documentation disagree** at `c1_MacroAssembler_aarch64.cpp:99`: the comment allows `hdr <= sp + page_size`,
  the mask gives `<`. The model follows the code.

## What does not hold, and exactly when

- Mutual exclusion needs a gap between stacks: it holds over all runs if and only if each stack begins at least a page,
  less one lock record, above the end of the one below (`MutualExclusionExact`).
- A byte access with a shifted index register does not access the address `lea` computes (`RegisterAgreesExact`).
- `lea` adds the wrong constant, or its `guarantee` fails, beyond 2^32 - 2^24 either way (`LeaExact`, `WrapValue`).
- `offset_ok_for_immed` turns down one offset the encoding would keep, -256 (`OffsetOkExact`).
- `encode`, whose field writer takes a 32-bit value, accepts multiples of the scale beyond 2^32 words that it then
  truncates (`TruncatedExactly`; `TruncatedExample` is an 8-byte load 2^35 bytes past its base).
- The literal `ldrq` passes 0x10 for a two-bit opcode field, so it can never be emitted (`LiteralEmittable`).
- An empty mapping that starts inside another one hides part of it from `core_lookup` (`SearchExact`, `HiddenExample`).
  Segments with
  `p_filesz` 0 are skipped (`ps_core.c:710`, `744`, `819`), so such a mapping needs a malformed library header whose
  `p_memsz` is 0.
- A core file that ends inside a mapping with a fractional last page yields zeros for missing bytes (`SoundExactly`,
  `CutShortExample`).
- A read that starts in a class-sharing mapping and runs on into addresses an ordinary mapping covers returns bytes of
  the sharing archive there. Reads are right whatever the files hold if and only if reading on agrees with looking up
  each address, which shows where mappings start and end (`OverlapExactly`, `ConsistentExactly`, `OverlaidShare`).
- Calls with a statically known receiver are lost when no row is left for it (`KnownCountedExactly`).
- A call with a known receiver overwrites the receiver of its row when another receiver took the row after compilation:
  rows stay exact over mixed histories if and only if no known call meets such a row, or none at all
  (`MixedRowsExactIff`; `OverwrittenRow` is such a history).
- `form_address` with the base as destination register doubles the offset where the constant is moved
  (`FormedExactly`, `DoubledExample`). Nothing checks for it; the callers in the repository pass a scratch register as
  destination.
- The type profile never records a klass on the no-conflict path (`AlwaysExactIff`; `FirstKlassForgotten` is the
  shortest history).
- An empty read at an unaligned address still peeks at one word (`PeeksOverlapExactly`).
- Attaching succeeds although threads are missing from the list when memory ran out during thread discovery: all
  discovered threads are listed if and only if each could be allocated (`AddedAllExactly`).
- After a failed attach the main process is asked to detach only if thread discovery listed it (`MainDetachedExactly`).

## Model

| member | source | states |
|---|---|---|
| RecursionMask.MaskTestExact | src/cpu/aarch64/vm/c1_MacroAssembler_aarch64.cpp:93-110 | for every aligned `sp` and power-of-two page size the one mask test is zero exactly when the mark is 8-aligned and in `[sp, sp + page)` |
| StackLockProof.PreservedByStep | src/cpu/aarch64/vm/c1_MacroAssembler_aarch64.cpp:63-160 | every step of every thread keeps the protocol invariant, given the gap between stacks |
| StackLockProof.RunInv | src/cpu/aarch64/vm/c1_MacroAssembler_aarch64.cpp:63-160 | the invariant holds after every interleaving of any number of threads |
| StackLockTheorems.MutualExclusionHolds | src/cpu/aarch64/vm/c1_MacroAssembler_aarch64.cpp:63-160 | in every reachable state no object is held by two threads |
| StackLockTheorems.MutualExclusionExact | src/cpu/aarch64/vm/c1_MacroAssembler_aarch64.cpp:93-114 | mutual exclusion over all runs holds if and only if the stacks keep their distance; otherwise a concrete run lets two threads in |
| StackLockTheorems.HeaderConserved | src/cpu/aarch64/vm/c1_MacroAssembler_aarch64.cpp:82-92 | the logical header of an object never changes, and is back in the mark when nobody holds the object |
| StackLockTheorems.UnlockNeverFails | src/cpu/aarch64/vm/c1_MacroAssembler_aarch64.cpp:137-157 | the owner's unlocking compare-and-swap finds the mark it expects in every reachable state |
| StackLockTheorems.OnlyOwnerRecurses | src/cpu/aarch64/vm/c1_MacroAssembler_aarch64.cpp:107-114 | the recursive path is taken only by the thread that already holds the object |
| StackLockTheorems.EmptyMeansRecursive | src/cpu/aarch64/vm/c1_MacroAssembler_aarch64.cpp:111-141 | a zero displaced header marks exactly the recursive lock records |
| StackLockProgress.UnlockCompletes | src/cpu/aarch64/vm/c1_MacroAssembler_aarch64.cpp:137-157 | from every reachable state an unlock ends, whatever other threads do: after one or three steps of its own the thread runs again with the last record gone, it is never sent to the slow path, and its last step puts the header back when no earlier record has the object |
| StackLockProgress.FreeLockCompletes | src/cpu/aarch64/vm/c1_MacroAssembler_aarch64.cpp:68-92 | locking an object whose mark stays neutral ends after four steps with the record added, its address in the mark and the header in the record |
| StackLockProgress.RecursiveLockCompletes | src/cpu/aarch64/vm/c1_MacroAssembler_aarch64.cpp:93-116 | locking an object the thread holds ends after five steps: with the record added if the mark is in `[sp, sp + page)`, in the slow path otherwise, whatever other threads do |
| StackLockProgress.HeldLockRefused | src/cpu/aarch64/vm/c1_MacroAssembler_aarch64.cpp:82-114 | locking an object another thread holds all the while ends in the slow path after five steps, with no record added |
| Zeroing.EmitZeroMemory | src/cpu/aarch64/vm/c1_MacroAssembler_aarch64.cpp:240-257 | the emitter's loop produces the eighteen instructions of the unrolled loop |
| Zeroing.BranchEnters | src/cpu/aarch64/vm/c1_MacroAssembler_aarch64.cpp:242-249 | the computed branch lands `count % 8` stores before the loop's entry, with the registers set for the rest |
| Zeroing.ZeroesExactly | src/cpu/aarch64/vm/c1_MacroAssembler_aarch64.cpp:201-258 | for every word count the code ends having zeroed each word of the region exactly once, in ascending order, and nothing else |
| Initialize.EmitInitializeBody | src/cpu/aarch64/vm/c1_MacroAssembler_aarch64.cpp:261-288 | the emitted body code, with and without a header to skip |
| Initialize.BodyZeroed | src/cpu/aarch64/vm/c1_MacroAssembler_aarch64.cpp:261-288 | exactly the words from header end to object end are zeroed, and the object register is restored |
| Initialize.EmitExplicit | src/cpu/aarch64/vm/c1_MacroAssembler_aarch64.cpp:313-321 | the emitter's loop produces the explicit stores for a small constant size |
| Initialize.ExplicitZeroes | src/cpu/aarch64/vm/c1_MacroAssembler_aarch64.cpp:313-321 | single and paired stores cover the body words once each, for odd and even word counts |
| ObjectInit.EmitLoop | src/cpu/aarch64/vm/c1_MacroAssembler_aarch64.cpp:322-347 | the entry label ends up `words % 8` stores before the loop end |
| ObjectInit.EmitInitializeObject | src/cpu/aarch64/vm/c1_MacroAssembler_aarch64.cpp:300-348 | the strategy chosen for a register size, a small and a large constant size |
| ObjectInit.LoopsExactly | src/cpu/aarch64/vm/c1_MacroAssembler_aarch64.cpp:313-322 | a constant size is zeroed by a loop if and only if it is above 128 bytes |
| ObjectInit.ObjectZeroed | src/cpu/aarch64/vm/c1_MacroAssembler_aarch64.cpp:300-348 | all three strategies zero the same words: every body word once, nothing else |
| ObjectInit.ArraySizeLeast | src/cpu/aarch64/vm/c1_MacroAssembler_aarch64.cpp:365-375 | exactly the lengths below the limit are accepted; the size is aligned, holds header and elements, wastes less than one alignment unit, and no sum overflows |
| ObjectInit.ArraySizeMinimal | src/cpu/aarch64/vm/c1_MacroAssembler_aarch64.cpp:371-375 | no smaller aligned size holds the array |
| ObjectInit.ArrayZeroed | src/cpu/aarch64/vm/c1_MacroAssembler_aarch64.cpp:359-382 | the body of every accepted array is zeroed up to the rounded object end |
| BitFields.OrderIrrelevant | src/cpu/aarch64/vm/assembler_aarch64.hpp:235-247 | the word does not depend on the order in which fields are written |
| BitFields.ReadBack | src/cpu/aarch64/vm/assembler_aarch64.hpp:193-247 | every field of a word with disjoint fields reads back as written |
| BitFields.SignedFitsExact | src/cpu/aarch64/vm/assembler_aarch64.hpp:253-261 | the check of `sf` passes exactly for the two's complement range of the field |
| BitFields.SignedRoundTrip | src/cpu/aarch64/vm/assembler_aarch64.hpp:182-205 | sign extension undoes truncation for every value that passes the check |
| BitFields.PatchIsRewrite | src/cpu/aarch64/vm/assembler_aarch64.hpp:207-233 | patching a field of an assembled word gives the word assembled with the new value |
| Instruction.Instruction.F | src/cpu/aarch64/vm/assembler_aarch64.hpp:235-247 | the mask check makes fields disjoint; word and mask always describe the list of fields written |
| Instruction.Instruction.Sf | src/cpu/aarch64/vm/assembler_aarch64.hpp:253-261 | a signed value in range is appended as its truncation |
| Instruction.Instruction.Get | src/cpu/aarch64/vm/assembler_aarch64.hpp:281-286 | reads the value of a field that was written |
| Instruction.SignedReadBack | src/cpu/aarch64/vm/assembler_aarch64.hpp:202-205 | a signed field written among disjoint fields is what `sextract` returns |
| Branches.EmitB | src/cpu/aarch64/vm/assembler_aarch64.hpp:840-853 | the word of `b` and `bl`, all bits written once |
| Branches.EmitCompareBranch | src/cpu/aarch64/vm/assembler_aarch64.hpp:858-872 | the word of the compare-and-branch instructions |
| Branches.EmitTestBranch | src/cpu/aarch64/vm/assembler_aarch64.hpp:876-891 | the word of the test-and-branch instructions |
| Branches.EmitBCond | src/cpu/aarch64/vm/assembler_aarch64.hpp:898-902 | the word of a conditional branch |
| Branches.EmitLoadLiteral | src/cpu/aarch64/vm/assembler_aarch64.hpp:1254-1306 | the word of a load of a literal into a general or a 32-bit or 64-bit vector register, and of a prefetch |
| Branches.LiteralEmittable | src/cpu/aarch64/vm/assembler_aarch64.hpp:1273-1306 | every literal load can be emitted but `ldrq`, whose opcode does not fit |
| Branches.EmitLiteralAccess | src/cpu/aarch64/vm/assembler_aarch64.hpp:1369-1377 | the literal mode of a load writes its fields in another order and gives the word of the literal load of that size |
| Branches.EmitAdr | src/cpu/aarch64/vm/assembler_aarch64.cpp:1282-1300 | the words of `adr` and `adrp`, with the split immediate |
| BranchDecode.DecodesToTarget | src/cpu/aarch64/vm/assembler_aarch64.hpp:834-902 | every in-range instruction decodes to itself and its target: `adr` exactly, `adrp` to the page, branches rounded down to a multiple of 4 bytes away |
| BranchDecode.RangeExact | src/cpu/aarch64/vm/assembler_aarch64.hpp:253-261 | the byte displacements each kind accepts |
| BranchDecode.ReachableExact | src/cpu/aarch64/vm/assembler_aarch64.hpp:832-836 | `reachable_from_branch_at` is the range of `b` less its lowest displacement |
| BranchDecode.DispatchesRight | src/cpu/aarch64/vm/macroAssembler_aarch64.cpp:80-96 | both opcode chains classify every emitted word correctly |
| BranchDecode.PatchIsEmit | src/cpu/aarch64/vm/macroAssembler_aarch64.cpp:75-96 | patching a branch emitted with any displacement gives the word emitted for the target directly, and fails exactly out of range |
| BranchDecode.TargetAddrExact | src/cpu/aarch64/vm/macroAssembler_aarch64.cpp:198-219 | `target_addr_for_insn` agrees with the architecture; it has no case for `adr` |
| Labels.Assembler.Emit | src/cpu/aarch64/vm/assembler_aarch64.cpp:1361-1398 | a reference to an unbound label is a placeholder on the label's patch list |
| Labels.Assembler.Bind | src/share/vm/asm/assembler.cpp:168-205 | binding pops the patch list; afterwards all code is as if the label had been known from the start |
| Labels.EveryBranchArrives | src/share/vm/asm/assembler.cpp:112-205 | in assembled code every instruction decodes to the one requested and reaches the address or label it was emitted for |
| AdrpPairs.PatchedPairReadsBack | src/cpu/aarch64/vm/macroAssembler_aarch64.cpp:95-151 | an `adrp` and its follower patched to a target are read back as that target, or as its page where no follower holds the rest |
| AdrpPairs.PatchableExactly | src/cpu/aarch64/vm/macroAssembler_aarch64.cpp:95-151 | patching an `adrp` succeeds if and only if the target's page is within 4 GB either way and a load or store target is aligned; with a MOVK it always succeeds |
| AdrpPairs.PatchedConstantReadsBack | src/cpu/aarch64/vm/macroAssembler_aarch64.cpp:152-162 | a constant in three moves patched to any 48-bit target is read back as that target, and its opcodes, positions and registers are kept |
| AdrpPairs.PatchedConstantBuilds | src/cpu/aarch64/vm/macroAssembler_aarch64.cpp:152-162 | executing the three patched moves leaves the target in the register, whatever it held |
| AdrpRuns.AddReachesTarget | src/cpu/aarch64/vm/macroAssembler_aarch64.cpp:95-151 | an emitted `adrp` and add, patched to any target in reach and executed, leave the target in the register |
| AdrpRuns.LoadReachesTarget | src/cpu/aarch64/vm/macroAssembler_aarch64.cpp:95-151 | an emitted `adrp` and load or store of a general register, patched to any aligned target in reach and executed, access the target; one of a vector register is not recognised and keeps its offset |
| AdrpRuns.MovkReachesPage | src/cpu/aarch64/vm/macroAssembler_aarch64.cpp:95-151 | an emitted `adrp` and a MOVK of bits 47 to 32, patched to any target and executed, leave the target's page |
| Addressing.LoadStore | src/cpu/aarch64/vm/assembler_aarch64.hpp:1359-1382 | the word of a load or store in every addressing mode with a base register, the operand size taken from the fields already written |
| AddressDecode.DecodeEncode | src/cpu/aarch64/vm/assembler_aarch64.hpp:438-502 | decoding gives back access, mode, base, index, extension and offset |
| Pairs.LoadStorePair | src/cpu/aarch64/vm/assembler_aarch64.hpp:1312-1322 | the word of a load or store pair |
| Pairs.DecodeEncode | src/cpu/aarch64/vm/assembler_aarch64.hpp:504-552 | decoding a pair gives back form, registers and offset |
| AddSub.FitsExact | src/cpu/aarch64/vm/assembler_aarch64.cpp:1414-1456 | the 12-bit field fits exactly for the operands `operand_valid_for_add_sub_immediate` accepts |
| AddSub.AddSubImmediate | src/cpu/aarch64/vm/assembler_aarch64.cpp:1414-1444 | the word emitted for a signed immediate: negated opcode, shifted form |
| AddSub.DecodeEncode | src/cpu/aarch64/vm/assembler_aarch64.cpp:1414-1444 | the word decodes to the absolute value, with the opcode flipped for negative immediates |
| AddSub.NegationKeepsOutcome | src/cpu/aarch64/vm/assembler_aarch64.cpp:1420-1427 | flipping ADDS and SUBS keeps the result and all four flags |
| AddSub.RunImmediate | src/cpu/aarch64/vm/assembler_aarch64.cpp:1414-1444 | the emitted word has the value and flags of the requested operation on the signed immediate |
| MovImmediate.BuildFrom | src/cpu/aarch64/vm/macroAssembler_aarch64.cpp:1534-1602 | one MOVZ or MOVN and a MOVK for each further part that differs build the constant |
| MovImmediate.MovImmediate64 | src/cpu/aarch64/vm/macroAssembler_aarch64.cpp:1512-1609 | whatever the register held, the moves leave the constant in it; their number is four less the parts that are all zeros or all ones, at least one |
| Lea.WrapValue | src/cpu/aarch64/vm/macroAssembler_aarch64.cpp:2019-2035 | what the add/sub wrapper computes for every 32-bit operand, and the operands it cannot split |
| Lea.LeaExact | src/cpu/aarch64/vm/assembler_aarch64.cpp:1249-1257 | `lea` is base plus offset exactly for offsets up to 2^32 - 2^24 either way |
| Lea.OffsetOkExact | src/cpu/aarch64/vm/assembler_aarch64.hpp:556-563 | the accepted offsets are those the encoding keeps, except -256 |
| Lea.TruncatedExactly | src/cpu/aarch64/vm/assembler_aarch64.hpp:443-461 | an offset is accepted and encoded as another one if and only if it is a multiple of the access size, 2^32 accesses or more away, and its low 32 bits of accesses are below 4096 |
| Lea.TruncatedExample | src/cpu/aarch64/vm/assembler_aarch64.hpp:443-461 | an 8-byte load 2^35 bytes past its base is encoded as a load at its base |
| Lea.OffsetAgrees | src/cpu/aarch64/vm/assembler_aarch64.hpp:443-461 | every accepted offset is accessed where `lea` points |
| Lea.IndexedAddress | src/cpu/aarch64/vm/assembler_aarch64.hpp:463-486 | the decoded word accesses, and `lea` computes, the base plus the shifted index: zero-extended from 32 bits for `uxtw`, sign-extended for `sxtw`, whole for `lsl` and `sxtx` |
| Lea.RegisterAgreesExact | src/cpu/aarch64/vm/assembler_aarch64.hpp:463-486 | the base-plus-register form agrees with `lea` for all values if and only if no byte access asks for a shift |
| FormAddress.FormedExactly | src/cpu/aarch64/vm/macroAssembler_aarch64.cpp:1651-1680 | for every offset the part left for the access is encodable, and the formed address is base plus offset if and only if the destination is not the base, the constant need not be moved, or the base holds the offset |
| FormAddress.FormExactly | src/cpu/aarch64/vm/macroAssembler_aarch64.cpp:1651-1680 | no register changes exactly for offsets the access can hold; the constant is moved exactly for other offsets that are negative, unaligned or 16 MB and more |
| FormAddress.DoubledExample | src/cpu/aarch64/vm/macroAssembler_aarch64.cpp:1656-1661 | with the base as destination an offset of -300 is added twice |
| Compare.CompOp | src/cpu/aarch64/vm/c1_LIRAssembler_aarch64.cpp:1945-1982 | the immediate compare, or the constant built in a scratch register |
| Compare.FlagsOfSubs | src/cpu/aarch64/vm/c1_LIRAssembler_aarch64.cpp:1141-1153 | after a compare of any two operands the chosen condition code holds exactly when the LIR condition does |
| Compare.BranchTakenExactly | src/cpu/aarch64/vm/c1_LIRAssembler_aarch64.cpp:1945-1982 | for every register value, width, constant and condition the lowered branch is taken exactly when the condition holds |
| ArrayCopy.ChecksExact | src/cpu/aarch64/vm/c1_LIRAssembler_aarch64.cpp:2321-2347 | the 32-bit checks pass exactly when both ranges lie inside their arrays |
| ArrayCopy.ResumeIsSuffix | src/cpu/aarch64/vm/c1_LIRAssembler_aarch64.cpp:2465-2473 | the adjusted arguments denote the uncopied suffix |
| ArrayCopy.PrefixThenSuffix | src/cpu/aarch64/vm/c1_LIRAssembler_aarch64.cpp:2269-2277 | between different arrays, partial copy then resumed copy is the full copy |
| ArrayCopy.CheckcastCopy | src/cpu/aarch64/vm/stubGenerator_aarch64.cpp:1813-1866 | the checked copy loop stores up to the first element that does not fit; it returns 0 if and only if every element fits, else the complement of the number stored |
| ArrayCopy.ResumedCopyIsWhole | src/cpu/aarch64/vm/c1_LIRAssembler_aarch64.cpp:2465-2473 | a checked copy, and on a partial result the slow path with the adjusted arguments, store and fail exactly as one whole arraycopy |
| ArrayCopy.SameArrayExact | src/cpu/aarch64/vm/stubGenerator_aarch64.cpp:1776-1784 | why the caller of the checked copy must guarantee different arrays: within one array resuming would be right for all contents if and only if the prefix overwrites nothing still to be read; no run reaches the failing case |
| ReceiverProfile.ReceiverData.ProfileCall | src/cpu/aarch64/vm/c1_LIRAssembler_aarch64.cpp:1319-1350 | one call updates the matching row, else the first empty row, else the counter |
| ReceiverProfile.RowsExact | src/cpu/aarch64/vm/c1_LIRAssembler_aarch64.cpp:1319-1350 | after any history the rows hold the first distinct receivers, in order, with exact counts, and the counter holds all other calls |
| ReceiverProfile.CallsConserved | src/cpu/aarch64/vm/c1_LIRAssembler_aarch64.cpp:2655-2664 | row counts plus counter equal the number of calls, modulo 2^64 |
| ReceiverProfile.KnownRowCounts | src/cpu/aarch64/vm/c1_LIRAssembler_aarch64.cpp:2620-2653 | with a known receiver exactly the row chosen at compile time changes, whatever has happened to the profile since: it gets the receiver and counts every call |
| ReceiverProfile.KnownCountedExactly | src/cpu/aarch64/vm/c1_LIRAssembler_aarch64.cpp:2620-2653 | known-receiver calls are all counted if and only if a row was there for the klass at compile time |
| ReceiverProfile.MixedRowsExactIff | src/cpu/aarch64/vm/c1_LIRAssembler_aarch64.cpp:2620-2664 | over any history of dynamic and known calls, each known call compiled at any earlier point, the rows are exact after every call if and only if each known call finds its row still empty or its own |
| ReceiverProfile.OverwrittenRow | src/cpu/aarch64/vm/c1_LIRAssembler_aarch64.cpp:2641-2652 | with one row, a call compiled for a klass before another receiver took the row leaves that klass with the count of both |
| TypeProfile.TypeCell.Profile | src/cpu/aarch64/vm/c1_LIRAssembler_aarch64.cpp:2721-2856 | the word after the emitted code has profiled one object |
| TypeProfile.StepExact | src/cpu/aarch64/vm/c1_LIRAssembler_aarch64.cpp:2745-2809 | code compiled against any earlier word keeps the word an exact summary, except exactly in the forgetful case |
| TypeProfile.RunExact | src/cpu/aarch64/vm/c1_LIRAssembler_aarch64.cpp:2721-2809 | over any history of objects and sites, each compiled against the word then in the cell, the word is the summary of all objects seen as long as none is forgotten |
| TypeProfile.AlwaysExactIff | src/cpu/aarch64/vm/c1_LIRAssembler_aarch64.cpp:2810-2852 | the word is exact after every object if and only if the no-conflict path never met a new klass with nothing recorded |
| TypeProfile.FirstKlassForgotten | src/cpu/aarch64/vm/c1_LIRAssembler_aarch64.cpp:2838-2839 | after the first object of any klass on the no-conflict path the word is still 0 |
| TypeProfile.SummaryMeaning | src/share/vm/oops/methodData.hpp:769-806 | the summary is the first klass, the unknown bit exactly when two klasses differ, the null bit exactly when a null was seen |
| CrcTable.EntryExact | agent/src/os/linux/symtab.c:68-121 | each of the 256 table entries is eight bitwise steps on its index |
| Crc.GnuDebuglinkCrc32 | agent/src/os/linux/symtab.c:65-129 | for every byte string and seed the table-driven loop computes the bit-by-bit reflected CRC-32 of section 8 of RFC 1952 |
| Crc.CrcConcat | agent/src/os/linux/symtab.c:146-151 | the CRC of a concatenation is the CRC of the second part seeded with that of the first |
| Crc.Residue | agent/src/os/linux/symtab.c:125-128 | the CRC of any file followed by its own CRC, least significant byte first, is 0x2144DF1C, for any seed |
| Crc.OpenDebugFile | agent/src/os/linux/symtab.c:133-159 | feeding a file in any chunks accepts it exactly when the CRC of the whole file matches |
| Crc.BurstInFileDetected | agent/src/os/linux/symtab.c:65-129 | two different files of one length whose bits differ only inside one window of 32 bits never have the same CRC, for any seed |
| CoreMaps.CoreData.AddMapInfo | agent/src/os/linux/ps_core.c:121-134 | a new mapping in front of the list, and the count; without memory it fails and changes nothing |
| CoreMaps.CoreData.AddClassShareMapInfo | agent/src/os/linux/ps_core.c:137-149 | a new class-sharing mapping in front of its own list, or a failure that changes nothing; a sorted array stays good |
| CoreMaps.CoreData.SortMapArray | agent/src/os/linux/ps_core.c:419-447 | the array becomes a sorted permutation of the list; without memory it fails and keeps the old array |
| CoreMaps.Search | agent/src/os/linux/ps_core.c:152-171 | the loop settles on the last mapping that starts at or below the address, or the first |
| CoreMaps.SearchExact | agent/src/os/linux/ps_core.c:152-175 | for disjoint mappings the search agrees with a linear scan for every address if and only if no empty mapping starts inside another |
| CoreMaps.HiddenExample | agent/src/os/linux/ps_core.c:152-175 | an empty mapping in the middle of another one is what the search settles on at its address |
| CoreMaps.NonEmptyNoneInside | agent/src/os/linux/ps_core.c:152-175 | disjoint mappings none of which is empty meet the condition of the exact result |
| CoreMaps.CoreData.CoreLookup | agent/src/os/linux/ps_core.c:152-196 | the lookup is the linear scan of the ordinary mappings, then of the class-sharing list |
| CoreMaps.LookupExactly | agent/src/os/linux/ps_core.c:170-196 | an ordinary mapping that contains the address is found first; otherwise the first class-sharing one; none if and only if no mapping contains it |
| CoreRead.CoreReadData | agent/src/os/linux/ps_core.c:465-513 | the loop fills the buffer in place with what the read delivers, or fails |
| CoreRead.ReadSound | agent/src/os/linux/ps_core.c:465-513 | every successful read equals the memory image across any number of mappings, with zeros in fractional page tails, wherever reading on is consistent with looking up |
| CoreRead.SucceedsExactly | agent/src/os/linux/ps_core.c:467-513 | with complete files and page-aligned mappings, overlapping or not, a read succeeds exactly when it starts in a mapping and every byte has a known value |
| CoreRead.SoundExactly | agent/src/os/linux/ps_core.c:479-503 | all reads are sound if and only if no mapping with a fractional page that is read from is cut short by its file |
| CoreRead.CutShortExample | agent/src/os/linux/ps_core.c:485-503 | a two-byte mapping with one byte in its file is read as that byte and a zero |
| CoreRead.OverlapExactly | agent/src/os/linux/ps_core.c:176-196 | all reads are sound for all complete files if and only if, from wherever a mapping starts or ends and a lookup finds one, its bytes are those a lookup of each further start or end leads to and its page tail is unmapped there |
| CoreRead.ConsistentExactly | agent/src/os/linux/ps_core.c:152-196 | that condition holds for all pairs of addresses if and only if it holds where mappings start and end |
| CoreRead.TailsBackedExactly | agent/src/os/linux/ps_core.c:479-503 | the condition on cut-off mappings holds for all addresses if and only if it holds where mappings start and end |
| CoreRead.OverlaidShare | agent/src/os/linux/ps_core.c:176-181 | an ordinary mapping over the middle of a class-sharing one breaks that condition |
| CoreRead.PagedConsistent | agent/src/os/linux/ps_core.c:465-513 | mappings that stay apart when rounded up to pages meet that condition |
| ProcRead.ProcessReadData | agent/src/os/linux/ps_proc.c:68-115 | the buffer is filled with the bytes at the address; it fails exactly when a needed word cannot be read, stopping at the first such word |
| ProcRead.PeekedExact | agent/src/os/linux/ps_proc.c:68-115 | the words peeked at are those overlapping the range, and one more for an empty unaligned range |
| ProcRead.PeeksOverlapExactly | agent/src/os/linux/ps_proc.c:74-87 | all peeks overlap the range if and only if it is non-empty or aligned |
| WaitTrace.PtraceWaitpid | agent/src/os/linux/ps_proc.c:177-222 | the wait loop over any trace of answers |
| WaitTrace.SuccessForwardsAll | agent/src/os/linux/ps_proc.c:188-202 | a successful wait ends at the first SIGSTOP and has passed on exactly the stop signals before it, in order |
| WaitTrace.StopMeansSuccess | agent/src/os/linux/ps_proc.c:192-199 | no SIGSTOP is consumed by a wait that does not succeed |
| WaitTrace.OtherEnds | agent/src/os/linux/ps_proc.c:200-221 | how a wait ends otherwise, and that every stop signal met was passed on |
| WaitTrace.WaitExactly | agent/src/os/linux/ps_proc.c:177-222 | on the raw trace: success, a dead thread, failure and no result, each if and only if the first terminal answer is of its kind |
| WaitTrace.AttachExactly | agent/src/os/linux/ps_proc.c:274-296 | an attach succeeds if and only if the request was accepted and the first terminal answer is a SIGSTOP stop; the thread is dead if and only if the error says so and it is gone, or its first terminal answer is an exit |
| ThreadList.ProcHandle.AddThreadInfo | agent/src/os/linux/libproc_impl.c:246-263 | a new node in front, and the count; without memory it fails and changes nothing |
| ThreadList.ProcHandle.DeleteThreadInfo | agent/src/os/linux/libproc_impl.c:264-283 | exactly that node leaves the linked list, the others stay linked in order, the count follows; an absent node changes nothing |
| ThreadList.ProcHandle.DetachAll | agent/src/os/linux/ps_proc.c:413-430 | one detach request per listed thread, in order, skipping pid 0 |
| ThreadList.NonZeroConcat | agent/src/os/linux/ps_proc.c:413-430 | the requests for a list are those for its parts, in order |
| ThreadList.NonZeroLast | agent/src/os/linux/ps_proc.c:413-430 | a thread is one request, or none if its id is 0 |
| ThreadList.AttachThreads | agent/src/os/linux/ps_proc.c:478-498 | deleting while walking: the list ends as the discovered threads less the dead ones; a failure requests detach for all still listed |
| ThreadList.ReadThreadInfo | agent/src/os/linux/libproc_impl.c:291-340 | the discovered threads in reverse order, up to the first that could not be allocated |
| ThreadList.ReversedAt | agent/src/os/linux/libproc_impl.c:258-261 | the last thread discovered is listed first |
| ThreadList.AddedAllExactly | agent/src/os/linux/libproc_impl.c:311-312 | all discovered threads are listed if and only if each could be allocated |
| ThreadList.Pgrab | agent/src/os/linux/ps_proc.c:444-499 | the handle returned, or the detach requests made, for every pattern of answers |
| ThreadList.KeptExactly | agent/src/os/linux/ps_proc.c:483-490 | a thread stays listed if and only if it is the main one or some attach to it did not find it dead |
| ThreadList.KeptLength | agent/src/os/linux/ps_proc.c:483-490 | the list is shorter by exactly the number of dead answers for threads other than the main one |
| ThreadList.GrabSucceedsExactly | agent/src/os/linux/ps_proc.c:483-498 | attaching succeeds if and only if no attach to a thread other than the main one fails |
| ThreadList.AllAttached | agent/src/os/linux/ps_proc.c:483-498 | after success every listed thread other than the main one was attached to |
| ThreadList.KeptIsSubsequence | agent/src/os/linux/ps_proc.c:478-498 | the order of discovery is kept |
| ThreadList.MainDetachedExactly | agent/src/os/linux/ps_proc.c:491-494 | on failure the main process is asked to detach if and only if discovery listed it |
| ThreadList.RestDetached | agent/src/os/linux/ps_proc.c:424-430 | every thread at or behind the failing one is asked to detach |

## Left out

- Biased locking, monitor inflation, TLAB and eden allocation, runtime stubs: their code is elsewhere.
- Weak memory: the locking model is sequentially consistent, so the barriers in the compare-and-swap are not modelled.
- The slow paths of locking, which would leave the stack-locking protocol.
- Logical immediates and floating-point immediates, which need tables of their own.
- MovImmediate.MovImmediate64: modelled for the constants that are not logical immediates.
- Compare.CompOp: a constant that does not fit is built by the moves of `MovImmediate64`; for a logical immediate the
  source uses one ORR instead, with the same value.
- BranchDecode.PatchIsEmit: the single-instruction kinds; `AdrpPairs` has the pairs and the three-instruction constants.
- `adrp` to an unbound label, and the polling-page loads of the patching code.
- Labels.Assembler.Bind: one code section and no reference from the constant section; a label is bound once.
- Addressing.LoadStore: the modes with a base register; `Branches.EmitLiteralAccess` has the literal mode, without
  its relocation record.
- Lea.RegisterAgreesExact: shifts up to 4, the most the extended-register add can encode.
- ObjectInit.ArraySizeLeast: headers and alignments whose sum fits the 32-bit `int` the source computes it in.
- AddSub.AddSubImmediate: the debug assertion that the stack pointer moves in multiples of 16 is not modelled.
- CoreMaps.CoreData.AddMapInfo: the linked list is a sequence; nodes and their sharing with the array are not modelled.
- CoreMaps.CoreData.AddClassShareMapInfo: the linked list is a sequence.
- WaitTrace.OtherEnds: one direction, kept for the signals passed on; `WaitTrace.WaitExactly` has both.
- ThreadList.Pgrab: freeing of memory and the library list are not modelled; traces that leave a wait undecided are not
  considered there, and `WaitTrace.WaitExactly` covers them.
- Comparing floating-point operands, and branches on unordered results.
- Class-pointer checks and the choice of copy stub in arraycopy.
- Racing updates of profile data: the histories are sequential.
- `read_lib_segments`, which looks up addresses between adding mappings and sorting them.
- Address arithmetic that wraps around the end of the address space.
- Object headers, barriers and allocation around the zeroing code.
- The BSD and macOS agents, ELF and symbol-table parsing, JNI bindings and the disassembler.
