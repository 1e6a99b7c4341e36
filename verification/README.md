# DRDDR, modelled and verified

DRDDR is a data race detector for a running kernel. It plants INT3 bytes in kernel code, decodes
the instruction that trapped to find its memory operand, arms a hardware debug register on that
operand, waits, disarms it, and plants a breakpoint somewhere else. This project models that
machinery and proves what it keeps, over every interleaving and every input.

| files | what they model |
|---|---|
| `Words`, `Counting` | machine words, counting the elements of a sequence that satisfy a predicate |
| `BpTable`, `Breakpoints` | the breakpoint table and the live text as a value, and the code of `drddr-bp.c` as a class over arrays, proved to compute the same updates |
| `Protocol`, `ProtocolText`, `ProtocolRuns` | kernel threads, handler activations and the controller as a step system: each locked region is one step, each unlocked read is one step; counting and text over all runs |
| `Population` | breakpoints planted and held while the detector is active |
| `CleanUp` | how bp_clean can end, and exactly when it can leave a breakpoint behind |
| `Transparency`, `Restarts` | the instrumented kernel follows the original one; exactly when a step, a run and a restart do |
| `Scenarios` | runs from module load that reach the states in which the protocol falls short |
| `Detector` | `start`, `stop`, the INT3 handler and the end of its deferred work, as sequential code |
| `Undisturbed` | the steps of one thread or of the controller with nothing in between do what that sequential code is proved to do |
| `OpcodeTables`, `Addressing`, `Decoder`, `DecoderFacts`, `DecodeCache` | the tables, addressing and result of the instruction decoder as functions of the bytes, their properties, and the decoder's code as an object mutated while the bytes are read |
| `OpcodeColumns`, `Encodings` | what is reported and consumed for each opcode number; operands written as bytes and decoded again |
| `DebugRegisters`, `WatchTable`, `WatchRuns`, `Watchpoints` | what DR0 to DR3 and DR7 mean, the watch table with its identifiers, the registers over whole runs, and the code of `drddr-wp.c` |
| `Race` | from a decoded instruction to the accesses its armed watch reports |
| `Activation` | one whole activation of the INT3 handler, table, text and watches together |
| `HandlerPatch` | finding, redirecting and restoring the call in an exception handler |
| `Hex`, `Analyzer`, `AnalyzerLines`, `Loader` | the line filter that selects addresses, what it does with lines built from their parts, and the program that reads them back |

Architectural facts are those of the Intel SDM: sections 2.1.1, 2.1.5 and 2.2.1 of Vol. 2A for
prefixes and addressing, the BT entry of chapter 3 of Vol. 2A for bit strings, sections 17.2.1 to
17.2.5 of Vol. 3B for the debug registers.

## Assumptions

* A list handed to `bp_init` has mapped, distinct addresses that hold no INT3 of the kernel's own
  (`BpTable.GoodList`). Nothing in `bp_init` enforces it.
* For the text over several sessions, each `bp_init` starts with no entry in use
  (`ProtocolRuns.CleanStarts`). Nothing enforces that: see the first two departures below. The first
  session needs no such assumption.
* An instruction's effect depends on its own bytes, and no breakpoint is planted strictly inside an
  instruction that is executed (`Transparency.SelfDelimiting`, `Transparency.Aligned`).
* A random stream that is drawn from reaches every entry again and again (`Detector.Fair`).
* Bytes that end before an instruction does stand for reading past the mapped text.

## Where the code departs from its intent

Each departure is kept in the model; a lemma gives the inputs, and the exact condition where there
is one.

* A handler that read `bp_stopping` before `bp_clean`'s critical section and locks after it leaves an
  INT3 behind when `bp_clean` has returned (`LateAddSurvives`, whatever else is inside). While
  `bp_clean` waits this can happen exactly if an entry is in use again, or the list is not empty and
  some activation is past its read (`CanLeaveIff`); `CleanupBound` says these are the only leftovers.
  `LateAddReached` gets there from module load.
* `bp_init` over an entry in use forgets the saved byte, or, when the new list is shorter, leaves the
  entry beyond it: the whole call keeps the text invariant exactly when no entry is in use before it
  (`RestartKeepsTextIff`). The INT3 is then out of reach of every removal (`RestartStrands`), and a
  thread that comes to it while the address is listed loops for ever (`LostByteLivelocks`).
  `LivelockReached` gets there from module load.
* A trap still pending when another list is installed may be given to the kernel's old handler, with
  ip one past an instruction that never ran. `bp_init` drops no pending trap, in any interleaving,
  exactly if the address of each stays listed at every moment of its loop
  (`RestartDropsNothingIff`), as with the same list (`SameListKeepsTraps`); a run follows the original
  kernel exactly if every bp_check it makes is harmless (`RunFollowsIff`). The first session, its
  bp_init included, drops none (`SessionIsTransparent`). `DroppedTrapReached` gets to a dropped trap
  from module load.
* One- and four-byte displacements are zero-extended; ip-relative operands use the address after the
  displacement instead of that of the next instruction, and are not truncated under 0x67; with REX.B
  set they skip the displacement altogether, and are right only if it points at itself
  (`MemoryFormAddress`, `IpFormAddress`, `IpFormWithRexB`, `EffectiveAddress`). The comments at
  drddr/disassem-test.c:136-144 expect sign extension.
* Bit offsets are taken as 32 unsigned bits, and the sum is not cut under 0x67 (`BitStringAddress`).
* POP is reported with length 0, and a push of an immediate with the immediate's length instead of 8
  (`StackShape`).
* Src2Imm16 and Src2Mem16 are negative ints, so in the 64-bit table they also set ReadOnly, Push and
  Pop (`OpcodeTables`, `WideSource2`).
* String instructions are reported at address 0, which `set_dr` never writes: the slot watches what
  its register held before (`StringWatchIsStale`, `AllWrites`).
* The number in an identifier is read after the unlock: it is the addition's own exactly when no
  other one succeeded in between (`ReturnedIdIff`). Removing with it does what the owner means exactly
  under the condition of `ReturnedOwnerIff`: an addition that overtakes the read leaves the owner's
  watch armed (`OvertakenStays`), and two owners can get the same identifier (`StolenId`). It has 30
  bits, so it is positive only for half of the counter's values (`NumberRange`); a handler disarms its
  own watch exactly when its number survives the field or wraps to 0 (`AddThenRemove`, `RealWork`).
* `3 << 30` in a signed int sets the high half of ctrl exactly when slot 3 has a four- or eight-byte
  length (`HighHalf`). These bits of DR7 are reserved and a write that sets them faults, so DR7 keeps
  its old value: over any run a processor agrees with the table exactly when slot 3 is free or
  watches at most two bytes, given non-zero addresses (`RegistersAgreeIff`). Meanwhile a removed slot
  stays armed (`FrozenRemove`), and a slot given a new address keeps its old length and mode
  (`FrozenAdd`), a watch of neither table; `FrozenReached` gets there from load. At every single write
  each slot denotes a watch of the old or the new table exactly if no update but the freeing of slot 3
  happens in that state (`EveryWriteOverRunsIff`).
* The value `swap_handler` returns is the old target exactly when that lies in the top 4 GiB
  (`ReturnedTarget`), and the new one is reached exactly within the signed 32-bit range
  (`SwapRedirects`); restoring works in every case (`SwapBack`).
* The loader completes a line shorter than 16 characters from what older lines left in its buffer
  (`Loader.Shell.Load`).

## Model

| member | source | states |
|---|---|---|
| `BpTable.InitTable` | drddr/drddr-bp.c:64-79 | after bp_init the list in force is the argument, its entries are unused, later ones and the text are as before, nobody is counted and stopping is off |
| `BpTable.PlantKeepsText` | drddr/drddr-bp.c:183-185 | planting at a free entry of a good list keeps the text invariant: INT3 over the saved original byte at entries in use, the original byte everywhere else |
| `BpTable.RestoreKeepsText` | drddr/drddr-bp.c:105-111 | removing a breakpoint keeps the text invariant |
| `BpTable.CleanKeepsText` | drddr/drddr-bp.c:215-220 | the critical section of bp_clean keeps the text invariant, whatever entries are in use |
| `BpTable.NothingPlanted` | drddr/drddr-bp.c:101-113 | under the text invariant, no entry in use means the kernel text equals the original byte for byte |
| `BpTable.TextAt` | drddr/drddr-bp.c:183-185 | under the text invariant, an address holds INT3 exactly while an entry for it is in use, its original byte otherwise |
| `Breakpoints.BreakpointList.CountUsage` | drddr/drddr-bp.c:51-59 | the loop counts the entries in use |
| `Breakpoints.BreakpointList.Init` | drddr/drddr-bp.c:64-79 | the in-place loop and the two resets have exactly the effect of the protocol's bp_init, entries past the list untouched |
| `Breakpoints.BreakpointList.Check` | drddr/drddr-bp.c:84-99 | true exactly for the listed addresses, in use or not |
| `Breakpoints.BreakpointList.Remove` | drddr/drddr-bp.c:101-125 | the first entry in use for the address gets its byte back and is freed; false and no change if there is none |
| `Breakpoints.BreakpointList.Add` | drddr/drddr-bp.c:127-189 | with nothing in between the read and the lock: succeeds exactly when not stopping and a free entry is chosen or available; then exactly one free entry is planted, otherwise nothing changes |
| `Breakpoints.BreakpointList.AddLocked` | drddr/drddr-bp.c:134-188 | the critical section, whatever bp_stopping says by then: exactly one free entry is planted, or nothing changes because none is free or chosen |
| `Breakpoints.BreakpointList.DrawFree` | drddr/drddr-bp.c:146-149 | the search ends on any stream that meets a free entry, at the first draw that does |
| `Breakpoints.BreakpointList.PlantAt` | drddr/drddr-bp.c:183-185 | the live byte is saved before INT3 goes over it, all else unchanged |
| `Breakpoints.BreakpointList.IncTrapped` | drddr/drddr-bp.c:191-202 | counts and says so exactly when not stopping |
| `Breakpoints.BreakpointList.DecTrapped` | drddr/drddr-bp.c:204-209 | counts down, text and table unchanged |
| `Breakpoints.BreakpointList.CleanLocked` | drddr/drddr-bp.c:215-220 | the loop has the effect of restoring every entry in use and stopping, although each removal searches by address from the start |
| `Protocol.ThreadStepCount` | drddr/drddr-bp.c:191-209 | any step of a thread changes bp_trap_count exactly as it changes the number of activations inside the module |
| `Protocol.StepQuiet` | drddr/drddr-bp.c:64-227 | every step of a thread or the controller keeps: bp_trap_count is the number of activations inside, zero before start, with stopping off while seeding or active |
| `ProtocolRuns.Quiescence` | drddr/drddr-bp.c:191-227 | in every state reachable from module load, over any interleaving and any number of restarts, bp_trap_count is the number of activations between inc and dec |
| `ProtocolRuns.QuietUntilRestart` | drddr/drddr-bp.c:211-227 | once bp_clean has returned nobody is inside, and nobody gets in until bp_init clears bp_stopping, over any run |
| `ProtocolText.StepText` | drddr/drddr-bp.c:64-227 | every single step keeps the text invariant and the good list, given that bp_init starts with nothing in use |
| `ProtocolRuns.SafeRun` | drddr/drddr-bp.c:64-227 | counting, text and ownership invariants hold after every run |
| `ProtocolRuns.TextOverRuns` | drddr/drddr-bp.c:101-189 | in every reachable state each address holds INT3 exactly while an entry for it is in use, its original byte otherwise |
| `ProtocolText.StepLate` | drddr/drddr-bp.c:127-134 | every step keeps: distinct entries in use belong to distinct bp_add calls, and while stopping each such call read bp_stopping before the last critical section and locked after it |
| `ProtocolRuns.CleanupBound` | drddr/drddr-bp.c:127-227 | when bp_clean has returned, each entry still in use maps injectively to a bp_add call that read before the critical section and locked after it; the text is original exactly when there is none |
| `ProtocolRuns.TextIffUnused` | drddr/drddr-bp.c:211-220 | with a good list the text equals the original exactly when no entry is in use |
| `ProtocolRuns.InitRun` | drddr/drddr-bp.c:64-79 | the steps of bp_init in order end where the sequential code ends |
| `CleanUp.Drain` | drddr/drddr-bp.c:211-227 | from every safe waiting state, whatever activations are inside, bp_clean can return with all planted breakpoints still planted |
| `CleanUp.LateAddSurvives` | drddr/drddr-bp.c:131-134 | from every safe waiting state with an activation past its unlocked read and a free entry, bp_clean can return with an INT3 at that entry |
| `CleanUp.CanLeaveIff` | drddr/drddr-bp.c:127-227 | while bp_clean waits, it can return over a changed text exactly when an entry is in use, or the list is not empty and some activation is past its read |
| `Scenarios.LateAddReached` | drddr/drddr-bp.c:131-134 | for every machine with a thread at a listed address, a run from module load in which bp_clean waits for an activation past its read |
| `ProtocolRuns.RestartKeepsTextIff` | drddr/drddr-bp.c:64-79 | bp_init as a whole, from any good list to any other, keeps the text invariant exactly when no entry is in use before it |
| `ProtocolRuns.RestartStrands` | drddr/drddr-bp.c:64-79 | the INT3 of an entry in use before bp_init is reached by no removal after it, nor by the next bp_clean |
| `ProtocolRuns.LostByteLivelocks` | drddr/drddr-main.c:224-265 | at a listed INT3 that no entry owns, trap, check and remove bring the whole system back to the same state |
| `Scenarios.LivelockReached` | drddr/drddr-main.c:273-306 | for every machine with a thread at a listed address, a run from module load through stop and a second start with the same list into that loop |
| `Population.StepUsage` | drddr/drddr-bp.c:101-189 | which thread steps change the number of entries in use, and by how much |
| `Population.StepPopulation` | drddr/drddr-main.c:145-184 | while active, entries in use plus activations holding one change only when a re-add fails, and it fails only if they exceed the number of entries |
| `Population.PopulationConserved` | drddr/drddr-main.c:145-184 | from the end of start until stop that sum never grows; if it starts within the number of entries it stays constant and no handler's bp_add(-1) fails, over all interleavings |
| `Population.FailureReached` | drddr/drddr-bp.c:138-144 | from an active state with more breakpoints planted or held than entries, a run in which a handler's bp_add(-1) fails |
| `Population.NoAddFailsIff` | drddr/drddr-main.c:145-184 | no handler's bp_add(-1) fails in any run until stop begins, exactly when the breakpoints planted and held do not exceed the list |
| `Transparency.LiveInstruction` | drddr/drddr-bp.c:183-185 | the live bytes of an instruction with no breakpoint in it are the original ones |
| `Transparency.VisibleStep` | drddr/drddr-main.c:219-269 | executing an instruction, or handing a foreign INT3 to the old handler, is one step of the same thread over the original text |
| `Transparency.HiddenStep` | drddr/drddr-main.c:219-269 | every other step, of a handler or of the controller, leaves each thread where it will resume, registers and data included |
| `Transparency.RunIsTransparent` | drddr/drddr-main.c:219-306 | every run, restarts included, in which no trap is dropped is a run of the original kernel: nothing skipped, nothing executed twice |
| `Transparency.CheckFollowsIff` | drddr/drddr-main.c:224-268 | one bp_check leaves its thread where the original kernel would have it, exactly when the list or the kernel owns the INT3, or the old handler does what the instruction does, or nothing |
| `Transparency.RunFollowsIff` | drddr/drddr-main.c:219-306 | a run follows the original text step by step exactly when each of its bp_checks is such |
| `Restarts.StepLasts` | drddr/drddr-bp.c:64-79 | every step, those of bp_init included, keeps: each pending trap is on an INT3 of the kernel's own or on an address listed from now on |
| `Restarts.StartsDropNothing` | drddr/drddr-main.c:219-306 | if each bp_init finds nothing in use and keeps the pending traps listed, no interleaving drops a trap |
| `Restarts.TransparentFromLoad` | drddr/drddr-main.c:219-306 | so every such run from module load, over any number of sessions, is a run of the original kernel |
| `Restarts.SameListKeepsTraps` | drddr/drddr-bp.c:64-79 | a restart with the list in force keeps every pending trap |
| `Restarts.SessionDropsNothing` | drddr/drddr-main.c:219-306 | from module load through the first bp_init and the whole session after it, no interleaving drops a trap |
| `Restarts.SessionIsTransparent` | drddr/drddr-main.c:219-306 | from module load, with one bp_init at any point, the instrumented kernel stutter-refines the original one |
| `Restarts.DroppingRun` | drddr/drddr-main.c:219-281 | a pending trap whose address is off the list at some moment of bp_init is dropped in some run |
| `Restarts.RestartDropsNothingIff` | drddr/drddr-bp.c:64-79 | bp_init drops no pending trap in any run exactly when its list keeps each one's address listed at every moment of the loop |
| `Scenarios.DroppedTrapReached` | drddr/drddr-main.c:219-281 | for every machine with a thread at a listed address, a run from module load through stop and a second start that drops its trap |
| `Detector.StrideIndices` | drddr/drddr-main.c:288-294 | the strided loop from entry i puts in use exactly the multiples of the stride from i on, and what was in use before |
| `Detector.StrideSeeds` | drddr/drddr-main.c:288-294 | from a fresh table exactly the indices divisible by the stride end up in use, the text invariant kept |
| `Detector.PlantsSeed` | drddr/drddr-main.c:295-301 | n successful bp_add(-1) calls leave exactly n entries in use, whichever entries were drawn |
| `Detector.FreeEntryDrawn` | drddr/drddr-bp.c:138-149 | a table that is not full has a free entry, and a fair stream draws it |
| `Detector.SeedingMeans` | drddr/drddr-main.c:283-301 | each seeding mode leaves in use: entry 0, the multiples of the stride, or min(max(param,0),n) entries |
| `Detector.Controller.SeedStride` | drddr/drddr-main.c:288-294 | the loop computes the strided seeding |
| `Detector.Controller.SeedRandom` | drddr/drddr-main.c:295-301 | the loop makes min(max(param,0),n) successful plantings and no other change |
| `Detector.Controller.Start` | drddr/drddr-main.c:273-306 | stops if running, disarms all watches, then starts a session whose entries in use are those the parameter asks for; the parameter is consumed |
| `Detector.Controller.Stop` | drddr/drddr-main.c:308-318 | if running, restores every entry in use and disarms all watches on every processor; nothing otherwise |
| `Detector.Controller.StartThenStop` | drddr/drddr-main.c:273-318 | start then stop, with no trap between, gives back the original text byte for byte and leaves no watch armed |
| `Detector.Int3` | drddr/drddr-main.c:219-269 | the old handler exactly for unlisted addresses, otherwise ip moves back by one; deferred work exactly when a breakpoint was removed and not stopping, and only then is the activation counted |
| `Detector.EndRealWork` | drddr/drddr-main.c:181-183 | one free entry planted unless stopping or full, and one activation fewer |
| `Detector.SeedingModes` | drddr/drddr-main.c:283-301 | the three modes by number: entry 0 alone, the multiples of the stride down to -65536, or as many entries as asked for and there are |
| `Undisturbed.SeedRun` | drddr/drddr-bp.c:127-189 | bp_add(i) of start as steps: exactly entry i is planted if listed and free, by a call of this epoch, and otherwise nothing changes |
| `Undisturbed.StartRun` | drddr/drddr-main.c:273-306 | for every good list and i_param a run from bp_init to the end of start whose table is what the sequential start is proved to make |
| `Undisturbed.StopRun` | drddr/drddr-main.c:308-318 | stop as steps with nobody inside: every entry in use restored, one epoch on |
| `Undisturbed.HandlerRun` | drddr/drddr-main.c:219-269 | int3_drddr as steps, all exits, the refused bp_inc_trapped included: the table effect of the sequential handler, the thread back on its instruction, counted, or through the old handler |
| `Undisturbed.WorkRun` | drddr/drddr-main.c:145-184 | int3_real_work as steps, for every free choice: exactly that entry planted unless stopping or full, one activation fewer, the thread back on its instruction |
| `Undisturbed.ThreadMoves` | drddr/drddr-main.c:145-269 | whatever a thread is at, its next step can be taken at once, with any free entry as the random choice |
| `Undisturbed.ControllerMoves` | drddr/drddr-main.c:273-318 | the same for start and stop, bp_clean's return with nobody inside |
| `OpcodeTables.GroupsHaveModRM` | drddr/disassem.c:315-389 | every non-zero group entry has a ModRM byte, so the byte peeked at is always read again |
| `OpcodeTables.OneByteConsistent` | drddr/disassem.c:118-242 | facts the decoder relies on, for all 256 entries of the one-byte table |
| `OpcodeTables.TwoByteConsistent` | drddr/disassem.c:244-313 | the same for the two-byte table, where moreover no ModRM entry has a full-size immediate |
| `OpcodeColumns.OneByteColumns` | drddr/disassem.c:118-242 | for all ungrouped one-byte opcodes, against literal ranges of opcode numbers: unknown, nothing, load, store or push, the operand length, immediate bytes, ModRM, absolute and string operands |
| `OpcodeColumns.TwoByteColumns` | drddr/disassem.c:244-313 | the same for the two-byte map, bit strings included |
| `OpcodeColumns.OneByteGroupColumns` | drddr/disassem.c:315-380 | the same for 80 to 83, 8F, F6, F7, FE and FF, by bits 5 to 3 of ModRM |
| `OpcodeColumns.TwoByteGroupColumns` | drddr/disassem.c:315-389 | the same for 0F 01, 0F BA and 0F C7, both tables of the dual groups |
| `Addressing.MemoryFormAddress` | drddr/disassem.c:698-841 | for every register-based form: the architectural bytes are consumed, and the address exceeds the architectural one by 2^8 or 2^32 modulo the address size exactly when the displacement's sign bit is set |
| `Addressing.IpFormAddress` | drddr/disassem.c:788-844 | the ip-relative address is right exactly when no immediate follows and the sign bit is clear, and under 0x67 when the sum stays below 2^32 |
| `Addressing.IpFormWithRexB` | drddr/disassem.c:788-800 | with REX.B the ip-relative form consumes four bytes too few; its address is architectural exactly when the displacement is 2^32 - 4 - imm, and under 0x67 the address below 2^32 |
| `Addressing.ModRMExtent` | drddr/disassem.c:698-810 | ModRM decoding depends only on the bytes it consumes |
| `Decoder.AddressSize` | drddr/disassem.c:615-618 | the address size is 4 or 8 for every prefix sequence, so the 16-bit ModRM branch is never taken |
| `Decoder.PrefixBytes` | drddr/disassem.c:611-646 | the prefix bytes by number |
| `Decoder.DeclaredSizes` | drddr/disassem.c:611-656 | the operand size is 8 exactly for 48 to 4F in last place, else 2 exactly if 66 occurs; the address size is 4 exactly if 67 occurs |
| `Decoder.OpcodeFacts` | drddr/disassem.c:660-681 | the entry found is consistent and ungrouped, and one or two opcode bytes are consumed whatever was peeked at |
| `DecoderFacts.SelfDelimiting` | drddr/disassem.c:548-972 | a recognised instruction's result is unchanged by any bytes after those it consumed, and it consumes 1 to 11 bytes after the prefixes |
| `DecoderFacts.LengthOfBytes` | drddr/disassem.c:548-972 | whether and how far the decoder gets is decided by the bytes, not by the registers or ip |
| `DecoderFacts.PrefixFree` | drddr/disassem.c:548-972 | no consumed byte string is a proper prefix of another, each with its own registers and ip |
| `DecoderFacts.ReportShape` | drddr/disassem.c:850-1076 | length in {0,1,2,4,8}; a write exactly for a push or a destination without ReadOnly; register forms report only pushes; LEA nothing |
| `OpcodeColumns.ReportByOpcode` | drddr/disassem.c:605-1076 | for all bytes and registers: an instruction is recognised, and reports nothing, a load, a store or a push of that length, exactly as its opcode number and ModRM byte say |
| `OpcodeColumns.ConsumedByOpcode` | drddr/disassem.c:605-972 | the bytes consumed are the prefixes, the opcode, the address bytes that ModRM and SIB call for, and the immediate bytes of the opcode number |
| `DecoderFacts.OperandLength` | drddr/disassem.c:850-1055 | a reported operand that is no stack slot has the length its entry fixes, 1 for byte operations, 8 for indirect calls, jumps and 8F, else the operand size the prefixes declare |
| `DecoderFacts.StackShape` | drddr/disassem.c:1057-1073 | pushes report the slot below the stack pointer with the source's size, pops a length of 0 |
| `DecoderFacts.BreakpointReportsNothing` | drddr/disassem.c:1039-1076 | a breakpoint planted again before the handler decodes makes the decoder report nothing |
| `DecoderFacts.EffectiveAddress` | drddr/disassem.c:605-1055 | from the bytes to the report, indirect calls and jumps included: the reported address is the architectural one exactly when the displacement's sign bit is clear, for ip-relative operands exactly when moreover the displacement ends the instruction, and with REX.B exactly when it points at itself |
| `Encodings.LittleEndian` | drddr/disassem.c:548-568 | fetches of one, two, four and eight bytes are the sums of the bytes times powers of 256, lowest first |
| `Encodings.SibDecodes` | drddr/disassem.c:698-841 | every base, index, scale and displacement, written into REX, ModRM, SIB and displacement bytes with literal arithmetic, decodes to base + index * 2^scale + displacement cut to the address size, and to its register field |
| `Encodings.BaseDecodes` | drddr/disassem.c:698-841 | the same without a SIB byte |
| `Encodings.IpDecodes` | drddr/disassem.c:788-844 | the ip-relative form written as bytes decodes to the address after it plus the displacement |
| `Encodings.SibReported` | drddr/disassem.c:605-1055 | for every prefix sequence and opcode that reports its operand, the reported address of such an encoding |
| `Encodings.BaseReported` | drddr/disassem.c:605-1055 | the same without a SIB byte |
| `Encodings.AbsoluteReported` | drddr/disassem.c:811-824 | A0 to A3 report the value of the four or eight bytes after the opcode |
| `Encodings.MovReadBack` | drddr/disassem.c:605-1076 | MOV 88 to 8B with any operand, register and size, with and without 67, and anything after it: length, address, size and direction |
| `DecoderFacts.BitStringAddress` | drddr/disassem.c:605-1009 | from the bytes to the report: a bit instruction is reported at the architectural element exactly when the address lies within the address size, the displacement's sign bit is clear and the signed offset is in 0 to 2^32 - 1, or one of the listed pairs of errors cancels; ip-relative forms and REX.B included |
| `DecoderFacts.GapsVanishIff` | drddr/disassem.c:785-1009 | when a zero-extended displacement and a 32-bit unsigned offset are off by a multiple of the address space together |
| `DecodeCache.Cache.FetchBytes` | drddr/disassem.c:548-568 | the little-endian value of the next bytes, eip moved past them |
| `DecodeCache.Cache.AbsorbPrefix` | drddr/disassem.c:611-652 | one byte of the loop keeps sizes and overrides equal to what the list of prefix bytes so far declares |
| `DecodeCache.Cache.ReadPrefixes` | drddr/disassem.c:605-656 | for every prefix sequence: size 2 iff 0x66 occurs and REX.W does not win, address size 4 iff 0x67 occurs, the last segment and repeat prefix win, REX counts iff last |
| `DecodeCache.Extend` | drddr/disassem.c:611-652 | what one more prefix byte changes in those declarations |
| `DecodeCache.Cache.ReadOpcodeBytes` | drddr/disassem.c:660-681 | opcode bytes, group peek and step back compute the specified opcode |
| `DecodeCache.Cache.AddSib` | drddr/disassem.c:765-778 | the additions modulo 2^64 yield base, scaled index and replacing displacement, index 4 excepted |
| `DecodeCache.Cache.ReadModRM` | drddr/disassem.c:698-810 | the mutations of the ModRM branches compute the specified fields and address |
| `DecodeCache.Cache.ReadOperandAddress` | drddr/disassem.c:698-844 | truncation and ip addition, in the code's order, compute the specified address |
| `DecodeCache.Cache.ReadSource` | drddr/disassem.c:850-937 | kind, size and address of the source, and the immediate bytes consumed |
| `DecodeCache.Cache.ReadDestination` | drddr/disassem.c:975-1036 | kind, size and address of the destination, bit strings included |
| `DecodeCache.Cache.Report` | drddr/disassem.c:1038-1076 | source before second source before destination, the stack slot instead, ReadOnly last |
| `DecodeCache.Cache.GetMemoryAccess` | drddr/disassem.c:571-1083 | for all bytes and registers the object's run leaves in slot 0 what the specification decodes, and nothing in slots 1 to 15 |
| `DebugRegisters.ControlDecodes` | drddr/drddr-wp.c:89-121 | the ctrl word decodes back to usage, mode and length of all four slots |
| `DebugRegisters.ControlBits` | drddr/drddr-wp.c:73-121 | below bit 16 ctrl has both exact-match bits, the global enables of the slots in use, and nothing else: no local enable, no general detection |
| `DebugRegisters.ControlNibbles` | drddr/drddr-wp.c:30-121 | the four bits of each slot above, by its length and mode, and 0 for a free slot |
| `DebugRegisters.HighHalf` | drddr/drddr-wp.c:115-121 | high bits of ctrl are set exactly when slot 3 has a four- or eight-byte length |
| `DebugRegisters.BeforeControl` | drddr/drddr-wp.c:40-67 | from any registers, until DR7 is written, or when that write faults: an enabled slot keeps length and mode, and its address unless the new table writes one there |
| `DebugRegisters.EveryWrite` | drddr/drddr-wp.c:40-67 | a slot that denotes its watch of the old or the new table does so after any number of the register writes, whatever the other slots hold |
| `DebugRegisters.EveryProcessorIff` | drddr/drddr-wp.c:123-125 | for any registers of all processors, each at its own point in the writes: every slot denotes its watch of one table or the other throughout, exactly when it does before the first write |
| `DebugRegisters.AllWrites` | drddr/drddr-wp.c:40-67 | when all writes are done a slot is right exactly when its address is non-zero or its register already held 0; if the write of DR7 faults it keeps its old watch, or its old length and mode at a new address |
| `DebugRegisters.AllAgree` | drddr/drddr-wp.c:40-126 | with non-zero addresses and slot 3 free or at most two bytes wide, the registers mean exactly the table |
| `DebugRegisters.UpdateTakesEffectIff` | drddr/drddr-wp.c:40-126 | from registers that agree, an update of the table takes effect exactly when slot 3 is free or at most two bytes wide, or no watch changes |
| `WatchRuns.RegistersAgreeIff` | drddr/drddr-wp.c:128-195 | over any run of adds, removes and cleans, at each lock release a processor means exactly the table if and only if slot 3 is free or at most two bytes wide and watches of address 0 find 0 in their registers |
| `WatchRuns.RegistersOverRuns` | drddr/drddr-wp.c:40-126 | over any run DR7 is that of the table if slot 3 is not wide, else it arms slots 0 to 2 and not slot 3; used non-zero addresses are in their registers |
| `WatchRuns.UpdateInTransitIff` | drddr/drddr-wp.c:40-126 | an update of any run is in transit at each of its writes exactly when it is before the first |
| `WatchRuns.EveryWriteOverRunsIff` | drddr/drddr-wp.c:40-195 | over any run with non-zero addresses, at every register write of every update each slot denotes its watch of the old or the new table, if and only if each operation that writes the registers while slot 3 watches four or eight bytes frees slot 3 |
| `WatchRuns.FrozenRemove` | drddr/drddr-wp.c:115-179 | over any run, while slot 3 watches four or eight bytes a slot that is removed was armed on the processor and stays armed |
| `WatchRuns.FrozenAdd` | drddr/drddr-wp.c:115-155 | and an addition to a free slot moves the watch still armed there to the new address, with its old length and mode |
| `WatchRuns.FrozenReached` | drddr/drddr-wp.c:115-179 | a run from load after which slot 3 is not armed and slot 0 watches eight bytes for reads and writes where the table has one byte for writes |
| `WatchTable.UpdatesKeepWatches` | drddr/drddr-wp.c:128-195 | no add, remove or clean changes the watch of a slot that stays in use |
| `WatchTable.SlotNumber` | drddr/drddr-wp.c:142-147 | over any run a slot carries the number of the last successful addition to it |
| `WatchTable.NumbersIncrease` | drddr/drddr-wp.c:147 | an addition's number is smaller than every later one's |
| `WatchTable.IdsAreUnique` | drddr/drddr-wp.c:128-166 | with the number taken under the lock, over any run of up to 2^29 - 1 additions mixed with removes and cleans, identifiers are valid, non-zero, for a free slot, and pairwise distinct |
| `WatchTable.RemoveIsOwners` | drddr/drddr-wp.c:168-179 | removing with such an identifier disarms the owner's watch, or changes nothing once the slot has been given away |
| `WatchTable.NumberRange` | drddr/drddr-wp.h:3-9 | the 30-bit number is positive or zero exactly for these values of the counter |
| `WatchTable.ReturnedIdIff` | drddr/drddr-wp.c:155-159 | the identifier really returned is the addition's own exactly when no other addition succeeded before the number was read |
| `WatchTable.ReturnedOwnerIff` | drddr/drddr-wp.c:155-179 | removing with the identifier really returned disarms the owner, or changes nothing once the slot is another's, exactly when the slot is free, or it is still the owner's and no addition overtook the read, or it is another's and the number read is not that addition's |
| `WatchTable.OvertakenStays` | drddr/drddr-wp.c:155-179 | if another addition overtakes the read and the owner still has its slot, its removal changes nothing and its watch stays armed |
| `WatchTable.StolenId` | drddr/drddr-wp.c:155-159 | an addition overtaken by the debug handler and another addition holds the other's identifier, and its removal disarms the other's watch |
| `Watchpoints.WatchList.constructor` | drddr/drddr-wp.c:181-187 | after wp_init no slot is in use and all processors agree |
| `Watchpoints.WatchList.ComputeControl` | drddr/drddr-wp.c:89-121 | the flag-by-flag code computes the specified ctrl word |
| `Watchpoints.WatchList.SetRegisters` | drddr/drddr-wp.c:40-67 | one processor gets exactly the specified writes in order, the others none |
| `Watchpoints.WatchList.AddWatch` | drddr/drddr-wp.c:128-166 | with nothing between unlock and number read: the first free slot is filled and numbered and every processor gets the writes, or the identifier is invalid and nothing changes; all agree if the new ctrl is accepted |
| `Watchpoints.WatchList.AddLocked` | drddr/drddr-wp.c:134-155 | wp_add up to its unlock, with the slot taken |
| `Watchpoints.WatchList.ReadId` | drddr/drddr-wp.c:157-159 | the identifier takes the counter as it is after the unlock, cut to 30 bits |
| `Watchpoints.WatchList.RemoveWatch` | drddr/drddr-wp.c:168-179 | disarms exactly when the number is 0 or the slot's own, and then every processor gets the writes; agreement kept if the new ctrl is accepted |
| `Watchpoints.WatchList.CleanWatches` | drddr/drddr-wp.c:189-195 | nothing in use and all processors agree |
| `Watchpoints.WatchList.Query` | drddr/drddr-wp.c:197-212 | the lowest slot DR6 reports, with number 0; invalid exactly when it reports none |
| `Watchpoints.TriggeredBit` | drddr/drddr-wp.c:203-209 | slot i is bit i of DR6 |
| `Race.AlignedReportsRaces` | drddr/drddr-wp.c:30-38 | a watch with the operand's size and mode fires on exactly the overlapping accesses of which one is a write, if and only if the operand is aligned |
| `Race.RaceSemantics` | drddr/drddr-main.c:139-162 | for every decoded instruction with an operand, the armed slot denotes exactly its size and mode, and reports exactly its races if and only if it is aligned |
| `Race.StringWatchIsStale` | drddr/disassem.c:917-1034 | from the bytes: a string instruction is reported at address 0 with its operand size, and its watch is on whatever address the register held before, or stays the old one if ctrl is rejected |
| `Race.GetDataInfo` | drddr/drddr-main.c:139-143 | the decoder's length turned into bits, non-zero exactly when the specification reports an operand |
| `Race.Arm` | drddr/drddr-main.c:145-162 | decoding and arming together, for every instruction: if a slot is free and the processors agreed, each watches exactly the decoded operand if and only if the new ctrl is accepted and an address of 0 finds 0 in the register |
| `Race.ArmedIff` | drddr/drddr-wp.c:40-126 | the same for one processor and every instruction |
| `Race.AddThenRemove` | drddr/drddr-main.c:162-174 | arming and disarming leave the watches as they were exactly when no slot was free, or the number survives the 30-bit field or wraps to 0 in it |
| `Race.RealWork` | drddr/drddr-main.c:145-174 | for every counter value, one handler leaves all watches as they were exactly when it armed none or its number can disarm it |
| `Race.DebugTrap` | drddr/drddr-main.c:320-360 | the lowest triggered slot is disarmed whoever owns it, nothing else changes |
| `Activation.RemovedOne` | drddr/drddr-main.c:224-227 | in a session, removing a breakpoint keeps the invariants, puts the original byte back and leaves one entry fewer in use |
| `Activation.WholeActivation` | drddr/drddr-main.c:145-269 | removing, counting in, planting and counting out keep the session and the number of breakpoints, whichever entry was drawn |
| `Activation.DeferredWork` | drddr/drddr-main.c:145-184 | int3_real_work: one free entry planted unless stopping or full, one activation fewer, and watches as before exactly when its number can disarm its own |
| `Activation.HandleTrap` | drddr/drddr-main.c:145-269 | an undisturbed trap on a planted breakpoint resumes at its address with the text invariant, the number of breakpoints and the trap count as before, and the watches exactly when its number can disarm its own |
| `HandlerPatch.CallSite` | drddr/drddr-main.c:94-104 | the site is the second call opcode from the handler's entry on |
| `HandlerPatch.SwapRedirects` | drddr/drddr-main.c:87-134 | the call's target agrees with the new handler modulo 2^32, and is it exactly within the signed 32-bit reach |
| `HandlerPatch.SwapTouchesOnly` | drddr/drddr-main.c:119-130 | only the four bytes after the second call opcode change, to the relative address lowest byte first |
| `HandlerPatch.ReturnedTarget` | drddr/drddr-main.c:115-133 | the value returned agrees with the old target modulo 2^32, and is it exactly when that lies in the top 4 GiB |
| `HandlerPatch.SiteKept` | drddr/drddr-main.c:94-104 | writing the operand leaves both scans where they were, call opcodes among the new bytes or not |
| `HandlerPatch.SwapBack` | drddr/drddr-main.c:87-134 | a second swap with the returned value finds the same site and restores every byte |
| `HandlerPatch.LoadThenUnload` | drddr/drddr-main.c:484-512 | swapping 3 and 1 at load and 1 and 3 at unload restores the text, overlapping sites included |
| `HandlerPatch.SwapHandler` | drddr/drddr-main.c:87-134 | the scanning and writing code computes the specified memory and result |
| `Hex.ValueOfDigits` | simple-analyzer/simple.cpp:180 | reading n printed digits gives the number back |
| `Hex.DigitsOfValue` | simple-analyzer/simple.cpp:180 | printing the value of n lower-case digits gives the digits back |
| `Hex.DigitTable` | drddr/drddr-shell.c:47-52 | the sixteen digits by name, in both cases |
| `Hex.Accumulates` | drddr/drddr-shell.c:46-52 | the accumulation never overflows within 16 digits |
| `Analyzer.Parser.IsFunction` | simple-analyzer/simple.cpp:40-62 | recognises exactly the header lines and extracts the name |
| `Analyzer.Parser.IsInstruction` | simple-analyzer/simple.cpp:64-91 | recognises exactly the lines that start with 16 digits, and extracts their value and text |
| `Analyzer.Parser.Accept` | simple-analyzer/simple.cpp:140-146 | the regular expression and both exclusion lists, early exits included |
| `Analyzer.OperandNames` | simple-analyzer/simple.cpp:163-178 | the pointer comparisons say exactly that the operand does not contain the register name |
| `Analyzer.Parser.Printed` | simple-analyzer/simple.cpp:157-184 | an instruction is printed exactly when it starts with a listed mnemonic and its operand names no stack register |
| `Analyzer.RelevantNext` | simple-analyzer/simple.cpp:138-155 | how one line changes what the nearest preceding header admits |
| `Analyzer.Parser.Parse` | simple-analyzer/simple.cpp:123-190 | for all inputs and regular expressions: the output is exactly the subsequence of selected lines in order, or in function mode the names of the selected headers as one pattern |
| `Analyzer.MnemonicOrder` | simple-analyzer/simple.cpp:157-184 | two mnemonic lists with the same members select the same lines |
| `AnalyzerLines.StripEnds` | simple-analyzer/simple.cpp:136-137 | control characters at the end of a line go, and nothing before them |
| `AnalyzerLines.HeaderOf` | simple-analyzer/simple.cpp:40-62 | from 16 digits, " <", a name without '>', ">" and anything, exactly that name |
| `AnalyzerLines.InstructionFrom` | simple-analyzer/simple.cpp:64-91 | from 16 digits, 24 columns and a text, exactly their value and that text |
| `AnalyzerLines.OperandInBrackets` | simple-analyzer/simple.cpp:163-178 | the first bracketed operand counts as off the stack exactly if neither sp nor bp occurs between the brackets |
| `AnalyzerLines.Mnemonics` | simple-analyzer/simple.cpp:107-118 | the eighteen mnemonics by name |
| `AnalyzerLines.ExcludedNames` | simple-analyzer/simple.cpp:93-105 | the excluded functions by name, the frequent ones whole and the dangerous ones anywhere |
| `AnalyzerLines.ListingPrints` | simple-analyzer/simple.cpp:134-186 | after the header of a function that passes, the output is exactly the rows with a listed mnemonic and an operand off the stack, each as its own digits, a colon and its text |
| `AnalyzerLines.ParseOne` | simple-analyzer/simple.cpp:123-191 | such a header and one such row, raw with their line ends: the output is exactly that line |
| `Loader.Shell.ParseAddress` | drddr/drddr-shell.c:43-53 | the accumulated value of the first 16 columns, without overflow |
| `Loader.Shell.Load` | drddr/drddr-shell.c:41-56 | one address per line, of its first 16 columns; short lines are completed from older ones |
| `Loader.ShortLine` | drddr/drddr-shell.c:41-53 | the columns read of a line shorter than 16: the line, a NUL, and what older lines left |
| `Loader.PrintedAddress` | simple-analyzer/simple.cpp:180 | the loader reads back every 64-bit address the analyzer prints |
| `Loader.PrintedDigits` | simple-analyzer/simple.cpp:64-83 | on a line of 16 lower-case digits the analyzer's value is the loader's, and is printed as the same digits |
| `Loader.OutputAddresses` | simple-analyzer/simple.cpp:180 | each line of the output reads back as the address of the line it was selected from |
| `Loader.AnalyzeAndLoad` | drddr/drddr-shell.c:41-56 | analyzer then loader: the loaded list is exactly the addresses of the selected lines, in order |

## Left out

- The inline assembly of int3_actual_work and its stack frame: resuming is "registers restored, ip back on the instruction".
- Kernel plumbing: debugfs files, page protection, IDT reading, kallsyms, stack traces, log output, wp_report.
- Memory reordering, nested interrupts and the internals of spinlocks; a locked region is one step, and an instruction is fetched and executed in one step.
- Detector.Controller.Start: sequential, so no trap is taken between its bp_add calls; the interleavings are those of `Protocol`.
- Detector.Controller.Stop: a sequential call cannot wait for other threads, so it starts with bp_trap_count at 0; the wait is a step of `Protocol`.
- Watchpoints.WatchList.AddWatch: sequential, so nothing happens between the unlock and the reading of the counter; `AddLocked` and `ReadId` are the two parts, and `WatchTable.ReturnedIdIff` states what can happen between them.
- Breakpoints.BreakpointList.Add: as a sequential call it reads bp_stopping and locks with nothing in between; `AddLocked` is the second part, and the two are separate steps of `Protocol`.
- Random numbers and time: streams and parameters; the busy wait is nothing.
- Widths of array indices and counters other than 64-bit addresses, the 30-bit identifier and DR7; the capacity of the address table is that of its array.
- DecodeCache.Cache.ReadRegisterSource: operand values other than the bit offset, the high-byte registers, and string-instruction addresses, all of which the decoder computes and discards.
- Segment bases, which are always 0; the flags Mov, String, Lock, Priv and No64, which nothing reads; SrcOne and Src2One, which no table entry uses.
- What the kernel does when the write of DR7 faults: the write changes nothing and the code goes on.
- Analyzer.Parser.Parse: the messages on stderr and option parsing are left out; lines hold no NUL and fit the buffer; regexec is an uninterpreted predicate.
- Loader.Shell.Load: opening and writing the device files, lines longer than the buffer.
- The text of the monitors, drddr-mon.c, the shell's command loop, the race test modules, and drddr-m.c, an older copy that is not built.
