# A verified model of the RSP recompiler

The repository recompiles programs of the Nintendo 64's RSP, a MIPS-like scalar
core with branch delay slots, 4 KB of DMEM, 4 KB of IMEM and a vector unit, to
host code at run time.  This project models the parts that decide whether the
recompiled program is right, and proves them right.

- **The emitted program** (`Decoder`, `LowCode`, `LowRelation`, `LowBranch`,
  `LowTails`, `LowRegion`, `LowProgram`, `RegionEmitter`, `CacheShape`).  The main
  theorem: the blocks as they are emitted, host instructions on host registers that
  the register cache has chosen, entered with any contents of those registers, do
  what an interpreter of the words in IMEM does, over whole runs, for every IMEM
  without the two shapes below (`LowProgram.NativeSimulation`).  `RegionEmitter` is `jit_region` on the cache
  itself; no program makes it fail one of the cache's assertions.
- **The instruction set** (`Assembly`, `Transfers`).  Words put together from their
  bit fields, and what each does, said on integers, bits and big-endian bytes: for
  every choice of fields the reference interpreter does that, and nothing for any
  other word; a call of any kind comes back behind its delay slot.
- **Delay slots** (`Isa`, `BlockCompiler`, `DelaySlots`, `DelaySlotLimits`,
  `RegionBuilder`).  `Isa` is the reference: an interpreter whose state is a pc, a
  pending branch and the machine.  `BlockCompiler` is the control-flow code
  `jit_region` emits, as a tree of host operations with its own execution.
  `DelaySlots` proves that the two run in lockstep, through any number of blocks,
  stops and entries, including latent delay slots and double branches, for every
  IMEM without two shapes that are compiled wrongly; `DelaySlotLimits` proves that
  a region is right from every related state if and only if it has neither.
  `RegionBuilder` is the compiling loop itself.
- **Block ends and the code cache** (`StaticEnd`, `CodeCache`).  How far a block
  reaches, why it depends on two code blocks only, and why every block that is
  looked up is what compiling the current IMEM would give, over every interleaving
  of host writes, DMA and lookups.  A block ends at the first place where its code
  closes, and is dropped exactly when one of its two code blocks has changed.
- **The register cache** (`HostWords`, `RegisterCache`, `CacheCalls`,
  `RegisterWindow`, `ScalarCode`, `MemoryCode`, `BranchRegisters`, `BranchCode`,
  `Emitter`).  A write-back, least-recently-used, lock-counted allocator that also
  tracks sign and zero extension.  Under any sequence of its calls the entries
  overlaid on memory are the register file, the register given up is the least
  recently used one, no register that is only read is stored, and the calls of each instruction and
  of each piece of delay-slot code leave exactly what it means.  `RegisterWindow`
  and `Emitter` are the cache and the emission as they run, with the source's
  assertions as preconditions.
- **Scalar and vector memory** (`HostBytes`, `ScalarMemory`, `VectorMemory`,
  `VectorPlacement`, `VectorUnit`).  Byte-swizzled host memory behind one big-endian
  byte memory; SIMD paths equal to byte loops; where every byte goes at every element
  and address; unaligned quad access and the 8x8 transpose.
- **SP DMA** (`Dma`).  The nested row and word loops against closed-form addresses,
  the rows moved in terms of the fields of the length register, the exact condition
  for a round trip, and dirty marking.
- **Logical immediates** (`Immediates`).  The encoder and decoder of AArch64
  logical immediates are inverse to each other on exactly the encodable values, as
  `DecodeBitMasks()` in chapter J1 of the Arm Architecture Reference Manual
  (DDI 0487) has it.
- **Page allocator** (`PageAllocator`).  Results never overlap, over any sequence of
  calls in which no size or offset wraps, and one reservation serves requests back to
  back exactly as long as their pages fit.

Verify with `dafny verify dfyconfig.toml` (Dafny 4.11).

## Conventions

Words are non-negative integers; wrap-around is written out.  Bits of a 64-bit
value in `Immediates` are a sequence of booleans, least significant first.  The
host is little-endian with 64-bit registers, as the extension tracking assumes.
What the operating system, the emulator or opaque instructions do is a parameter:
the result of a page reservation or commit in `PageAllocator`, the hash of a code
region in `CodeCache`, the contents a call leaves in caller-saved registers in
`RegisterCache` (`junk`).  `DelaySlots` holds for any effect of straight
instructions (`Sem`); `Decoder` gives the scalar ones their exact effect and leaves
calls into the vector unit and coprocessor 0 as parameters (`Calls`).
`Arithmetic` and `Wrappers` hold what several modules share.

## Where the code falls short

Each point is kept as the code has it, with a lemma that shows the failure and one
that gives the exact condition.

- A jump (or BLEZ $0) followed by a branch that is taken: the second transfer is
  lost, because the register that holds its condition is cleared
  (`JumpThenBranchFails`, `SecondBranchLost`).  BLEZ $0 whose delay slot is a local
  label: a jump to that label performs the BLEZ again (`LabelledSlotFails`, a run of
  a seven-word program; `LabelInheritsTransfer`).  `RegionExact`: these are the only
  two.  Its exactness is per step and over related states, those no run reaches
  included, so a region with an unsafe slot that is never used counts as wrong.
- A block that ends before its window can still be left at its end: a jump whose
  delay slot is a label of the block is emitted as a conditional branch.
  `FallThroughExact` says exactly when, and `OwnSlotFalls` is J to its own delay slot.
- A DMA write rounds its SP address to four bytes and a DMA read to eight, so
  writing and reading back with the same registers is the identity if and only if
  the SP address is below four modulo eight (`RoundTripExact`).
- A page request within a page of the whole address space wraps: the bump pointer
  goes back and pages are handed out twice (`WrappedRequestOverlaps`).  The results
  are disjoint over every run in which neither rounding up nor the bump wraps, the
  condition that `CoversExactly` and `InsideExactly` show to be exact.
- A block lookup is right if and only if its hash does not collide with a different
  region compiled earlier for the same address (`LookupExact`).  Any collision can be
  turned into a run that hands out a stale block (`CollisionServesStale`,
  `ConstantHashFails`).
- The comment above the encoder's size check is right that no further check is
  needed; `NoShorterPeriod` and `SizeDivides` are the missing proof.

## Model

| member | source | states |
|---|---|---|
| Assembly.RegisterFields | rsp_jit.cpp:891-962 | the six fields of a word of the register form are read back, and which words are vector instructions |
| Assembly.ImmediateFields | rsp_jit.cpp:1313-1319 | the same for the immediate form |
| Assembly.EveryWord | rsp_jit.cpp:948-962 | every 32-bit word has both forms |
| Assembly.SpecialMeans | rsp_jit.cpp:955-1172 | for every choice of fields, a shift, ADD, SUB, AND, OR, XOR, NOR, SLT or SLTU word leaves in rd its result on rs, rt and the shift amount, as an integer or bit by bit, and changes nothing else; $0 is never written |
| Assembly.ImmediateMeans | rsp_jit.cpp:1396-1473 | the same for ADDI, ADDIU, SLTI, SLTIU, ANDI, ORI, XORI and LUI, with the immediate sign- or zero-extended as each has it |
| Assembly.AccessMeans | rsp_jit.cpp:1586-1665 | LB to LWU leave in rt the signed or unsigned big-endian number at rs plus the signed immediate, round the end of DMEM, and SB, SH and SW change exactly those bytes, at every alignment |
| Assembly.CallMeans | rsp_jit.cpp:891-1762 | vector instructions, coprocessor 2 moves and vector loads and stores are calls that see and may change one scalar register at most: none, rt, or rs |
| Assembly.OthersDoNothing | rsp_jit.cpp:953-1765 | every word with other fields leaves the machine as it is |
| Transfers.BranchMeans | rsp_jit.cpp:1180-1395 | from the bit fields: BLTZ, BGEZ, BLTZAL, BGEZAL, BEQ, BNE, BLEZ and BGTZ are taken exactly on their signed comparison, go to the word their signed immediate counts from the delay slot, and link $31 whether taken or not |
| Transfers.JumpMeans | rsp_jit.cpp:1273-1311 | J and JAL go to the low ten bits of the index; JAL leaves the byte address two words on in $31 |
| Transfers.JumpRegisterMeans | rsp_jit.cpp:1054-1097 | JR and JALR go to the address rs held before the link is written; JALR links rd |
| Transfers.BreakMeans | rsp_jit.cpp:1099-1104 | BREAK stops with its status behind itself or at the pending target and changes nothing |
| Transfers.Cop0Means | rsp_jit.cpp:1475-1523 | MFC0 and MTC0 stop the program exactly when their status is not "continue" |
| Transfers.OthersGoOn | rsp_jit.cpp:953-1765 | after every other word control goes on, to the pending target if there is one |
| Transfers.CallReturns | rsp_jit.cpp:1054-1292 | JAL, JALR, BLTZAL or BGEZAL that is made, its delay slot, JR through the link register and its delay slot: control is two words behind the call, with nothing pending, whatever the slots do to other registers |
| DelaySlots.Simulation | rsp_jit.cpp:1865-1961 | from any entry state, latent delay slot included, after any number of guest instructions the recompiled program has stopped with the interpreter's mode, pc and machine and with no delay slot left over, or is at the same pc with the same machine and pending branch; it never reaches a missing label |
| DelaySlots.SessionSimulation | rsp_jit.cpp:1997-2022 | the same over whole sessions: the program stops, the rest of the system changes IMEM, pc and machine as it likes, the program is entered again, and the interpreter resumes with nothing pending; host and interpreter agree at every point |
| DelaySlots.StepMatches | rsp_jit.cpp:1889-1949 | one instruction of a safe region keeps the relation between host state and interpreter state, for every instruction class and position; a stop leaves has_delay_slot clear |
| DelaySlots.DoubleBranchMatches | rsp_jit.cpp:529-592 | a branch that follows a branch leaves the pc of the first and the second pending exactly as the interpreter does, when the slot is safe |
| DelaySlots.ImpossibleExec | rsp_jit.cpp:529-592 | what the double-branch code leaves: falls when a conditional first branch is not taken, otherwise enters its target with the second branch latent, its condition lost if the first was unconditional |
| DelaySlots.DelaySlotExec | rsp_jit.cpp:594-657 | the code after a delay slot goes to the branch target, locally or through the thunk, exactly when the branch is pending, and always clears the condition |
| DelaySlots.LatentExec | rsp_jit.cpp:1829-1863 | the latent code enters the address left by the previous block, with the block's first branch, if any, made the new latent one |
| DelaySlots.EndExec | rsp_jit.cpp:493-527 | running off a block enters the next address with the pending branch of its last instruction made latent |
| DelaySlots.ExitFirstExec | rsp_jit.cpp:667-689 | leaving from the first instruction returns to the address the interpreter would go on from, with has_delay_slot cleared |
| DelaySlots.ExitLaterExec | rsp_jit.cpp:690-731 | leaving later does the same from the pending branch of the previous instruction and does not touch has_delay_slot |
| DelaySlots.LocalJumpMatches | rsp_jit.cpp:1963-1964 | a local jump lands on an emitted label with nothing pending there |
| DelaySlots.NothingPendingAtLabel | rsp_jit.cpp:594-657 | with the condition cleared, no label that a delay slot jumps to has a branch pending |
| DelaySlots.TargetsAgree | rsp_jit.cpp:1768-1827 | the byte-address target of the code generator is four times the word-address target of the marking pass, for every word and pc |
| DelaySlots.LocalTarget | rsp_jit.cpp:621-656 | every target the delay-slot code treats as local is a position the marking pass has labelled |
| DelaySlots.BranchLeavesPending | rsp_jit.cpp:1054-1400 | the code of each branch and jump leaves pending exactly the branch the interpreter would |
| DelaySlotLimits.RegionExact | rsp_jit.cpp:1357-1371 | the code of a region agrees with the interpreter, step by step and from every related state, reachable or not, if and only if no slot has one of the two unsafe shapes |
| DelaySlotLimits.SecondBranchLost | rsp_jit.cpp:566-572 | an unconditional transfer followed by a taken branch always loses the second one |
| DelaySlotLimits.LabelInheritsTransfer | rsp_jit.cpp:1357-1371 | whatever the instructions do, a local jump to the labelled delay slot of an unconditional transfer arrives with that transfer pending, where the interpreter has nothing pending |
| DelaySlotLimits.JumpThenBranchFails | rsp_jit.cpp:566-572 | J followed by an always-taken BEQ, with the block lengths the recompiler chooses, disagrees after two instructions |
| DelaySlotLimits.LabelledSlotFails | rsp_jit.cpp:1351-1371 | a seven-word program with BLEZ $0 and a labelled delay slot, cut as the recompiler cuts it: after five instructions the recompiled program is at word 259 and the interpreter at word 4, from every entry state without a latent slot |
| DelaySlotLimits.LabelledSlotEnd | rsp_jit.cpp:113-236 | the recompiler ends the block of that program after its seventh word |
| DelaySlotLimits.FallThroughExact | rsp_jit.cpp:189-216 | some execution falls through the end of a block that ends before its window if and only if its last word is not BREAK and is labelled in the block |
| DelaySlotLimits.OwnSlotFalls | rsp_jit.cpp:1294-1310 | J to its own delay slot: the recompiler ends the block after the slot, and control does fall through that end |
| RegionBuilder.MarkBlockEntries | rsp_jit.cpp:1768-1827 | marks exactly the positions of the range that some static branch or jump in it targets |
| RegionBuilder.EmitSegment | rsp_jit.cpp:1919-1947 | the links recorded while an instruction is emitted are exactly the gotos of the code emitted for it |
| RegionBuilder.EmitSegments | rsp_jit.cpp:1889-1949 | the loop carrying the previous instruction's information builds the code whose meaning is proved, and the links of its local jumps |
| RegionBuilder.JitRegion | rsp_jit.cpp:1865-1964 | the whole region: segments, end of block, latent code and links, for at most 128 instructions |
| RegionBuilder.LinksAreJumps | rsp_jit.cpp:621-656 | a goto of the emitted code has a given index if and only if some delay slot of the region jumps there |
| RegionBuilder.NoDanglingLink | rsp_jit.cpp:1963-1964 | every recorded link indexes a position of the region whose label is emitted |
| StaticEnd.AnalyzeStaticEnd | rsp_jit.cpp:113-236 | the loop with its early exits computes the scan function, whose value is the first place in the window where the code closes, or the end of the window |
| StaticEnd.StaticEndClosed | rsp_jit.cpp:113-236 | the result lies in (pc, end]; if below end, the block ends at a BREAK or after the delay slot of a jump, and every static target scanned before it that lies in the window is below it |
| StaticEnd.StaticEndLeast | rsp_jit.cpp:113-236 | minimality: no earlier place of the window is closed, that is, behind a BREAK or the delay slot of a jump which no static target scanned before it passes; the window end is the result if and only if nothing in the window is closed |
| StaticEnd.WindowFacts | rsp_jit.cpp:469-472 | the window reaches to the end of the code block after the one of its entry, or to the end of IMEM |
| StaticEnd.ScanLocal | rsp_jit.cpp:113-236 | the scan depends on the words of the window only |
| StaticEnd.NoFallThrough | rsp_jit.cpp:189-216 | control never falls through the end of a block that ends before its window, from any state, when the block ends in BREAK or its last word is not labelled in it |
| StaticEnd.BlockEndFacts | rsp_jit.cpp:469-472 | a block has at most 128 instructions and reads its own code block and the next one only |
| StaticEnd.BlocksSimulate | rsp_jit.cpp:461-482 | the simulation theorem over whole sessions for the block lengths the recompiler chooses from each IMEM |
| CodeCache.CompileLocal | rsp_jit.cpp:469-472 | compiling at a word depends on the code block it starts in and the next one only |
| CodeCache.InvalidateImemMarks | rsp_jit.cpp:48-53 | after the comparison every difference from the remembered IMEM has its block and the predecessor marked |
| CodeCache.InvalidateCodeRestores | rsp_jit.cpp:55-70 | dropping the marked blocks leaves remembered IMEM equal to IMEM and only blocks that compiling it would give |
| CodeCache.InvalidationExact | rsp_jit.cpp:48-70 | invalidation is exact: at the start of a run a block is dropped if and only if its bit was set or a word of its own or the next code block differs from the remembered IMEM; the table of compiled regions stays |
| CodeCache.CompileCovers | rsp_jit.cpp:469-480 | a block covers the words from its entry to the first place where the code closes in its window |
| CodeCache.StepKeepsInv | parallel.cpp:153-179 | host write, invalidate, run, lookup and DMA each keep the cache invariant, in the order the outer loop allows; every table entry is filed under its own address and the hash of its own words |
| CodeCache.TableHit | rsp_jit.cpp:474-480 | a hit in the table is the block compiling would give if and only if no region compiled earlier for the address has other words and the same hash |
| CodeCache.RunKeepsInv | parallel.cpp:153-179 | so does every run of them |
| CodeCache.CoherentLookup | rsp_jit.cpp:461-482 | at every lookup of every run, the block handed out and every other cached block is what compiling the current IMEM gives, if only the hash does not collide with an earlier region of that address |
| CodeCache.LookupExact | rsp_jit.cpp:474-480 | a lookup is right if and only if `blocks` has an entry or the hash does not collide with an earlier region |
| CodeCache.CollisionServesStale | rsp_jit.cpp:474-480 | two memories whose regions at one address differ and have the same hash: a legal run of a fresh CPU ends with a lookup that hands out the block of the old memory |
| CodeCache.ConstantHashFails | rsp_jit.cpp:73-84 | in particular under a hash that is always zero, for every change to the first word of a block |
| CodeCache.WordsDetermineCode | rsp_jit.cpp:1865-1961 | two memories with the same words in a region give the same code for it |
| CodeCache.Cpu.InvalidateImem | rsp_jit.cpp:48-53 | the loop sets exactly the bits of changed blocks and their predecessors |
| CodeCache.Cpu.InvalidateCode | rsp_jit.cpp:55-70 | the loop rewrites blocks and remembered IMEM of the marked code blocks, in place, and clears the marks |
| CodeCache.Cpu.GetJitBlock | rsp_jit.cpp:461-482 | the lookup with its window, scan, hash table and fill, for any pc |
| RegisterCache.NeverStuck | rsp_jit.cpp:2095-2104 | with three host registers and at most two locked, a register is always found |
| RegisterCache.FindOldest | rsp_jit.cpp:2081-2093 | the live unlocked entry with the smallest timestamp, or none if there is no such entry |
| RegisterCache.LoadKeeps | rsp_jit.cpp:2123-2290 | a load, on a hit or after any eviction, changes no value of the overlay, touches one entry, and yields the value with the extension asked for |
| RegisterCache.ModifyKeeps | rsp_jit.cpp:2166-2190 | claiming a register for writing keeps every other value and evicts only an unlocked entry |
| RegisterCache.FlushKeeps | rsp_jit.cpp:2300-2328 | writing back and freeing any selection of entries keeps the overlay |
| RegisterCache.FlushWindowWritesAll | rsp_jit.cpp:2300-2313 | flushing leaves memory equal to the register file on registers 1 to 32 and nothing cached |
| RegisterCache.FlushRegisterWrites | rsp_jit.cpp:2336-2347 | flushing one register leaves its value in memory and in no host register |
| CacheCalls.CallsKeep | rsp_jit.cpp:2065-2347 | any sequence of load, claim, write, unlock and flush calls that meets the assertions keeps the representation of the register file the calls amount to |
| CacheCalls.OverlayIsFile | rsp_jit.cpp:2065-2347 | after any such sequence the live entries overlaid on memory are that register file, no register is live twice, and a flush writes it all to memory |
| CacheCalls.EvictsLeastRecent | rsp_jit.cpp:2081-2104 | after any sequence of calls on an empty cache, the entry given up is unlocked and its register's last load or claim is earlier in the sequence than that of every other unlocked entry |
| CacheCalls.CallsKeepOrder | rsp_jit.cpp:2123-2312 | timestamps order the live entries by last use, through hits, misses, evictions and flushes, the restart of the clock included |
| CacheCalls.StoresOnlyClaimed | rsp_jit.cpp:2106-2347 | the code of any sequence of calls stores only registers that some call claimed for writing |
| RegisterWindow.Window.FindLiveMipsRegister | rsp_jit.cpp:2065-2071 | the loop returns the first live entry of the register |
| RegisterWindow.Window.FindFreeRegister | rsp_jit.cpp:2073-2079 | the loop returns the first free entry |
| RegisterWindow.Window.FindOldestUnlockedRegister | rsp_jit.cpp:2081-2093 | the loop returns the oldest unlocked entry |
| RegisterWindow.Window.Find | rsp_jit.cpp:2095-2104 | live, then free, then oldest; the assertion is the precondition |
| RegisterWindow.Window.WritebackRegister | rsp_jit.cpp:2106-2113 | stores unless scratch, and clears the modified flag; that the register is not 0 is the precondition |
| RegisterWindow.Window.LoadMipsRegister | rsp_jit.cpp:2123-2164 | the three loads, in place, do what the proved operation does |
| RegisterWindow.Window.ModifyMipsRegister | rsp_jit.cpp:2166-2190 | claiming for writing, in place |
| RegisterWindow.Window.ImmediateMipsRegister | rsp_jit.cpp:2115-2121 | a constant, tagged as sign-extended |
| RegisterWindow.Window.UnlockMipsRegister | rsp_jit.cpp:2292-2298 | one lock dropped; both assertions are the precondition |
| RegisterWindow.Window.FlushWindow | rsp_jit.cpp:2300-2313 | the flush loop and the reset timestamp |
| RegisterWindow.Window.FlushRange | rsp_jit.cpp:2315-2328 | the caller-saved entries, in index order; only those have to be unlocked |
| RegisterWindow.Window.FlushMipsRegister | rsp_jit.cpp:2336-2347 | one register, if it is live |
| RegisterWindow.Window.Reset | rsp_jit.cpp:2330-2334 | every entry empty |
| HostWords.ComparisonsExact | rsp_jit.cpp:1162-1172 | signed, unsigned and equality comparisons of extended 64-bit values are the 32-bit ones; unsigned also on sign-extended values |
| HostWords.BitwiseExact | rsp_jit.cpp:1130-1160 | the low half of a 64-bit bitwise result is the 32-bit result on the low halves |
| HostWords.AddressExact | rsp_jit.cpp:747-748 | the masked 64-bit sum is the wrapped 32-bit effective address |
| ScalarCode.ResultExact | rsp_jit.cpp:962-1172 | for every operation, operands extended as the tag says give a host result whose low half is the MIPS result |
| ScalarCode.CompileCorrect | rsp_jit.cpp:962-1172 | the code of each arithmetic instruction and branch condition computes exactly its MIPS result, keeps every other register, and leaves no lock; the branch condition has a clear upper half |
| ScalarCode.NorFromOr | rsp_jit.cpp:1148-1160 | OR then XOR with all ones is NOR |
| ScalarCode.ShiftVariableCorrect | rsp_jit.cpp:997-1043 | variable shifts, with the amount masked through a scratch register and three registers locked |
| ScalarCode.ConstantCorrect | rsp_jit.cpp:1465-1473 | constants are exact and their sign tag truthful |
| MemoryCode.LoadCorrect | rsp_jit.cpp:800-875 | a load of any width and alignment leaves the extended big-endian value in its register and everything else unchanged, although a call may lose every caller-saved register |
| MemoryCode.StoreCorrect | rsp_jit.cpp:733-795 | a store of any width and alignment changes exactly its bytes and no register |
| MemoryCode.ReleaseAndFlush | rsp_jit.cpp:750-761 | before a call every lock is dropped and nothing lives in a caller-saved register, while the operands are still in the host registers |
| MemoryCode.CompileScalarCorrect | rsp_jit.cpp:1586-1665 | each scalar instruction, loads and stores included, does what the reference machine does |
| MemoryCode.StraightCodeCorrect | rsp_jit.cpp:2300-2313 | any straight run of scalar instructions, compiled from an empty cache and flushed, leaves exactly the MIPS registers in memory and exactly the MIPS bytes in DMEM, from every host state |
| Decoder.DecodeLegal | rsp_jit.cpp:948-1766 | every word decodes to an instruction the compiler accepts, to a call that uses at most one scalar register, or to nothing |
| Decoder.ConditionAgrees | rsp_jit.cpp:1179-1400 | the interpreter's branch condition is the 32-bit comparison the compiler emits, for all six kinds |
| LowRelation.ScalarLowered | rsp_jit.cpp:962-1766 | the code of a decoded scalar word turns a host state that represents a machine into one that represents the machine after that word |
| LowRelation.CallLowered | rsp_jit.cpp:1535-1578 | a call to the vector unit finds its register in memory, loses the caller-saved registers and keeps the relation |
| LowRelation.Cop0Lowered | rsp_jit.cpp:1483-1517 | the same for moves to and from coprocessor 0, with the status in its host register |
| LowBranch.FlowDone | rsp_jit.cpp:1054-1400 | the cache calls of every branch and jump, with what they save of a branch before them, leave the condition, target, link register and saved state that the control-flow code has |
| LowTails.ExitLow | rsp_jit.cpp:659-731 | the exit code on host registers returns with the pc, status and delay slot of the control-flow code |
| LowTails.ImpossibleLow | rsp_jit.cpp:529-592 | the double-branch code on three distinct host registers, one of which may be that of the next pc |
| LowTails.SlotLow | rsp_jit.cpp:621-656 | the end of a delay slot on its copy of the condition |
| LowTails.RelayLow | rsp_jit.cpp:1839-1854 | a latent delay slot that holds a branch, through the registers of the next pc and the status |
| LowTails.EndLow | rsp_jit.cpp:509-526 | the end of a block |
| LowRegion.WholeLowered | rsp_jit.cpp:1919-1947 | the host code of any word with its delay slot exits as the control-flow code does, from every cache and every host state it represents |
| CacheShape.WholeShape | rsp_jit.cpp:1919-1947 | compiling any word keeps the number of entries and the fact that free entries are unlocked |
| LowProgram.StepLow | rsp_jit.cpp:1865-1961 | one instruction of an emitted block, labels, block ends and latent code included, keeps the relation, for every region, safe or not |
| LowProgram.RunLow | rsp_jit.cpp:379-459 | so does every run through any number of blocks and the enter thunk |
| LowProgram.NativeSimulation | rsp_jit.cpp:1865-1961 | entered with any host registers, frame and memory, after any number of guest instructions the emitted program has returned exactly when the interpreter of the words in IMEM has stopped, with the same status, pc, registers, DMEM and coprocessor state and no delay slot left; or both are at the same instruction, the cache overlaid on memory is the register file and the pending branch is the same |
| LowProgram.BlocksNative | rsp_jit.cpp:461-482 | the same for the blocks the recompiler cuts IMEM into |
| BranchRegisters.HoldBranchStateCorrect | rsp_jit.cpp:529-541 | the double-branch code has the condition and two scratch registers in three distinct host registers after its flush, with memory equal to the register file and nothing cached |
| BranchRegisters.TakeConditionCorrect | rsp_jit.cpp:594-621 | after the flush the copy holds the old condition, the condition in memory is zero and every other register is unchanged |
| BranchRegisters.DropConditionCorrect | rsp_jit.cpp:615-621 | an unconditional branch clears the condition in memory and changes nothing else |
| BranchRegisters.HoldConditionCorrect | rsp_jit.cpp:1829-1837 | the latent code still has the condition in its host register after the flush |
| BranchRegisters.HoldForEndCorrect | rsp_jit.cpp:493-507 | at the end of a block the scratch register is not the condition's, although that one is already unlocked |
| BranchCode.SpillConditionCorrect | rsp_jit.cpp:360-365 | the frame slot gets the condition, and no register or other branch state changes |
| BranchCode.SaveIndirectCorrect | rsp_jit.cpp:314-319 | the register target is saved and nothing else changes |
| BranchCode.LinkAndConditionCorrect | rsp_jit.cpp:1273-1292 | JAL holds $31 and the condition at once and leaves both constants |
| BranchCode.LatentCheckCorrect | rsp_jit.cpp:1925-1935 | after the flush the scratch register holds has_delay_slot, and the register file is in memory |
| Emitter.JitHoldBranchState | rsp_jit.cpp:529-541 | three locks at once, each found and dropped before the flush; every assertion of the cache is met |
| Emitter.JitTakeCondition | rsp_jit.cpp:594-621 | the condition locked twice and a scratch register once, and all locks dropped before the flush |
| Emitter.JitDropCondition | rsp_jit.cpp:615-621 | the same for an unconditional branch |
| Emitter.JitSpillCondition | rsp_jit.cpp:360-365 | the condition loaded, saved and unlocked |
| Emitter.JitSaveIndirect | rsp_jit.cpp:314-319 | the register target loaded, saved and unlocked |
| Emitter.JitLinkAndCondition | rsp_jit.cpp:1273-1292 | JAL, with two registers locked at once |
| Emitter.JitLatentCheck | rsp_jit.cpp:1925-1930 | the check after the first instruction, up to its branch |
| Emitter.JitHoldCondition | rsp_jit.cpp:1829-1837 | the latent code, up to its branches |
| Emitter.JitHoldForEnd | rsp_jit.cpp:493-507 | the end of a block, with and without a condition |
| RegionEmitter.JitBranch | rsp_jit.cpp:1054-1400 | J, JAL, JR, JALR and every branch: the calls meet the assertions and emit the proved code |
| RegionEmitter.JitCallFlush | rsp_jit.cpp:1535-1578 | the flushes before a call to the vector unit |
| RegionEmitter.JitWord | rsp_jit.cpp:877-1766 | any instruction word at all, decoded |
| RegionEmitter.JitTail | rsp_jit.cpp:1925-1947 | the handling of the delay slot it is in |
| RegionEmitter.JitLabel | rsp_jit.cpp:1891-1897 | the flush and reset in front of a label |
| RegionEmitter.JitRegion | rsp_jit.cpp:1865-1961 | for every IMEM and region, compiling it on the cache meets every assertion, for every instruction, label, delay slot, end of block and latent code, and emits exactly the code whose meaning is proved |
| Emitter.JitPair | rsp_jit.cpp:1116-1172 | the call sequence of a three-register instruction meets every assertion of the cache and emits the proved code |
| Emitter.JitNor | rsp_jit.cpp:1148-1160 | the same for NOR |
| Emitter.JitImmediate | rsp_jit.cpp:1407-1463 | the same for instructions with a constant operand |
| Emitter.JitShiftVariable | rsp_jit.cpp:997-1043 | the same for variable shifts |
| Emitter.JitConstant | rsp_jit.cpp:1465-1473 | the same for constants |
| Emitter.JitLoad | rsp_jit.cpp:800-875 | the same for loads, with the flush between unlocking and the access |
| Emitter.JitStore | rsp_jit.cpp:733-795 | the same for stores |
| Emitter.JitStraight | rsp_jit.cpp:1889-1954 | compiling a run of instructions in place and flushing: no assertion fails, and the code leaves the MIPS registers and DMEM |
| ScalarMemory.LoadExact | rsp_jit.cpp:800-875 | inline and call-out loads both read the big-endian memory |
| ScalarMemory.StoreExact | rsp_jit.cpp:733-795 | inline and call-out stores both write it, and nothing else |
| ScalarMemory.ReadOverWrite | rsp_jit.cpp:240-295 | byte j of a read after a write, for any two widths and any two addresses, wrap included |
| ScalarMemory.ReadBack | rsp_jit.cpp:240-295 | what is stored is read back, at every address |
| ScalarMemory.LoadAfterStore | rsp_jit.cpp:733-875 | the same through the host paths, whichever each access takes |
| ScalarMemory.UnalignedReadExact | rsp_jit.cpp:246-274 | the unaligned load helpers read big-endian with wrap at 4096 |
| ScalarMemory.UnalignedStoreHalf | rsp_jit.cpp:276-282 | the two byte stores are a big-endian store of two bytes, in place |
| ScalarMemory.UnalignedStoreWord | rsp_jit.cpp:284-295 | the four byte stores are a big-endian store of four bytes, in place |
| HostBytes.MemViewUpdate | debug_rsp.cpp:1205-1206 | a byte written through the word swizzle changes that byte of the program's memory and no other |
| VectorMemory.UnalignedLoad | rsp/ls.cpp:386-472 | LQV at A then LRV at A + 16 load exactly the 16 wrapped bytes from A |
| VectorMemory.UnalignedStore | rsp/ls.cpp:422-496 | SQV at A then SRV at A + 16 store byte i of the register to A + i |
| VectorMemory.UnalignedStoreElsewhere | rsp/ls.cpp:422-496 | and to no other address |
| VectorMemory.QuadRoundTrip | rsp/ls.cpp:386-496 | storing a register anywhere and loading it back restores it |
| VectorMemory.StvAt | rsp/ls.cpp:517-534 | where each byte of a transposed store goes, for every element and address |
| VectorMemory.LtvAt | rsp/ls.cpp:498-515 | what each byte of each register is after a transposed load |
| VectorMemory.Transposes | rsp/ls.cpp:498-534 | STV at element 2r into row r, then LTV at element (16 - 2r) mod 16, exchanges lane n of register m with lane m of register n |
| VectorMemory.OtherRegisters | rsp/ls.cpp:498-515 | the transpose leaves registers outside the group alone |
| VectorMemory.OtherBytes | rsp/ls.cpp:517-534 | and bytes outside the rows |
| VectorPlacement.ShortLoadPlaces | rsp/ls.cpp:103-158 | LLV and LDV: byte e + i of the register is the byte at a + i as far as the register goes, other bytes stay |
| VectorPlacement.DoubleStorePlaces | rsp/ls.cpp:160-199 | SDV: register byte e + i, round its end, goes to a + i, and no other address changes |
| VectorPlacement.QuadLoadPlaces | rsp/ls.cpp:386-420 | LQV at every element: byte e + i is the byte at a + i, to the end of the line or the register, other bytes stay |
| VectorPlacement.QuadStorePlaces | rsp/ls.cpp:422-450 | SQV at every element: register byte e + i, round its end, goes to a + i, to the end of the line, and no other address changes |
| VectorPlacement.RestLoadPlaces | rsp/ls.cpp:452-472 | LRV at every element: the bytes of the line in front of a, in order, with those past the end of the register dropped, other bytes stay |
| VectorPlacement.RestStorePlaces | rsp/ls.cpp:474-496 | SRV at every element: the bytes of the line in front of a come from the register bytes that lead up to byte e, and no other address changes |
| VectorPlacement.UnalignedElementLoad | rsp/ls.cpp:386-472 | LQV at A then LRV at A + 16, at any element, put the byte at A + i into byte e + i and keep the bytes below the element |
| VectorPlacement.UnalignedElementStore | rsp/ls.cpp:422-496 | SQV at A then SRV at A + 16, at any element, store register byte e + i, round its end, at A + i |
| VectorPlacement.PackedWindow | rsp/ls.cpp:201-225 | LPV: every lane holds a byte of the 16-byte window in its high half and zero in its low half, and which byte |
| VectorPlacement.PackedPlaces | rsp/ls.cpp:218-223 | from the element on, lane by lane, the bytes from a on |
| VectorPlacement.PackedBelow | rsp/ls.cpp:218-223 | below the element, the bytes in front of a as far as the window goes, then those from its end |
| VectorPlacement.PackedShift | rsp/ls.cpp:218-223 | one element more moves every loaded byte one lane up |
| VectorPlacement.TransposedStorePlaces | rsp/ls.cpp:517-534 | STV at every element and address: lane l of register l + e / 2 of the group goes to the place in the window that its bytes have, moved on by a mod 8 |
| VectorPlacement.TransposedStoreFills | rsp/ls.cpp:517-534 | the sixteen bytes fill the window and no other address changes |
| VectorPlacement.TransposedLoadPlaces | rsp/ls.cpp:498-515 | LTV at every element and address: lane l of register l + e / 2 of the group is loaded from its place on the ring of the window, and every other byte of every register stays |
| VectorPlacement.TransposedLoadAligns | rsp/ls.cpp:498-515 | the low three bits of the address do not matter to LTV |
| VectorUnit.FastLoadExact | rsp/ls.cpp:103-158 | the shuffled SIMD load of 4, 8 or 16 bytes equals the byte loop through both swizzles |
| VectorUnit.FastStoreExact | rsp/ls.cpp:160-199 | the shuffled SIMD store equals the byte loop |
| VectorUnit.PackedExact | rsp/ls.cpp:201-225 | the SIMD branch of LPV equals its lane loop |
| VectorUnit.Unit.Llv | rsp/ls.cpp:103-121 | either branch loads the bytes up to the end of the register, other bytes and registers unchanged |
| VectorUnit.Unit.Ldv | rsp/ls.cpp:138-158 | the same for eight bytes |
| VectorUnit.Unit.StoreDouble | rsp/ls.cpp:160-199 | byte loop, SIMD and halfword branch all store the same eight wrapped bytes |
| VectorUnit.Unit.LoadPacked | rsp/ls.cpp:201-225 | both branches of LPV leave the bytes that `PackedWindow` places |
| VectorUnit.Unit.LoadQuad | rsp/ls.cpp:386-420 | the three branches of LQV |
| VectorUnit.Unit.StoreQuad | rsp/ls.cpp:422-450 | the three branches of SQV |
| VectorUnit.Unit.LoadRest | rsp/ls.cpp:452-472 | LRV, in place |
| VectorUnit.Unit.StoreRest | rsp/ls.cpp:474-496 | SRV, in place |
| VectorUnit.Unit.LoadTransposed | rsp/ls.cpp:498-515 | LTV, with its running register and wrapping address |
| VectorUnit.Unit.StoreTransposed | rsp/ls.cpp:517-534 | STV, in place |
| Dma.DramApart | rsp/cp0.cpp:161-184 | no two words of a transfer share a DRAM word, whatever the skip and the wrap at 8 MB |
| Dma.WrittenAt | rsp/cp0.cpp:220-236 | every word of a DMA write is found at its DRAM address afterwards |
| Dma.StoredAt | rsp/cp0.cpp:157-184 | where rows wrap over SP memory, the last word stored stays |
| Dma.StoredElsewhere | rsp/cp0.cpp:157-184 | SP words the transfer does not reach are unchanged |
| Dma.ReadRegister | rsp/cp0.cpp:133-193 | a read programmed with any fields of the length register moves exactly the rows they describe and leaves both address registers behind them |
| Dma.WriteRegister | rsp/cp0.cpp:195-245 | the same for a write |
| Dma.EveryLength | rsp/cp0.cpp:135-138 | every length register has such fields |
| Dma.PlanFields | rsp/cp0.cpp:135-149 | rows, words in a row and skip from the fields, with the rounding, the alignment and the clamping at the end of DMEM or IMEM |
| Dma.RoundTrip | rsp/cp0.cpp:133-245 | write then read with the same registers restores all of DMEM and IMEM, for every length register and DRAM address, when the SP address is below four modulo eight |
| Dma.RoundTripFails | rsp/cp0.cpp:204-205 | otherwise there is always a memory content that is not restored |
| Dma.RoundTripExact | rsp/cp0.cpp:143-206 | so the round trip holds for every content if and only if the SP address is below four modulo eight |
| Dma.DirtiedExact | rsp/cp0.cpp:167-175 | a dirty bit is set exactly when it was, or a word went into its code block or the next |
| Dma.DirtyCovers | rsp/cp0.cpp:167-175 | every IMEM word stored to has its own block's bit and the predecessor's set, with indices in range |
| Dma.ReadIsARun | rsp/cp0.cpp:167-192 | a DMA read moves the code cache by legal steps to exactly the IMEM and dirty bits it leaves |
| Dma.Engine.DmaRead | rsp/cp0.cpp:133-193 | for the fields len, count and skip of the length register and L = len + 1 rounded up to eight and clamped: word j of row i is the DRAM word at dram + i (L + skip) + 4j, at SP address sp + i L + 4j unless a later row passes over it; no other SP word changes; the registers end behind the last row; and the call returns a status other than "continue" whenever a block is dirty |
| Dma.Engine.DmaWrite | rsp/cp0.cpp:195-245 | the same rows the other way round: every word arrives in DRAM, no other DRAM word changes, and the registers end behind the last row |
| Dma.Engine.MoveToCop0 | rsp/cp0.cpp:248-275 | the masks of the DMA address registers, which writes start which transfer, and the rows it moves by the fields of the value written |
| Dma.Engine.SaveAndRestore | rsp/cp0.cpp:248-275 | a program that saves SP memory and loads it back through the register interface changes nothing in it |
| Immediates.RotationIsEdge | lightning/lib/aarch64-logical-immediates.c:62-63 | the rotation found points at a one whose lower neighbour is a zero |
| Immediates.NoShorterPeriod | lightning/lib/aarch64-logical-immediates.c:80-93 | the detected size is minimal: no smaller rotation fixes the value |
| Immediates.SizeDivides | lightning/lib/aarch64-logical-immediates.c:77-93 | a value that passes the rotation test has a size in {2, 4, 8, 16, 32, 64} |
| Immediates.EncodeSound | lightning/lib/aarch64-logical-immediates.c:36-108 | a successful encoding is a valid 13-bit code with reduced rotation that decodes to the value |
| Immediates.DecodeIsPattern | lightning/lib/aarch64-logical-immediates.c:131-155 | a valid code decodes to its run of ones, rotated and repeated |
| Immediates.PatternEncodes | lightning/lib/aarch64-logical-immediates.c:36-108 | every rotated repeated run encodes, with its own size, ones and rotation |
| Immediates.EncodeComplete | lightning/lib/aarch64-logical-immediates.c:36-155 | every valid code decodes to a value that encodes to the canonical form of that code |
| Immediates.EncodeFailsExactly | lightning/lib/aarch64-logical-immediates.c:36-155 | encoding fails exactly on the values outside the decoder's image |
| Immediates.Encode32Sound | lightning/lib/aarch64-logical-immediates.c:110-161 | a 32-bit encoding has N = 0 and decodes to the value |
| Immediates.Encode32FailsExactly | lightning/lib/aarch64-logical-immediates.c:110-161 | the 32-bit encoder fails exactly on the values outside the 32-bit decoder's image |
| PageAllocator.ResultsDisjoint | jit_allocator.cpp:104-135 | over any sequence of code and data allocations in which nothing wraps, every successful result is page-aligned and inside one reserved block, and any two are disjoint |
| PageAllocator.NextKeeps | jit_allocator.cpp:104-135 | each call keeps the invariant, whatever reservation and commit return |
| PageAllocator.CoversExactly | jit_allocator.cpp:52-55 | a result has room for the request if and only if rounding up does not wrap |
| PageAllocator.InsideExactly | jit_allocator.cpp:115-117 | a piece that passes the size comparison lies inside its block if and only if the sum does not wrap |
| PageAllocator.WrappedRequestOverlaps | jit_allocator.cpp:115-130 | three requests after which the first page has been handed out twice |
| PageAllocator.RefusalIsFinal | jit_allocator.cpp:110-112 | after a refused reservation a vector never changes and yields nothing over any later run, while earlier results stay |
| PageAllocator.ServesExactly | jit_allocator.cpp:32-135 | requests on an empty vector are served back to back from one reservation of 1 GB, or 2 MB on a 32-bit host, as long as their pages fit; the first that does not fit aborts, or opens a second block on a 32-bit host |
| PageAllocator.CutPages | jit_allocator.cpp:110-134 | the part of allocate that works on the last block, step by step |
| PageAllocator.Allocator.AllocatePages | jit_allocator.cpp:94-135 | allocate_code and allocate_data, leaving the other vector alone |

## Left out

- The quality of the FNV hash: `hash_imem` is an uninterpreted function, and every result says what happens when it collides.
- IMEM is fixed while an activation of the program runs; that a changed IMEM is never executed from a stale block is the code-cache theorem.
- What the called functions do (vector instructions, MFC2, MTC2, CFC2, CTC2, MFC0, MTC0) is a parameter of the emitted program and the interpreter alike; the DMA moves of MTC0 are `Dma`.
- The encoding of host instructions: an emitted block is a tree of Lightning operations with forward branches, and what Lightning makes of them is outside the model.
- The address flip of an inline access is part of the access operation and not a separate write to the scratch register.
- VectorUnit.Unit.StoreTransposed: requires the 16-byte window to lie inside DMEM, because what a store past its end does depends on a macro in a header that is not part of this model.
- SLV, SHV, SFV and SWV near the end of DMEM, for the same reason, and the other vector loads and stores (LBV, SBV, LSV, SSV, SPV, LUV, SUV, LHV, LFV, LWV): single loops with nothing to relate them to.
- Vector arithmetic and the reciprocal ROM: almost all of it is in SIMD headers that are not part of this model.
- Dma.Engine.MoveToCop0: covers the four DMA registers; MFC0 and the status, semaphore and RDP registers are settled by single branches.
- mmap, mprotect and VirtualAlloc: a failed mmap is -1 and not null, so the code relies on the following mprotect to fail; reservations in the model are null or page-aligned.
- A timestamp of the register cache does not wrap at 2^32: it restarts at each flush, far below that.
- The debug backend, the disassembler, tracing, settings and the plugin entry points other than DoRspCycles.
