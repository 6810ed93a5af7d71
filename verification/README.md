# A verified model of the x86-32 JIT's core

The repository compiles blocks of x86-32 code to WebAssembly and also has two interpreters for the same code. This
project models the parts of it that must agree with the plain meaning of the instructions, and proves that they do:
the optimisation passes over the compiler's small IR, the analysis that plans exits, the emit-time state that keeps
flags and registers lazy, the resource protocols around it, and the decoding of opcodes.

Emitting an instruction is modelled as executing it on an abstract machine: wasm locals, state memory, and the
architectural state that an eager interpreter would have. A component is correct when what it emits always shows the
architectural state where the design promises it.

How the modules build on each other:

- `X86Types`, `Bits`: words, widths and bitwise operations on numbers, characterised bit by bit.
- `Flags`, `Conditions`, `DirectConditions`: flag producers, the sixteen conditions, and the comparisons that stand in
  for them. Flags have the meaning of section 3.4.3.1 and appendix B of the Intel SDM, volume 1.
- `FlagState`, `FlagPlanning`: lazy flags with their captured inputs, and the boundaries planned so that every exit
  finds the right flag word.
- `Ir`: the IR and its meaning, after the direct interpreter. A memory fault exposes the committed registers and the
  flags at entry of its instruction, which is what compiled code promises; the direct interpreter stops with the
  current ones.
- `OperandMeaning`, `Templates`, `TemplateMeaning`, `MoveMeaning`, `BranchMeaning`, `StackMeaning`: what the operations
  of each instruction add up to, in integers, bits and little-endian bytes. This is what the passes preserve.
- `LocalDce`, `FlagDce`: the two dead-code passes, sound and with nothing superfluous left.
- `RegisterValues`, `RegisterPropagation`, `PropagationPass`, `PropagationProof`: register value propagation. Analysis
  and rewrite are separate objects in `PropagationPass`; the specification they meet decides and rewrites in one go; the
  proof is about the specification.
- `PropagationEffect`: which register writes propagation holds back.
- `PropagationSafety`, `StaleReuse`, `PropagationTheorem`, `StaleValue`, `LateFaults`: the conditions on a block under
  which propagation is right, the theorem, and exactly when the conditions are needed.
- `RegisterCache`: the register state with stable prefixes, mutable cells and committed and pending layers.
- `Expressions`, `Inlining`, `ExpressionSafety`, `ExpressionProof`, `DisturbedReads`, `NestedRead`: folding flat
  operations into expression trees, which values keep a variable, the condition under which folding is right, and when
  that is needed.
- `PropagationScope`, `Composition`, `WriteBackPair`, `PassOrder`: propagation followed by expression building, and why
  the two do not always compose.
- `VarSlots`, `ValueLocalStore`, `LinkTables`: slots for variables, reference-counted locals, links between blocks.
- `Leb128`: the encoders of section 5.2.2 of the WebAssembly Core Specification.
- `OpcodePaths`, `InstructionSet`, `OpcodeDispatch`, `Decoder`, `DecoderUniqueness`, `Addressing`: from opcode paths and
  set validation to the trie, the selection of an instruction form, and the addresses of memory operands.
- `StructuredCode`, `RegisterDispatch`, `InterpreterDispatch`, `TrieCode`, `PrefixLoop`, `DispatchEmission`,
  `DispatchAgreement`, `HandlerAgreement`: the interpreter's nested switches, what they do, and how that compares with
  the decoder.

## Input contracts

- `FlagPlanning.NoLateBoundary`: a block comes to the planner without a flag boundary of its own between a producer and
  a later fault of the same instruction. No instruction template makes boundaries; the planner is the only producer of
  them. `LateBoundaryExposesNewFlags` only illustrates what the contract is for.
- `PropagationProof.Propagatable`: validated code with whole-register accesses. `Composition.Buildable`: validated code
  over the registers that x86 names.

## Where the code does not keep a promise

Propagation reuses stale variables.

- The test whether a value depends on a register always answers no, so a variable is still taken for a tree after a
  register of the tree was written. `ReusesNothingStale` is the condition on the block that this never matters: a walk
  over the operations and the analysis, without the rewritten code. `StaleReuseIsForeseen` proves that the walk is
  exact about what the rewrite does, and `PropagationPreservesRuns` that it is enough.
- For the other direction, `WriteBackIsRightIffCurrent` proves of every tracker, register and tree built from registers
  and held variables by constants that a write-back is right on all machines exactly when the walk accepts it.
  `MovesArePreservedIffAccepted` proves it for whole blocks: two stack pointer moves in two instructions, the first not
  by zero, survive on all machines exactly when the walk accepts them, which is when their sizes differ. Two pops have
  the same size.
- The walk refuses more than some machine can show: `x - x` hides that `x` is stale (`AHiddenStaleReadIsHarmless`), a
  move by zero writes back what was there, and a stale value may never be looked at.

Propagation moves register writes past faults.

- `FaultsSeeEntry` asks that no register was written back since its instruction began where an operation can fault, and
  that its address names no register whose write is held back. `FaultsFirstIsEnough` proves that instructions that
  fault before they write satisfy it, as those of the repository's instruction set do: `pop` has no form with a memory
  operand, although its template could be used with one.
- `ReadingThroughIsPreservedIffAccepted` and `ReadingAfterIsPreservedIffAccepted`: an instruction that copies a register
  and then reads memory, through the copy or after having it written back, survives on all machines exactly when
  `FaultsSeeEntry` accepts it.

The expression builder moves reads past writes.

- Its barrier check stops at the first direct use, and a read nested in a tree that is itself put off goes on moving.
  `ExpressionSafety.Steady` is the condition on the flat operations that no write falls in between;
  `ExpressionsPreserveRuns` proves that it is enough.
- `WriteDisturbsIffSomeMachineShowsIt`, at any point of any block: a register write changes one of the put-off values
  that are still needed, on some machine, exactly when the condition says that it disturbs one. That is for values that
  lose nothing of what they read; `AHiddenReadSurvives` shows that it is false of others.
- Propagation emits such code itself. `PairIsBuiltRightIffSteady`: a write-back of one register to another and a second
  one to a register plus a constant is built right on all machines exactly when it is steady, which is when the second
  does not read the first. So the passes compose on blocks whose propagated instructions are steady (`PassesCompose`),
  and not on `lea ecx,[eax+1]`, `mov eax,ebx` and a load, though each condition on the block holds and propagation alone
  preserves it: `PassesDoNotAlwaysCompose`.

Elsewhere.

- `RegisterCache.Freezable`: no pending narrow write leans on the committed cell when that register is captured.
  `FreezingKeepsTheValueIffFreezable` proves that this is exactly when capturing is harmless. Written values are taken
  as already computed, although the code samples the prefix before it calls the emitter of the value.
- The interpreter's dispatch never reads the third byte of an opcode: every nested switch reads at the same offset.
  `ReachesLookupIffShort` proves that it reaches what a lookup finds exactly when no opcode has more than two bytes,
  which holds of the repository's own instruction set.
- The interpreter's dispatch looks only at ModRM.reg. `HandlerIsSelectionIffMatching` proves when that is enough.
- Set validation accepts opcodes that begin with another opcode, whose longer forms can then never be decoded:
  `PrefixFreeMeansAllReachable`. It also accepts mod fields above 3, which no ModRM byte has; `OverlapMeansAmbiguous`
  says what that changes.

## Model

| member | source | states |
|---|---|---|
| Flags.MasksMatchDefinitions | src/x86/ir/model/flags.ts:132-178 | a producer defines exactly the flags of its written mask, and exactly those of its undefined mask as undefined |
| Conditions.ReadsAreTheFlagsNamed | src/x86/ir/model/conditions.ts:22-49 | the declared read set of each condition is the set of flags its formula names |
| Conditions.ReadsSuffice | src/x86/ir/model/flag-effects.ts:64-66 | flag words that agree on the declared reads decide the condition alike |
| Conditions.ProducesTrueFlags | src/x86/ir/model/flags.ts:72-178 | for every producer, width and in-range operands, each defined flag is the true carry or borrow, half-carry, signed overflow, zero or sign of the unbounded operation, and parity says whether the low byte has an even number of ones |
| Conditions.OverflowCorrect | src/x86/ir/model/flags.ts:80-104 | the xor-and-mask overflow formula holds exactly when the signed result does not fit the width |
| Conditions.HalfCarryCorrect | src/x86/ir/model/flags.ts:80-104 | bit 4 of the three-way xor is the carry or borrow out of the low four bits |
| Bits.HasEvenParityLowByte | src/x86/state/cpu-state.ts:105-115 | the bit-clearing loop decides whether an even number of the low eight bits are set |
| Bits.EvenParityCountsBits | src/backends/direct/execute.ts:375-376 | parity holds exactly when an even number of the low eight bits are set |
| DirectConditions.CompareCorrect | src/backends/wasm/codegen/conditions.ts:23-107 | after a subtraction the direct comparison of the operands decides the condition as its formula does on the flags |
| DirectConditions.ResultCorrect | src/backends/wasm/codegen/conditions.ts:168-207 | after any producer the test of the result decides the zero, sign and parity conditions |
| DirectConditions.LogicCorrect | src/x86/ir/model/flag-conditions.ts:37-113 | after a logic operation the selected test decides all sixteen conditions, with carry and overflow clear |
| DirectConditions.DirectComparisonCorrect | src/x86/ir/model/flag-conditions.ts:37-113 | whenever a comparison is selected for a producer and condition, it equals the condition on that producer's flags, at every width |
| DirectConditions.ComparisonExistsIff | src/x86/ir/model/flag-conditions.ts:37-113 | a comparison exists exactly after logic operations, for conditions on zero, sign or parity alone, and for B, AE, L, GE, LE and G after a subtraction whose operands are at hand |
| FlagState.NamedInputsMatter | src/backends/wasm/jit/state/flag-state.ts:293-314 | a producer's flags depend only on the inputs it names, so capturing those is enough |
| FlagState.HandleLiveIffReferred | src/backends/wasm/jit/state/flag-state.ts:398-444 | a captured input's handle is live exactly while some flag still waits for the producer it was captured for |
| FlagState.JitFlagState.constructor | src/backends/wasm/jit/state/flag-state.ts:72-85 | initially all six flags come from state memory and nothing is pending |
| FlagState.JitFlagState.ReleaseInputs | src/backends/wasm/jit/state/flag-state.ts:438-444 | every captured input of the producer is given back once |
| FlagState.JitFlagState.IsReferenced | src/backends/wasm/jit/state/flag-state.ts:421-436 | true exactly when some flag's source is the producer |
| FlagState.JitFlagState.ReleaseIfUnreferenced | src/backends/wasm/jit/state/flag-state.ts:421-436 | the inputs are released only when no flag bit refers to the producer any more |
| FlagState.JitFlagState.RedirectFlags | src/backends/wasm/jit/state/flag-state.ts:398-419 | the masked flags get the new source and the producers that lost a flag are collected |
| FlagState.JitFlagState.SetSource | src/backends/wasm/jit/state/flag-state.ts:398-419 | redirecting flags releases exactly the producers left without any flag, each once |
| FlagState.JitFlagState.EmitPendingFlags | src/backends/wasm/jit/state/flag-state.ts:241-262 | the masked flags in the cached word become what the producer computes, the others stay |
| FlagState.JitFlagState.PendingMasks | src/backends/wasm/jit/state/flag-state.ts:448-464 | the masked pending flags are grouped by producer, completely and without empty groups |
| FlagState.JitFlagState.MaterializePendingFlags | src/backends/wasm/jit/state/flag-state.ts:207-214 | the masked pending flags move to the cached word with the values the eager flags have |
| FlagState.JitFlagState.MaterializeIncoming | src/backends/wasm/jit/state/flag-state.ts:216-233 | masked flags still in state memory are copied to the cached word |
| FlagState.JitFlagState.MaterializeFlags | src/backends/wasm/jit/state/flag-state.ts:193-205 | whatever their sources, the masked flags end up in the cached word with their eager values |
| FlagState.JitFlagState.EmitMaterialize | src/backends/wasm/jit/state/flag-state.ts:131-138 | the masked flags are no longer pending and the flag state still denotes the eager flags |
| FlagState.JitFlagState.StoreIfDirty | src/backends/wasm/jit/state/flag-state.ts:139-153 | if the cached word holds anything unpublished, the complete eager word is stored; otherwise nothing changes |
| FlagState.JitFlagState.EmitBoundary | src/backends/wasm/jit/state/flag-state.ts:139-153 | the masked flags are published; when nothing stays pending, state memory holds exactly the eager flags, and it never holds anything but them or what it held |
| FlagState.JitFlagState.PendingFlagConditionSource | src/backends/wasm/jit/state/flag-state.ts:355-384 | a producer is returned exactly when all flags the condition reads wait for it and a direct comparison exists |
| FlagState.JitFlagState.EmitAluFlagsCondition | src/backends/wasm/jit/state/flag-state.ts:154-163 | the emitted condition equals the condition on the eager flags, whether its flags are incoming, cached or pending |
| FlagState.JitFlagState.AssertNoPending | src/backends/wasm/jit/state/flag-state.ts:235-239 | the assertion passes exactly when no flag is pending |
| FlagState.JitFlagState.CaptureInput | src/backends/wasm/jit/state/flag-state.ts:86-130 | a captured input reads back its value from a local that other code keeps its hands off |
| FlagState.JitFlagState.CaptureInputs | src/backends/wasm/jit/state/flag-state.ts:86-130 | all inputs the producer names are captured, each with its own handle or local |
| FlagState.JitFlagState.EmitSet | src/backends/wasm/jit/state/flag-state.ts:86-130 | setting flags lazily updates the eager flags as the producer would, leaving flags it does not write to older producers |
| FlagState.JitFlagState.RunOtherCode | src/backends/wasm/jit/state/flag-state.ts:316-353 | code that leaves the reserved locals alone cannot disturb any pending flag |
| FlagPlanning.JitBlockStateTracker.RecordOp | src/backends/wasm/jit/codegen/plan/block-state-tracker.ts:43-93 | committed and speculative registers and flags follow the operation |
| FlagPlanning.JitBlockStateTracker.CommitInstruction | src/backends/wasm/jit/codegen/plan/block-state-tracker.ts:95-103 | at an instruction's end what was speculative becomes committed |
| FlagPlanning.AnalyzeInstruction | src/backends/wasm/jit/codegen/plan/exit-state-analysis.ts:35-204 | the instruction's exit points are its faults with entry snapshots, then its control exits with post snapshots |
| FlagPlanning.AnalyzeJitCodegenState | src/backends/wasm/jit/codegen/plan/exit-state-analysis.ts:22-89 | states and exit points of the whole block, in order |
| FlagPlanning.JitFlagBoundaryMasks | src/backends/wasm/jit/codegen/plan/flag-boundaries.ts:27-73 | the mask at each place is the union of what the instruction entry and the exits there demand |
| FlagPlanning.InsertInstructionFlagBoundaries | src/backends/wasm/jit/codegen/plan/flag-boundaries.ts:75-98 | boundaries are inserted before the operations with a mask, and nothing else changes |
| FlagPlanning.InsertJitFlagBoundaries | src/backends/wasm/jit/codegen/plan/flag-boundaries.ts:6-25 | the block with the planned boundaries |
| FlagPlanning.PlanDemand | src/backends/wasm/jit/codegen/plan/flag-boundaries.ts:27-53 | what the plan demands covers every flag pending at the entry of a faulting instruction and at a control exit |
| FlagPlanning.RunPlanned | src/backends/wasm/jit/codegen/plan/flag-boundaries.ts:6-53 | on the planned block, with other code running between the operations, the stored flag word is the eager one after the instruction at every control exit and the eager one at entry at every fault, every condition decides eagerly, and the no-pending assertion never fires |
| FlagPlanning.CommittedRegisters | src/backends/wasm/jit/codegen/plan/block-state-tracker.ts:47-81 | a register is committed exactly when an earlier instruction wrote it or a write-back already has |
| FlagPlanning.ExitsStoreChangedRegisters | src/backends/wasm/jit/codegen/plan/exit-state-analysis.ts:165-204 | each exit stores exactly the registers changed since the block began, as of its own snapshot |
| FlagPlanning.LateBoundaryExposesNewFlags | src/backends/wasm/jit/state/flag-state.ts:139-153 | a concrete instruction with its own late boundary exposes new flags at a fault |
| Ir.StepReadsItsUses | src/backends/wasm/jit/ir/effect-primitives.ts:10-47 | an operation's effect, exit and result depend only on the variables it is said to use |
| Ir.StepDefinesItsDst | src/x86/ir/model/op-semantics.ts:28-57 | an operation binds exactly its destination variable |
| OperandMeaning.HoldsSome | src/backends/direct/execute.ts:170-212 | every operand that fits holds exactly one integer unless it lies outside memory (with HoldsOne) |
| OperandMeaning.HoldsOne | src/backends/direct/execute.ts:170-212 | an operand holds at most one integer |
| OperandMeaning.PartRead | src/x86/state/cpu-state.ts:68-74 | reading a register part gives the same bits, from the part's first one |
| OperandMeaning.PartWritten | src/x86/state/cpu-state.ts:76-86 | writing a register part changes exactly its bits, and no other register |
| OperandMeaning.BytesRead | src/x86/memory/guest-memory.ts:37-66 | a memory read gives the little-endian value of the bytes |
| OperandMeaning.BytesWritten | src/x86/memory/guest-memory.ts:68-102 | a memory write leaves the little-endian bytes of the value, and every other byte as it was |
| OperandMeaning.AddressIsLinear | src/backends/direct/execute.ts:417-422 | an address is base plus scaled index plus displacement, modulo two to the 32 |
| OperandMeaning.GetMeans | src/backends/direct/execute.ts:73-85 | a read gives the operand's integer, or its signed one, and changes nothing |
| OperandMeaning.SetMeans | src/backends/direct/execute.ts:86-91 | a write makes the operand the value cut to the width, and changes nothing else |
| OperandMeaning.GetFaults | src/backends/direct/execute.ts:73-85 | a read outside memory faults with the committed registers and the entry flags |
| OperandMeaning.SetFaults | src/backends/direct/execute.ts:86-91 | a write outside memory faults likewise and writes nothing |
| TemplateMeaning.AluIsConsistent | src/x86/isa/semantics/alu.ts:7-40 | the result that a two-operand template hands to its flag producer agrees with the operation on integers |
| TemplateMeaning.UnaryIsConsistent | src/x86/isa/semantics/alu.ts:42-71 | the same for inc, dec and neg |
| TemplateMeaning.AluMeans | src/x86/isa/semantics/alu.ts:7-40 | add, sub, xor, and, or, end to end: the destination becomes the integer or bitwise result, the flags are those of the exact operation, and nothing else changes |
| TemplateMeaning.CompareMeans | src/x86/isa/semantics/cmp.ts:4-12 | cmp and test change only the flags, to those of the difference or the conjunction |
| TemplateMeaning.UnaryMeans | src/x86/isa/semantics/alu.ts:42-71 | inc, dec, not, neg, end to end; inc and dec keep the carry, not keeps all flags |
| TemplateMeaning.ShiftAndExtensionMean | src/backends/direct/execute.ts:144-168 | a right shift moves bits down by the count modulo 32, an extension keeps the signed integer |
| MoveMeaning.MoveMeans | src/x86/isa/semantics/mov.ts:4-20 | mov, movzx and movsx make the destination the source's unsigned or signed integer |
| MoveMeaning.MoveFaults | src/x86/isa/semantics/mov.ts:4-20 | with an operand outside memory they fault and leave registers, flags and memory as they were |
| MoveMeaning.ReadsFault | src/x86/isa/semantics/alu.ts:7-40 | arithmetic, comparisons and exchanges with an operand outside memory fault and leave everything as it was |
| MoveMeaning.LeaMeans | src/x86/isa/semantics/lea.ts:4-8 | lea makes the destination the address cut to the width |
| MoveMeaning.CmovMeans | src/x86/isa/semantics/mov.ts:22-29 | cmov moves exactly when the condition holds |
| MoveMeaning.XchgMeans | src/x86/isa/semantics/xchg.ts:4-12 | xchg makes each operand what the other one held |
| BranchMeaning.ConditionCompares | src/x86/ir/model/conditions.ts:22-49 | after a subtraction every condition says of the two integers what its name says, unsigned or signed |
| BranchMeaning.JccMeans | src/x86/isa/semantics/control.ts:37-41 | the branch is taken, to the operand, exactly when the condition holds of the flags; otherwise control goes on |
| BranchMeaning.CompareAndBranch | src/x86/isa/semantics/control.ts:37-41 | cmp then jcc branches exactly when the condition holds of the two integers compared, at every width and for every kind of operand |
| BranchMeaning.TestAndBranch | src/x86/isa/semantics/test.ts:4-12 | test then jcc branches exactly when the condition holds of the operands' common bits |
| BranchMeaning.JumpMeans | src/x86/isa/semantics/control.ts:4-8 | jmp goes to its operand and int leaves with its vector |
| BranchMeaning.ProducerConditionMeans | src/x86/ir/model/flag-conditions.ts:37-113 | a condition on a pending producer is the condition on the flags it would set |
| StackMeaning.PushMeans | src/x86/isa/semantics/stack.ts:3-24 | push stores the value below the stack pointer and moves the pointer there, or faults and leaves everything as it was |
| StackMeaning.PopMeans | src/x86/isa/semantics/stack.ts:11-30 | pop makes the register the word on top of the stack, also when it is the stack pointer, or faults as before |
| StackMeaning.LeaveMeans | src/x86/isa/semantics/stack.ts:32-41 | leave restores both pointers from the frame, or faults as before |
| StackMeaning.CallMeans | src/x86/isa/semantics/control.ts:10-17 | call pushes the next instruction's address and goes to its operand, or faults as before |
| StackMeaning.RetMeans | src/x86/isa/semantics/control.ts:19-23 | ret goes to the word on top of the stack and pops it, or faults as before |
| StackMeaning.RetImmMeans | src/x86/isa/semantics/control.ts:25-35 | and drops as many bytes more as its operand says |
| StackMeaning.PushThenPop | src/x86/isa/semantics/stack.ts:20-30 | push then pop hands the value over and leaves every other register as it was |
| StackMeaning.CallThenRet | src/x86/isa/semantics/control.ts:10-23 | ret after call comes back behind the call with the registers of before |
| Ir.RunStepsAppend | src/backends/direct/execute.ts:52-69 | operations execute in order: a concatenation is one run after the other, unless the first leaves |
| LocalDce.PruneInstructionDeadLocalValues | src/backends/wasm/jit/optimization/passes/local-dce.ts:49-92 | the backward loop removes only operations that just define a variable, and leaves none of them whose variable is not read later before it is defined again |
| LocalDce.PruneDeadJitLocalValues | src/backends/wasm/jit/optimization/passes/local-dce.ts:31-47 | that holds of every instruction of the block, and the removed operations are counted |
| LocalDce.PruningPreservesRuns | src/backends/wasm/jit/optimization/passes/local-dce.ts:31-112 | the pruned block has the same accesses, faults, exit, registers and flags |
| LocalDce.OnePassIsComplete | src/backends/wasm/jit/optimization/passes/local-dce.ts:49-92 | pruning a pruned block removes nothing |
| LocalDce.PruningLeavesNothingIdle | src/backends/wasm/jit/optimization/passes/local-dce.ts:49-112 | every operation left that only defines a variable has it read by a later one that is left, before any redefinition, and every removed one only defined a variable |
| FlagDce.AnalyzeInstruction | src/backends/wasm/jit/optimization/analyses/flag-liveness.ts:34-101 | backwards over one instruction: the flags found live are those seen before they are written again, where a fault sees the flags of its instruction's start |
| FlagDce.AnalyzeJitFlagLiveness | src/backends/wasm/jit/optimization/analyses/flag-liveness.ts:34-101 | a flag set of the block is kept exactly when one of its flags is seen by a condition, a materialization, an exit or a fault before it is written again |
| FlagDce.PruneInstruction | src/backends/wasm/jit/optimization/passes/flag-dce.ts:47-87 | the flag sets found dead are dropped and the rest is kept in order |
| FlagDce.PruneDeadJitFlagSets | src/backends/wasm/jit/optimization/passes/flag-dce.ts:26-45 | analysis and rewrite together give the pruned block, in which every flag set is needed |
| FlagDce.StepReadsItsFlags | src/backends/wasm/jit/optimization/analyses/flag-liveness.ts:103-133 | an operation's effect depends only on the flags it is said to read |
| FlagDce.PruningPreservesRuns | src/backends/wasm/jit/optimization/passes/flag-dce.ts:26-87 | registers, memory effects, branches and the flags visible at every exit and fault stay the same |
| FlagDce.LiveInIsSeen | src/backends/wasm/jit/optimization/analyses/flag-liveness.ts:34-101 | the flags live at the start of a block are those that are seen in it before they are written again |
| FlagDce.KeptIffNeeded | src/backends/wasm/jit/optimization/analyses/flag-liveness.ts:72-79 | a flag set is kept exactly when one of its flags is seen before it is written again |
| FlagDce.PrunedSetsAreNeeded | src/backends/wasm/jit/optimization/passes/flag-dce.ts:26-87 | in the result every flag set is needed by the result |
| RegisterValues.TreeReadsItsRegs | src/backends/wasm/jit/ir/values.ts:156-189 | a tree denotes the same value in register files that agree on the registers it names |
| RegisterValues.ClosureIsClosed | src/backends/wasm/jit/optimization/analyses/register-values.ts:375-404 | the closure contains the requested registers and every tracked register that depends on one it overwrites |
| RegisterValues.ClosureIsLeast | src/backends/wasm/jit/optimization/analyses/register-values.ts:375-404 | it is contained in every such set |
| RegisterValues.MaterializationClosure | src/backends/wasm/jit/optimization/analyses/register-values.ts:375-404 | the while-changed loop computes the closure in at most eight growing rounds |
| PropagationPass.MaterializeRegs | src/backends/wasm/jit/optimization/analyses/register-values.ts:347-373 | the closure is listed in register order and no longer tracked |
| PropagationPass.AnalyzeSetOp | src/backends/wasm/jit/optimization/analyses/register-values.ts:129-311 | a register write is kept symbolic or first has its dependents written back, as specified |
| PropagationPass.AnalyzeSetIfOp | src/backends/wasm/jit/optimization/analyses/register-values.ts:129-311 | a conditional write has its target and its dependents written back |
| PropagationPass.AnalyzeReadOp | src/backends/wasm/jit/optimization/analyses/register-values.ts:129-311 | a read of a tracked register is folded, another keeps its operation |
| PropagationPass.AnalyzeOperation | src/backends/wasm/jit/optimization/analyses/register-values.ts:129-311 | the decision of each operation, with write-backs before exits and at the end of the block |
| PropagationPass.AnalyzeInstruction | src/backends/wasm/jit/optimization/analyses/register-values.ts:129-311 | everything is written back before an instruction that can fault |
| PropagationPass.AnalyzeJitRegisterValues | src/backends/wasm/jit/optimization/analyses/register-values.ts:76-111 | the plans of the whole block |
| PropagationPass.JitInstructionRewrite.EmitJitValueRef | src/backends/wasm/jit/ir/rewrite.ts:113-153 | a tree becomes a reference, reusing a variable that holds it, otherwise computed by new operations |
| PropagationPass.JitInstructionRewrite.AssignJitValue | src/backends/wasm/jit/ir/rewrite.ts:155-192 | a tree is computed into a given variable |
| PropagationPass.JitInstructionRewrite.MaterializeJitRegisterValues | src/backends/wasm/jit/ir/rewrite.ts:75-95 | all values are computed before any register is written |
| PropagationPass.JitInstructionRewrite.PropagateOp | src/backends/wasm/jit/optimization/passes/register-value-propagation.ts:109-203 | write-backs, then the operation copied, folded or dropped |
| PropagationPass.JitInstructionRewrite.PropagateOps | src/backends/wasm/jit/optimization/passes/register-value-propagation.ts:64-107 | the operations of an instruction, in order |
| PropagationPass.PropagateInstructionRegisterValues | src/backends/wasm/jit/optimization/passes/register-value-propagation.ts:64-107 | entry write-backs before the first operation |
| PropagationPass.PassesAgree | src/backends/wasm/jit/optimization/passes/register-value-propagation.ts:45-62 | analysing the whole block first and rewriting afterwards gives what deciding and rewriting together gives |
| PropagationPass.PropagateJitRegisterValues | src/backends/wasm/jit/optimization/passes/register-value-propagation.ts:45-62 | the two passes compute the specified block |
| PropagationEffect.OnlyWhatCannotWaitRemains | src/backends/wasm/jit/optimization/analyses/register-values.ts:212-281 | the writes left in a propagated instruction, write-backs apart, are the instruction's own whose value is not made of registers and constants, in their order, and at most one right before an exit |
| PropagationProof.WriteBackIsParallelAssignment | src/backends/wasm/jit/optimization/analyses/register-values.ts:347-404 | writing back a closure from the old values puts every register of it at its architectural value, changes no other, and leaves the remaining trees denoting theirs |
| PropagationProof.MaterializeCorrect | src/backends/wasm/jit/ir/rewrite.ts:75-95 | when it takes no stale variable, the emitted write-back code performs that parallel assignment and everything held after it is right again |
| PropagationProof.OpsCorrect | src/backends/wasm/jit/optimization/passes/register-value-propagation.ts:64-203 | the rewritten operations of an instruction simulate the original ones, from any related pair of machines |
| StaleReuse.StaleReuseIsForeseen | src/backends/wasm/jit/ir/values.ts:156-166 | the walk over the block accepts it exactly when analysis and rewrite never take a variable recorded before a write to a register of its tree |
| PropagationTheorem.PropagationPreservesRuns | src/backends/wasm/jit/optimization/passes/register-value-propagation.ts:45-213 | the propagated block makes the same memory accesses in the same order, takes the same exit to the same target, and exposes the original registers and flags at every exit and at every fault, when nothing stale is reused and faults see the entry |
| PropagationTheorem.FaultsFirstIsEnough | src/backends/wasm/jit/optimization/analyses/register-values.ts:93-99 | blocks of instructions that fault before they write satisfy the condition on faults |
| PropagationTheorem.WriteBackIsRightIffCurrent | src/backends/wasm/jit/ir/rewrite.ts:75-153 | for every tracker, register and lossless tree, the emitted write-back gives the register its value on all machines the tracker allows exactly when it takes nothing stale |
| PropagationTheorem.AHiddenStaleReadIsHarmless | src/backends/wasm/jit/ir/rewrite.ts:113-153 | a refused write-back of the difference of a stale variable and itself is nevertheless right |
| StaleValue.ReusingAStaleValueLosesAnUpdate | src/backends/wasm/jit/ir/values.ts:156-166 | two pops, each advancing the stack pointer by the same step, advance it by one step only after propagation |
| StaleValue.MovesArePreservedIffAccepted | src/x86/isa/semantics/stack.ts:11-18 | two moves of the stack pointer, the first not by zero, survive propagation on all machines exactly when the walk accepts them, that is, when the steps differ |
| LateFaults.ReadingThroughIsPreservedIffAccepted | src/backends/wasm/jit/optimization/analyses/register-values.ts:129-311 | copying a register and reading memory through the copy survives propagation on all machines exactly when the condition on faults accepts it |
| LateFaults.ReadingAfterIsPreservedIffAccepted | src/backends/wasm/jit/optimization/analyses/register-values.ts:129-311 | copying a register, having the copy written back and then reading memory survives propagation on all machines exactly when the condition on faults accepts it |
| RegisterCache.ExtractIsShiftAndMask | src/backends/wasm/jit/state/register-prefix-emit.ts:57-82 | masking and extracting an alias on values cut at byte boundaries are the word's mask and shift |
| RegisterCache.InsertIsMaskAndMerge | src/backends/wasm/jit/state/register-prefix-emit.ts:20-36 | writing an alias on cut values is the word's mask and merge |
| RegisterCache.ReadCorrect | src/backends/wasm/jit/state/register-storage.ts:130-182 | whichever source a read selects (pending or committed prefix, cell, state memory), it holds the bits of the current value |
| RegisterCache.WriteNarrow | src/backends/wasm/jit/state/register-write.ts:53-106 | recording a narrow write as a wider or equal prefix gives the current value with those bits replaced |
| RegisterCache.CommitCorrect | src/backends/wasm/jit/state/register-storage.ts:93-118 | committing makes the current value the committed one and keeps it |
| RegisterCache.FreezeCorrect | src/backends/wasm/jit/state/register-materialization.ts:171-182 | freezing the committed value keeps both the committed and the current value |
| RegisterCache.FreezingKeepsTheValueIffFreezable | src/backends/wasm/jit/state/register-materialization.ts:171-182 | a freeze followed by a commit gives the register's value, for all contents of state memory, exactly when no pending narrow prefix leans on the committed cell |
| RegisterCache.FreezingUnderANarrowPrefixDropsBits | src/backends/wasm/jit/state/register-storage.ts:104-114 | a pending low byte, a freeze and a commit lose the upper bits of the register |
| RegisterCache.RecordFullCorrect | src/backends/wasm/jit/state/register-materialization.ts:184-193 | recording the full value in a stable local changes neither value |
| RegisterCache.Storage.ChangeOk | src/backends/wasm/jit/state/register-values.ts:43-81 | changing one register's slot within the rules leaves every other register's values alone |
| RegisterCache.Storage.SnapshotStays | src/backends/wasm/jit/state/register-state.ts:86-102 | no later operation changes what an earlier captured exit will store |
| RegisterCache.Storage.FreezeKeeps | src/backends/wasm/jit/state/register-materialization.ts:171-182 | freezing one register keeps all current and committed values |
| RegisterCache.JitReg32State.constructor | src/backends/wasm/jit/state/register-state.ts:50-80 | initially every register's value is the one in state memory |
| RegisterCache.JitReg32State.EmitWriteAlias | src/backends/wasm/jit/state/register-write.ts:53-106 | the alias's bits of one register change, committed values only outside a preserved instruction, all other registers stay |
| RegisterCache.JitReg32State.EmitWriteAliasIf | src/backends/wasm/jit/state/register-write.ts:107-128 | the same under a condition decided at run time |
| RegisterCache.JitReg32State.EmitReadAlias | src/backends/wasm/jit/state/register-read.ts:28-55 | a read gives the alias's bits of a plain register file and changes no value |
| RegisterCache.JitReg32State.EmitCurrentFullValue | src/backends/wasm/jit/state/register-materialization.ts:103-125 | whichever layer is found first, pending cell, pending full local or committed value under a pending prefix, the merged result is the current value |
| RegisterCache.JitReg32State.EmitCommittedFullValue | src/backends/wasm/jit/state/register-materialization.ts:127-144 | committed cell, full local or state memory, merged with the committed prefix, give the committed value |
| RegisterCache.JitReg32State.EnsureMutableCell | src/backends/wasm/jit/state/register-materialization.ts:146-169 | the register gets a cell of its own without changing any value |
| RegisterCache.JitReg32State.MaterializeCurrentFull | src/backends/wasm/jit/state/register-materialization.ts:82-101 | a local then holds the full current value, and no value changed |
| RegisterCache.JitReg32State.EnsureStableFullValueForCopy | src/backends/wasm/jit/state/register-materialization.ts:52-80 | a local that later writes leave alone holds the full current value |
| RegisterCache.JitReg32State.CommitPendingReg | src/backends/wasm/jit/state/register-storage.ts:93-118 | one register's pending value becomes its committed one |
| RegisterCache.JitReg32State.CommitPending | src/backends/wasm/jit/state/register-state.ts:104-114 | all pending values become committed and no current value changes |
| RegisterCache.JitReg32State.BeginInstruction | src/backends/wasm/jit/state/register-state.ts:50-80 | an instruction starts with nothing pending and its mode for committed values |
| RegisterCache.JitReg32State.FreezeCommittedRegister | src/backends/wasm/jit/state/register-materialization.ts:171-182 | a committed cell becomes a stable local; no value changes |
| RegisterCache.JitReg32State.CaptureCommittedExitStores | src/backends/wasm/jit/state/register-state.ts:86-102 | the captured exit will store exactly the committed registers, whatever happens later; capturing all written registers covers the whole file |
| RegisterCache.JitReg32State.EmitExitStores | src/backends/wasm/jit/state/register-state-store.ts:11-39 | a captured exit leaves in state memory the registers committed when it was captured, the whole file of them when every written register was captured |
| Expressions.CountVarUses | src/backends/wasm/codegen/expressions.ts:341-410 | the number of uses of every variable over all operations |
| Expressions.ConditionalWriteValueVars | src/backends/wasm/codegen/expressions.ts:494-504 | exactly the variables whose value is written conditionally |
| Expressions.ExpressionBuilder.InlineGetWouldCrossAliasBarrier | src/backends/wasm/codegen/expressions.ts:243-263 | whether a possibly aliasing write comes before the first use |
| Expressions.ExpressionBuilder.MaterializedInputs | src/backends/wasm/codegen/expressions.ts:303-310 | inputs that must be plain references are bound first, each once |
| Expressions.ExpressionBuilder.Run | src/backends/wasm/codegen/expressions.ts:131-241 | the builder's loop produces the specified expression block |
| Inlining.VariablesAreNeeded | src/backends/wasm/codegen/expressions.ts:131-338 | a variable of the expression block is used more than once, or where only a reference fits, or holds a condition on flags, a memory read, or a read that an aliasing write follows before its use |
| ExpressionProof.ExpressionsPreserveRuns | src/backends/wasm/codegen/expressions.ts:131-338 | the expression block of steady operations has their accesses, faults, exit, registers and flags, in the same order |
| DisturbedReads.WriteIsHarmlessIffNotRead | src/backends/wasm/codegen/expressions.ts:242-262 | a lossless tree evaluates after a register write as before it, on all machines and whatever is written, exactly when it reads nothing the write aliases |
| DisturbedReads.WriteDisturbsIffSomeMachineShowsIt | src/backends/wasm/codegen/expressions.ts:131-338 | wherever the builder stands, the next register write leaves all lossless put-off values that are still needed alone, on all machines, exactly when the condition on the flat operations says so |
| DisturbedReads.AHiddenReadSurvives | src/backends/wasm/codegen/expressions.ts:242-262 | the difference of a register and itself reads the register and survives every write of it |
| NestedRead.MovingANestedReadPastAWriteChangesIt | src/backends/wasm/codegen/expressions.ts:251-253 | a read nested in an inlined expression is moved past a write of the same register and sees the new value |
| PropagationScope.PropagatedAssignsOnce | src/backends/wasm/jit/ir/rewrite.ts:65-192 | propagated instructions still assign every variable once |
| PropagationScope.PropagatedIsValid | src/backends/wasm/jit/ir/rewrite.ts:65-192 | propagated operations are still ones the builder accepts |
| Composition.ExpressionsPreserveBlocks | src/backends/wasm/codegen/expressions.ts:131-338 | building every instruction of a block preserves the whole block's outcome |
| Composition.PassesCompose | src/backends/wasm/jit/optimization/pipeline.ts:9-16 | propagating a block and building expressions of the result gives the block's own accesses, fault or exit, registers and flags, when the propagated instructions are steady |
| WriteBackPair.PairEmitted | src/backends/wasm/jit/ir/rewrite.ts:75-153 | writing back a copy and a moved register emits both reads, the addition, and then both writes |
| WriteBackPair.PairIsBuiltRightIffSteady | src/backends/wasm/jit/codegen/plan/operand-analysis.ts:10-22 | that write-back is built right on all machines exactly when it is steady, that is, when the second tree does not read the first register |
| PassOrder.PassesDoNotAlwaysCompose | src/backends/wasm/jit/optimization/pipeline.ts:9-16 | on a concrete block every condition on the block holds and propagation preserves all runs, but expressions built from its result give another register |
| VarSlots.EnoughSlots | src/backends/wasm/codegen/var-slots.ts:28-61 | any correct assignment needs as many slots as variables are live together |
| VarSlots.AssignSlots | src/backends/wasm/codegen/var-slots.ts:28-61 | the linear scan separates overlapping lifetimes and its slot count is reached by some position |
| VarSlots.SlotCountIsOptimal | src/backends/wasm/codegen/var-slots.ts:28-61 | its slot count is the maximum number of variables live together, and no assignment has fewer |
| VarSlots.CollectVarLifetimes | src/backends/wasm/codegen/var-slots.ts:63-91 | lifetimes from definition to last read, failing exactly when a variable is read before it is defined or defined twice |
| VarSlots.AssignIrExprVarSlots | src/backends/wasm/codegen/var-slots.ts:28-61 | a slot for every variable, correct for the block it was computed from |
| VarSlots.ExprStepReadsItsVars | src/backends/wasm/codegen/var-slots.ts:93-163 | an expression operation depends only on the variables it is said to read |
| VarSlots.SlotsPreserveRuns | src/backends/wasm/codegen/var-slots.ts:28-91 | running with slots gives the outcome of running with one variable per id |
| ValueLocalStore.JitValueLocalStore.LocalForEntry | src/backends/wasm/jit/codegen/emit/value-local-store.ts:157-169 | an entry's local is its own, bound to no other entry and owned by no handle of another value; a new local is made only when none is free |
| ValueLocalStore.JitValueLocalStore.EmitForUseWithLocal | src/backends/wasm/jit/codegen/emit/value-local-store.ts:80-103 | the result is the value, a returned local holds it, and the value's code is emitted exactly when it was not available |
| ValueLocalStore.JitValueLocalStore.CaptureForReuse | src/backends/wasm/jit/codegen/emit/value-local-store.ts:105-135 | a handle whose local keeps the value until released, emitted exactly when the value was not available; no other handle is affected |
| ValueLocalStore.JitValueLocalStore.Retain | src/backends/wasm/jit/codegen/emit/value-local-store.ts:171-203 | a second handle on the same local, refused exactly after release |
| ValueLocalStore.JitValueLocalStore.Release | src/backends/wasm/jit/codegen/emit/value-local-store.ts:171-203 | a handle is given back once; its local becomes free exactly when unbound and unowned |
| ValueLocalStore.JitValueLocalStore.ForgetWhere | src/backends/wasm/jit/codegen/emit/value-local-store.ts:137-149 | the picked values are no longer available, all others stay as they are, and live handles keep their locals |
| ValueLocalStore.JitValueLocalStore.NotifyWrite | src/backends/wasm/jit/codegen/emit/value-local-store.ts:261-272 | a register write makes unavailable exactly the values that use the register, so everything still available is right for the new registers |
| ValueLocalStore.Store.ListedAfterPop | src/backends/wasm/jit/codegen/emit/value-local-store.ts:157-169 | taking a local from the free list leaves every free local listed exactly once |
| ValueLocalStore.Store.DropHandleOk | src/backends/wasm/jit/codegen/emit/value-local-store.ts:171-203 | owner counts stay equal to the number of unreleased handles |
| LinkTables.JitModuleLinkTable.constructor | src/backends/wasm/jit/compiled-blocks/module-link-table.ts:20-42 | one slot per distinct target, all empty |
| LinkTables.JitModuleLinkTable.InstallModuleLocalFallback | src/backends/wasm/jit/compiled-blocks/module-link-table.ts:52-60 | the fallback is remembered, and is in the slot unless a target is installed |
| LinkTables.JitModuleLinkTable.InstallTarget | src/backends/wasm/jit/compiled-blocks/module-link-table.ts:62-67 | the slot holds the target's function |
| LinkTables.JitModuleLinkTable.InvalidateTarget | src/backends/wasm/jit/compiled-blocks/module-link-table.ts:69-79 | the slot holds the fallback again; it fails exactly when there is none |
| LinkTables.WasmCompiledBlockCache.GetOrCompile | src/backends/wasm/jit/compiled-blocks/wasm-cache.ts:31-65 | a cached block is returned as is, a new one is linked both ways, a failed compilation changes nothing |
| LinkTables.WasmCompiledBlockCache.Invalidate | src/backends/wasm/jit/compiled-blocks/wasm-cache.ts:67-87 | the block is dropped, every slot that led to it has its fallback back, and restoring never fails |
| LinkTables.WasmCompiledBlockCache.Clear | src/backends/wasm/jit/compiled-blocks/wasm-cache.ts:26-29 | no block and no dependents remain |
| LinkTables.WasmCompiledBlockCache.RegisterDependentTable | src/backends/wasm/jit/compiled-blocks/wasm-cache.ts:89-107 | the table is a dependent of each of its targets, and linked to those cached |
| LinkTables.WasmCompiledBlockCache.UnregisterDependentTable | src/backends/wasm/jit/compiled-blocks/wasm-cache.ts:109-127 | the table is a dependent of no target any more |
| LinkTables.LinksReachOnlyCachedCode | src/backends/wasm/jit/compiled-blocks/wasm-cache.ts:26-139 | every slot of a cached block holds the function of the cached target or its own fallback, never dropped code |
| Leb128.EncodeU32Leb128 | src/backends/wasm/encoder/leb128.ts:1-16 | the unsigned encoding, at most five bytes, refused exactly outside 32 bits |
| Leb128.EncodeI32Leb128 | src/backends/wasm/encoder/leb128.ts:18-24 | the signed encoding, at most five bytes, refused exactly outside 32 bits |
| Leb128.EncodeI64Leb128 | src/backends/wasm/encoder/leb128.ts:26-35 | the signed encoding, at most ten bytes, refused exactly outside 64 bits |
| Leb128.EncodeSignedLeb128 | src/backends/wasm/encoder/leb128.ts:37-56 | the loop computes the signed encoding |
| Leb128.UnsignedRoundTrip | src/backends/wasm/encoder/leb128.ts:1-16 | decoding an encoding, with anything after it, gives back the value and its length |
| Leb128.SignedRoundTrip | src/backends/wasm/encoder/leb128.ts:37-64 | the same for signed values |
| Leb128.UnsignedMinimal | src/backends/wasm/encoder/leb128.ts:1-16 | no shorter byte string decodes to the same value |
| Leb128.SignedMinimal | src/backends/wasm/encoder/leb128.ts:37-64 | the same for signed values |
| Leb128.PrefixFree | src/backends/wasm/encoder/leb128.ts:37-64 | no encoding is a proper prefix of another value's |
| OpcodePaths.OpcodePathMatches | src/x86/isa/schema/opcodes.ts:33-50 | every part of the path matches its byte; invalid paths are refused |
| OpcodePaths.ExpandOpcodePath | src/x86/isa/schema/opcodes.ts:87-106 | the nested loops produce the expansion, or refuse an invalid path |
| OpcodePaths.PartValuesAreTheMatches | src/x86/isa/schema/opcodes.ts:108-125 | the values a part expands to are exactly the bytes it matches |
| OpcodePaths.ExpansionIsTheMatches | src/x86/isa/schema/opcodes.ts:33-125 | a path expands to exactly the byte strings of its length that it matches |
| OpcodePaths.ExpansionDoesNotRepeat | src/x86/isa/schema/opcodes.ts:87-125 | each of them once |
| OpcodePaths.OpcodeLowBits | src/x86/isa/schema/opcodes.ts:70-85 | the low bits of the first variable part of a matching path |
| OpcodePaths.LowBitsTellTheBytes | src/x86/isa/schema/opcodes.ts:66-85 | with one variable part, expansions are equal exactly when their low bits are |
| InstructionSet.InstructionSpecsOverlap | src/x86/isa/schema/builders.ts:123-136 | true exactly when the forms share an expanded opcode, a prefix use and a ModRM use |
| InstructionSet.OverlapIsACommonByte | src/x86/isa/schema/builders.ts:245-255 | ModRM matches overlap exactly when some ModRM byte satisfies both, as far as their mod fields occur |
| InstructionSet.OverlapMeansAmbiguous | src/x86/isa/schema/builders.ts:123-136 | two forms overlap exactly when some encoding can be read as either with the same opcode length |
| InstructionSet.OverlapIsSymmetric | src/x86/isa/schema/builders.ts:226-255 | the order of the two forms does not matter |
| InstructionSet.ValidateUniqueInstructionIds | src/x86/isa/schema/builders.ts:138-148 | accepts exactly the sets without a repeated id |
| InstructionSet.ValidateInstructionSet | src/x86/isa/schema/builders.ts:100-121 | accepts exactly the sets with unique ids, valid forms and no overlapping pair |
| OpcodeDispatch.AddCandidate | src/x86/isa/decoder/opcode-dispatch.ts:109-162 | the instruction joins its bucket, or all eight; it fails exactly when the set holds forms of the other kind |
| OpcodeDispatch.OpcodeTrie.Child | src/x86/isa/decoder/opcode-dispatch.ts:50-53 | the child along a byte, made exactly when there is none |
| OpcodeDispatch.OpcodeTrie.Descend | src/x86/isa/decoder/opcode-dispatch.ts:47-53 | the node of an opcode; just its beginnings gain nodes, and no leaf changes |
| OpcodeDispatch.OpcodeTrie.Add | src/x86/isa/decoder/opcode-dispatch.ts:47-57 | the trie of the list becomes the trie of the longer list, or adding fails exactly on mixed forms |
| OpcodeDispatch.BuildOpcodeDispatch | src/x86/isa/decoder/opcode-dispatch.ts:42-60 | fails exactly when some opcode and operand size mix forms with and without ModRM; otherwise every node stands for an opcode beginning and every leaf holds its instructions in order |
| OpcodeDispatch.BucketMembers | src/x86/isa/decoder/opcode-dispatch.ts:121-132 | a bucket holds exactly the instructions whose opcode, operand size and ModRM.reg belong there |
| OpcodeDispatch.OpcodeTrie.OpcodeLeaf | src/x86/isa/decoder/opcode-dispatch.ts:62-82 | the shortest opcode that begins the bytes, or the length at which they leave every opcode, or a read past the end |
| OpcodeDispatch.FindsOne | src/x86/isa/decoder/opcode-dispatch.ts:62-82 | only one lookup result is right for given bytes |
| Decoder.DecodePrefixes | src/x86/isa/decoder/decode.ts:347-357 | the number of leading operand-size prefixes, or a read past the end |
| Decoder.SelectCandidate | src/x86/isa/decoder/decode.ts:84-97 | the first candidate whose match allows the ModRM byte |
| Decoder.FirstOfBucket | src/x86/isa/decoder/decode.ts:376-408 | the first match of a bucket is the first one of the whole list |
| Decoder.LeafDecides | src/x86/isa/decoder/opcode-dispatch.ts:62-82 | the leaf found has the opcode of every unshadowed instruction that the bytes begin |
| Decoder.DispatchCandidates | src/x86/isa/decoder/decode.ts:376-408 | buckets and matches select what a scan over the list would |
| Decoder.DecodeInstruction | src/x86/isa/decoder/decode.ts:63-97 | the first unshadowed instruction of the list that the bytes can be read as, a fault exactly when the bytes (at most fifteen) end too early, otherwise unsupported with the number of bytes read |
| Addressing.LengthIsWhatIsRead | src/x86/isa/decoder/modrm.ts:31-80 | the length skipped for a ModRM part is the number of bytes that decoding its address reads, and it is cut short exactly when that is |
| Addressing.ModRmPartIsItsBytes | src/x86/isa/decoder/modrm.ts:31-54 | a SIB byte follows exactly for mod below 3 with rm 4, one displacement byte for mod 1, four for mod 2 and for mod 0 with rm or SIB base 5; the part is there exactly when all its bytes are |
| Addressing.AddressRoundTrip | src/x86/isa/decoder/modrm.ts:56-168 | every encoding of every address is decoded to that address and reads exactly its bytes |
| Addressing.DecodedIsAnEncoding | src/x86/isa/decoder/modrm.ts:56-168 | whatever is decoded as a memory operand is an encoding of the address found |
| DecoderUniqueness.AcceptedIsDistinguished | src/x86/isa/schema/builders.ts:100-136 | in an accepted set no two expanded instructions can be confused, not even two of one form |
| DecoderUniqueness.AcceptedSetBuilds | src/x86/isa/decoder/opcode-dispatch.ts:135-148 | building the trie of an accepted set never throws |
| DecoderUniqueness.BuildDecoder | src/x86/isa/decoder/decode.ts:59-61 | validation, expansion and trie building succeed together, exactly for accepted sets |
| DecoderUniqueness.OnlyOneReading | src/x86/isa/decoder/decode.ts:84-97 | with prefix-free opcodes no bytes can be read as two instructions |
| DecoderUniqueness.DecodingAgreesWithScan | src/x86/isa/decoder/decode.ts:63-97 | then decoding selects an instruction exactly when the bytes can be read as it |
| DecoderUniqueness.PrefixFreeMeansAllReachable | src/x86/isa/decoder/opcode-dispatch.ts:62-82 | every form can be decoded exactly when no opcode begins another |
| StructuredCode.SwitchSelects | src/backends/wasm/interpreter/dispatch/opcode-dispatch.ts:60-112 | a branch table over nested blocks runs exactly the case its entry names |
| StructuredCode.SwitchDefault | src/backends/wasm/interpreter/dispatch/opcode-dispatch.ts:114-115 | the default entry leaves the blocks without running a case |
| RegisterDispatch.RegisterSwitchRunsOneCase | src/backends/wasm/interpreter/dispatch/register-dispatch.ts:89-117 | exactly the case of the register index runs, the default one for any other index |
| RegisterDispatch.EmitRegisterIndexSwitch | src/backends/wasm/interpreter/dispatch/register-dispatch.ts:89-117 | the emission loop produces that switch |
| InterpreterDispatch.DepthsFollowNesting | src/backends/wasm/interpreter/codegen/depths.ts:8-32 | inside a case, a child and the prefix loop the tracked depths still denote the same labels |
| InterpreterDispatch.RegCasesCover | src/backends/wasm/interpreter/dispatch/instruction-handlers.ts:101-121 | the cases divide the ModRM.reg values by the first candidate of their buckets |
| InterpreterDispatch.ModRmDispatchRuns | src/backends/wasm/interpreter/dispatch/modrm-dispatch.ts:12-60 | the handler of the bucket's first candidate runs, or the unsupported exit for an empty bucket |
| InterpreterDispatch.LeafRuns | src/backends/wasm/interpreter/dispatch/instruction-handlers.ts:12-68 | the code of a leaf runs the handler for the operand size and ModRM.reg, or the right exit |
| TrieCode.NodeRuns | src/backends/wasm/interpreter/dispatch/opcode-dispatch.ts:52-116 | from any node the nested switches reach what looking up the bytes they see says, at every nesting level with the outer labels |
| PrefixLoop.LoopRuns | src/backends/wasm/interpreter/dispatch/opcode-dispatch.ts:122-161 | the prefix loop goes round once per prefix and then dispatches with the override size |
| PrefixLoop.DispatchRuns | src/backends/wasm/interpreter/dispatch/opcode-dispatch.ts:32-161 | the whole dispatch ends in a handler or an exit, never falls through, and needs a turn per prefix |
| PrefixLoop.PrefixesCounted | src/backends/wasm/interpreter/dispatch/opcode-dispatch.ts:122-161 | its prefix handling counts the prefixes that the decoder counts |
| DispatchEmission.RegisterModRmTable | src/backends/wasm/interpreter/dispatch/modrm-dispatch.ts:42-60 | the table maps each ModRM.reg value to the depth of its case |
| DispatchEmission.EmitModRmDispatch | src/backends/wasm/interpreter/dispatch/modrm-dispatch.ts:12-40 | the emission loop produces the ModRM switch |
| DispatchEmission.EmitInstructionHandlerForLeaf | src/backends/wasm/interpreter/dispatch/instruction-handlers.ts:12-68 | emits the leaf's code, and reports exactly when there is none |
| DispatchEmission.BuildDispatchTable | src/backends/wasm/interpreter/dispatch/opcode-dispatch.ts:190-202 | the table maps each case byte to the depth of its case and every other byte to the default |
| DispatchEmission.DispatchBytesForContext | src/backends/wasm/interpreter/dispatch/opcode-dispatch.ts:172-188 | the bytes that lead on from the node, with the prefix added at the root |
| DispatchEmission.EmitOpcodeDispatchNode | src/backends/wasm/interpreter/dispatch/opcode-dispatch.ts:52-116 | walking the trie emits the code specified from the instruction list |
| DispatchEmission.EmitOperandSizePrefixCase | src/backends/wasm/interpreter/dispatch/opcode-dispatch.ts:122-161 | emits the prefix case, branching back to the loop or opening it |
| DispatchEmission.EmitOpcodeDispatch | src/backends/wasm/interpreter/dispatch/opcode-dispatch.ts:32-50 | emits the whole dispatch |
| DispatchEmission.DispatchCodeRuns | src/backends/wasm/interpreter/module.ts:42-56 | started with the first byte, control leaves by the instruction's and the exit's own labels |
| DispatchAgreement.ShortOpcodesSeenRight | src/backends/wasm/interpreter/dispatch/opcode-dispatch.ts:100-111 | with opcodes of at most two bytes the code does what a lookup in the real bytes says |
| DispatchAgreement.ReachesLookupIffShort | src/backends/wasm/interpreter/dispatch/opcode-dispatch.ts:100-111 | that holds for all bytes exactly when no opcode has more than two bytes |
| HandlerAgreement.HandlerIsSelectionIffMatching | src/backends/wasm/interpreter/dispatch/instruction-handlers.ts:147-162 | the bucket's first candidate runs whatever the other ModRM fields are; it is the decoder's selection exactly when its match allows the byte |
| HandlerAgreement.DispatchFollowsDecoder | src/backends/wasm/interpreter/dispatch/opcode-dispatch.ts:32-161 | when the decoder selects a form dispatch runs its handler with the right size, opcode byte and prefix length; when it reports unsupported, so does dispatch |
| HandlerAgreement.AcceptedIdsDistinguish | src/x86/isa/schema/builders.ts:138-148 | in an accepted set an id and an opcode determine the instruction, so grouping cases by id is sound |
| HandlerAgreement.RunningDispatchFollowsDecoder | src/backends/wasm/interpreter/dispatch/opcode-dispatch.ts:32-161 | for an accepted set of short opcodes, the emitted code run from the first byte ends in the decoder's selection or the unsupported exit |

## Left out

- Flag words and masks are sets of flags; each flag owns one bit of the word, and packing EFLAGS is not modelled.
- FlagPlanning.RunPlanned: an instruction is a list of operations followed by its control exits, each reached by its own events; which exit is taken is not decided here but in `Ir`.
- FlagState.JitFlagState.CaptureInput: whether an input can stay in the value cache is a parameter; cached values are locals with handles, and their own store is modelled in `ValueLocalStore`.
- PropagationTheorem.PropagationPreservesRuns: 8- and 16-bit accesses, narrow reads of relative targets and symbolic reads are excluded; the conditions on stale reuse and on faults are needed by the families above, and refuse some blocks that happen to be preserved.
- PropagationProof.MaterializeCorrect: for one write-back the condition is that the emission takes no stale variable; `StaleReuseIsForeseen` replaces it by a walk over the block.
- PropagationProof.OpsCorrect: likewise for one instruction, with faults that see its entry.
- PropagationTheorem.WriteBackIsRightIffCurrent: for trees that lose nothing of what goes in; operators that hide a part of it make the other direction false.
- PropagationPass.AnalyzeOperation: decisions are kept per operation, where the code keeps lists indexed by instruction and operation and checks them for consistency; constants are words, where the code distinguishes signed and unsigned constants of the same bits.
- RegisterCache.JitReg32State.EmitWriteAlias: the written value is a parameter computed beforehand; the code calls an emitter between sampling the prefix and recording the write.
- RegisterCache.JitReg32State.FreezeCommittedRegister: registers whose pending narrow prefix leans on their committed cell are excluded, because there freezing loses bits: the condition is exact.
- RegisterCache.JitReg32State.CaptureCommittedExitStores: the same registers are excluded, for the same reason.
- RegisterCache.JitReg32State.EmitExitStores: owners of shared locals are not counted; a shared local is stable for as long as it is used, which is the discipline that `ValueLocalStore` proves.
- RegisterCache cuts 32-bit values at byte boundaries; two lemmas tie the cut to masks and shifts.
- ExpressionProof.ExpressionsPreserveRuns: for steady operations, with the compiler's inlining options; the interpreter's own options and the width tracking of emitted values are not modelled.
- DisturbedReads.WriteDisturbsIffSomeMachineShowsIt: narrow sign extensions and the operators that hide bits are not lossless; whether a changed value is then looked at depends on the rest of the block.
- Composition.PassesCompose: the condition is on the propagated instructions; the dead-code pass that runs between the two is proved by itself, and the value cache, which can take a write-back from a local instead, is not part of it.
- VarSlots.AssignSlots: free and active lists are sets; the code's sorted lists decide only which free slot is taken first, and the lowest is taken here too.
- ValueLocalStore takes the emitter's value as correct; the planner that decides which values are worth caching, and its epochs, are not modelled.
- LinkTables.WasmCompiledBlockCache.GetOrCompile: compilation and instantiation are a parameter that either gives a block or fails; targets are 32-bit addresses.
- InstructionSet.ValidateInstructionSet: texts, mnemonics and format placeholders are not validated here, so the model accepts more sets than the code.
- Decoder.DecodeInstruction: operands and immediates are not decoded; a selected form can still fault or be unsupported because of them. `Addressing` decodes the address of a memory operand by itself.
- Addressing.AddressRoundTrip: displacements are words, where the code keeps some of them signed; addresses are taken modulo two to the 32 anyway.
- StackMeaning.PopMeans: pop into a register, the only form there is; BranchMeaning.JumpMeans: the vector of int is passed on whole, as compiled code does, where the direct interpreter keeps its low byte.
- PropagationEffect.OnlyWhatCannotWaitRemains: a write right before an exit is held back only if it writes the register's own value, which is not told apart here.
- Inlining.VariablesAreNeeded: for variables of the builder's own; which values the emitter caches in locals is not part of it.
- OpcodeDispatch.OpcodeTrie.Child: nodes live in one table and refer to each other by position, where the code links objects; edges are a map, where the code has an array of 256.
- HandlerAgreement.DispatchFollowsDecoder: handlers are opaque; when the bytes end inside the ModRM part the decoder faults at once, while dispatch may already be in a handler or in the unsupported exit.
- DispatchEmission.EmitOpcodeDispatch: reading a guest byte is one step that gives the byte or leaves through the exit, and the exit's payload is only its reason.
- Instruction budgets, statistics, timing, exit-word packing, text formatting, artifact files and module layout: data or one-step facts.
- The pass that specializes flag conditions is not modelled; its symbolic reads mean the register after later writes were removed, so it has no meaning by itself. The comparison arithmetic it uses is in `DirectConditions`.
- Memory faults inside the interpreter's address decoding, and the interpreter's state cache.
