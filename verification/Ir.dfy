/**
 The intermediate representation of translated instructions and its reference semantics. Passes are judged by what
 a run lets the outside see: the accesses to guest memory, the exit taken, and the registers and flags exposed there.
 */
module Ir {
  import opened X86Types
  import opened Flags
  import opened Conditions
  import DirectConditions
  import Bits

  type VarId = nat

  datatype Value = Var(id: VarId) | Const(value: Word) | NextEip

  datatype Storage = Operand(index: nat) | RegStorage(reg: Reg) | Mem(address: Value)

  datatype BinaryOperator = BinAdd | BinSub | BinXor | BinOr | BinAnd | ShrU

  datatype UnaryOperator = Extend8S | Extend16S

  type InputRefs = map<InputName, Value>

  datatype Op =
    | Get(dst: VarId, source: Storage, width: Width, signed: bool)
    | Set(target: Storage, value: Value, width: Width, materialization: bool)
    | SetIf(condition: Value, target: Storage, value: Value, width: Width)
    | Address(dst: VarId, operand: nat)
    | ValueConst(dst: VarId, constant: Word)
    | ValueBinary(dst: VarId, binary: BinaryOperator, a: Value, b: Value)
    | ValueUnary(dst: VarId, unary: UnaryOperator, a: Value)
    | FlagsSet(producer: Producer, width: Width, inputs: InputRefs)
    | FlagsMaterialize(mask: Mask)
    | FlagsBoundary(mask: Mask)
    | FlagsCondition(dst: VarId, cc: Cc)
    | ProducerCondition(dst: VarId, cc: Cc, producer: Producer, width: Width, inputs: InputRefs)
    | Next
    | Jump(jumpTarget: Value)
    | ConditionalJump(condition: Value, taken: Value, notTaken: Value)
    | HostTrap(vector: Value)

  datatype Alias = Alias(base: Reg, offset: nat, width: Width)

  datatype MemOperand = MemOperand(base: Option<Reg>, index: Option<Reg>, scale: nat, disp: Word)

  datatype Binding = RegBinding(alias: Alias) | MemBinding(ea: MemOperand) | ImmBinding(value: Word) | RelTarget(target: Word)

  // In exit mode `next` leaves the block; in continue mode the following instruction runs.
  datatype Context = Context(operands: seq<Binding>, nextEip: Word, exitMode: bool)

  datatype Instruction = Instruction(context: Context, ops: seq<Op>)

  type Block = seq<Instruction>

  type Byte = x: nat | x < 0x100

  type Regs = regs: map<Reg, Word> | forall reg: Reg :: reg in regs
    witness ZeroRegs()

  const ALL_REGS: set<Reg> := {EAX, ECX, EDX, EBX, ESP, EBP, ESI, EDI}

  lemma AllRegsListed()
    ensures forall reg: Reg :: reg in ALL_REGS
  {
    forall reg: Reg ensures reg in ALL_REGS {
      match reg case EAX => case ECX => case EDX => case EBX => case ESP => case EBP => case ESI => case EDI =>
    }
  }

  function ZeroRegs(): (regs: map<Reg, Word>)
    ensures forall reg: Reg :: reg in regs
  {
    AllRegsListed();
    map reg <- ALL_REGS :: 0
  }

  datatype Access = ReadAccess(address: Word, width: Width) | WriteAccess(address: Word, width: Width, value: Word)

  // `committed` holds the registers and `entryFlags` the flags that a memory fault would expose.
  datatype Machine = Machine(
    regs: Regs, committed: Regs, flags: Mask, entryFlags: Mask, memory: seq<Byte>, vars: map<VarId, Word>, log: seq<Access>)

  datatype ExitKind = Fallthrough | JumpExit | BranchTaken | BranchNotTaken | HostTrapExit

  datatype Outcome =
    | Running(m: Machine)
    | Completed(m: Machine)
    | Fault(access: Access, regs: Regs, flags: Mask, memory: seq<Byte>, log: seq<Access>)
    | Exit(kind: ExitKind, target: Word, regs: Regs, flags: Mask, memory: seq<Byte>, log: seq<Access>)
    // An undefined variable or an unsupported operand: the reference throws or stops as unsupported.
    | Stuck

  // ---------- values ----------

  function Mask32(value: Word, width: Width): Word {
    value % Modulus(width)
  }

  function SignExtend(value: Word, width: Width): Word {
    var low := value % Modulus(width);
    if low >= SignMask(width) then U32(low - Modulus(width)) else low
  }

  function EvalBinary(operator: BinaryOperator, a: Word, b: Word): Word {
    match operator
    case BinAdd => U32(a + b)
    case BinSub => U32(a - b)
    case BinXor => U32(Bits.Xor(a, b))
    case BinOr => U32(Bits.Or(a, b))
    case BinAnd => U32(Bits.And(a, b))
    case ShrU => U32(a / Bits.Pow2(b % 32))
  }

  function EvalUnary(operator: UnaryOperator, a: Word): Word {
    match operator
    case Extend8S => SignExtend(a, W8)
    case Extend16S => SignExtend(a, W16)
  }

  /** None stands for a variable read before its definition. */
  function Eval(value: Value, vars: map<VarId, Word>, nextEip: Word): Option<Word> {
    match value
    case Var(id) => if id in vars then Some(vars[id]) else None
    case Const(value) => Some(value)
    case NextEip => Some(nextEip)
  }

  function EvalInput(inputs: InputRefs, name: InputName, needed: seq<InputName>, vars: map<VarId, Word>, nextEip: Word)
    : Option<Word>
  {
    if name !in needed then Some(0)
    else if name in inputs then Eval(inputs[name], vars, nextEip)
    else None
  }

  function EvalInputs(inputs: InputRefs, needed: seq<InputName>, vars: map<VarId, Word>, nextEip: Word): Option<Inputs> {
    var left := EvalInput(inputs, Left, needed, vars, nextEip);
    var right := EvalInput(inputs, Right, needed, vars, nextEip);
    var result := EvalInput(inputs, Result, needed, vars, nextEip);
    if left.Some? && right.Some? && result.Some? then Some(Inputs(left.value, right.value, result.value)) else None
  }

  predicate OnlyResult(inputs: InputRefs) {
    inputs.Keys == {Result}
  }

  // ---------- storage ----------

  function ReadField(full: Word, offset: nat, width: Width): Word {
    U32((full / Bits.Pow2(offset)) % Modulus(width))
  }

  function WriteField(full: Word, offset: nat, width: Width, value: Word): Word {
    var unit := Bits.Pow2(offset);
    U32(full - ReadField(full, offset, width) * unit + Mask32(value, width) * unit)
  }

  function WriteAlias(regs: Regs, alias: Alias, value: Word): Regs {
    regs[alias.base := if alias.width == W32 then value
                       else WriteField(regs[alias.base], alias.offset, alias.width, value)]
  }

  function ReadAlias(regs: Regs, alias: Alias): Word {
    if alias.width == W32 then regs[alias.base] else ReadField(regs[alias.base], alias.offset, alias.width)
  }

  function EffectiveAddress(ea: MemOperand, regs: Regs): Word {
    var base := if ea.base.Some? then regs[ea.base.value] else 0;
    var index := if ea.index.Some? then U32(regs[ea.index.value] * ea.scale) else 0;
    U32(base + index + ea.disp)
  }

  function Size(width: Width): nat {
    match width
    case W8 => 1
    case W16 => 2
    case W32 => 4
  }

  predicate InBounds(memory: seq<Byte>, address: Word, width: Width) {
    address + Size(width) <= |memory|
  }

  function ByteAt(memory: seq<Byte>, address: nat): (byte: nat)
    requires address < |memory|
    ensures byte < 0x100
  {
    memory[address]
  }

  function ReadMemory(memory: seq<Byte>, address: Word, width: Width): Word
    requires InBounds(memory, address, width)
  {
    match width
    case W8 => ByteAt(memory, address)
    case W16 => ByteAt(memory, address) + 0x100 * ByteAt(memory, address + 1)
    case W32 => ByteAt(memory, address) + 0x100 * ByteAt(memory, address + 1) +
                0x1_0000 * ByteAt(memory, address + 2) + 0x100_0000 * ByteAt(memory, address + 3)
  }

  function WriteMemory(memory: seq<Byte>, address: Word, width: Width, value: Word): seq<Byte>
    requires InBounds(memory, address, width)
  {
    match width
    case W8 => memory[address := value % 0x100]
    case W16 => memory[address := value % 0x100][address + 1 := value / 0x100 % 0x100]
    case W32 => memory[address := value % 0x100][address + 1 := value / 0x100 % 0x100]
                      [address + 2 := value / 0x1_0000 % 0x100][address + 3 := value / 0x100_0000 % 0x100]
  }

  // What a storage reference stands for in the current state.
  datatype Place =
    | RegPlace(alias: Alias, access: Width)
    | MemPlace(address: Word)
    | ConstPlace(value: Word)
    | NoPlace

  function PlaceOf(storage: Storage, width: Width, context: Context, m: Machine): Place {
    match storage
    case RegStorage(reg) => RegPlace(Alias(reg, 0, width), width)
    case Mem(address) =>
      var value := Eval(address, m.vars, context.nextEip);
      if value.Some? then MemPlace(value.value) else NoPlace
    case Operand(index) =>
      if index >= |context.operands| then NoPlace
      else
        match context.operands[index]
        case RegBinding(alias) => RegPlace(alias, width)
        case MemBinding(ea) => MemPlace(EffectiveAddress(ea, m.regs))
        case ImmBinding(value) => ConstPlace(Mask32(value, width))
        case RelTarget(target) => ConstPlace(target)
  }

  function FaultAt(m: Machine, access: Access): Outcome {
    Fault(access, m.committed, m.entryFlags, m.memory, m.log)
  }

  function Bind(m: Machine, dst: VarId, value: Word): Outcome {
    Running(m.(vars := m.vars[dst := value]))
  }

  function StepGet(op: Op, context: Context, m: Machine): Outcome
    requires op.Get?
  {
    match PlaceOf(op.source, op.width, context, m)
    case RegPlace(alias, access) => Bind(m, op.dst, Extended(op, Mask32(ReadAlias(m.regs, alias), access)))
    case ConstPlace(value) => Bind(m, op.dst, Extended(op, value))
    case NoPlace => Stuck
    case MemPlace(address) =>
      if InBounds(m.memory, address, op.width) then
        Bind(m.(log := m.log + [ReadAccess(address, op.width)]), op.dst,
             Extended(op, ReadMemory(m.memory, address, op.width)))
      else FaultAt(m, ReadAccess(address, op.width))
  }

  function Extended(op: Op, value: Word): Word
    requires op.Get?
  {
    if op.signed && op.width != W32 then SignExtend(value, op.width) else value
  }

  function StepWrite(
      target: Storage, value: Word, width: Width, materialization: bool, context: Context, m: Machine): Outcome
  {
    var masked := Mask32(value, width);
    match PlaceOf(target, width, context, m)
    case RegPlace(alias, access) =>
      var regs := WriteAlias(m.regs, alias, Mask32(masked, access));
      var committed := if materialization then WriteAlias(m.committed, alias, Mask32(masked, access)) else m.committed;
      Running(m.(regs := regs, committed := committed))
    case ConstPlace(_) => Stuck
    case NoPlace => Stuck
    case MemPlace(address) =>
      if InBounds(m.memory, address, width) then
        Running(m.(memory := WriteMemory(m.memory, address, width, masked),
                log := m.log + [WriteAccess(address, width, masked)]))
      else FaultAt(m, WriteAccess(address, width, masked))
  }

  function ExitAt(m: Machine, kind: ExitKind, target: Word): Outcome {
    Exit(kind, target, m.regs, m.flags, m.memory, m.log)
  }

  /** Operations that compute a value from variables, operands and flags only. */
  function PureResult(op: Op, context: Context, m: Machine): Option<Word> {
    var eip := context.nextEip;
    match op
    case Address(_, operand) =>
      if operand < |context.operands| && context.operands[operand].MemBinding?
      then Some(EffectiveAddress(context.operands[operand].ea, m.regs)) else None
    case ValueConst(_, constant) => Some(constant)
    case ValueBinary(_, operator, a, b) =>
      var x, y := Eval(a, m.vars, eip), Eval(b, m.vars, eip);
      if x.Some? && y.Some? then Some(EvalBinary(operator, x.value, y.value)) else None
    case ValueUnary(_, operator, a) =>
      var x := Eval(a, m.vars, eip);
      if x.Some? then Some(EvalUnary(operator, x.value)) else None
    case FlagsCondition(_, cc) => Some(if Condition(cc, m.flags) then 1 else 0)
    case ProducerCondition(_, cc, producer, width, inputs) =>
      var kind := DirectConditions.ConditionKind(producer, cc, OnlyResult(inputs));
      if kind.None? then None
      else
        var values := EvalInputs(inputs, DirectConditions.KindInputs(kind.value), m.vars, eip);
        if values.None? then None
        else Some(if DirectConditions.Decide(kind.value, width, values.value) then 1 else 0)
    case _ => None
  }

  function StepControl(op: Op, context: Context, m: Machine): Outcome {
    var eip := context.nextEip;
    match op
    case Next => if context.exitMode then ExitAt(m, Fallthrough, eip) else Completed(m)
    case Jump(target) =>
      var value := Eval(target, m.vars, eip);
      if value.Some? then ExitAt(m, JumpExit, value.value) else Stuck
    case ConditionalJump(condition, taken, notTaken) =>
      var c, t, f := Eval(condition, m.vars, eip), Eval(taken, m.vars, eip), Eval(notTaken, m.vars, eip);
      if c.None? || t.None? || f.None? then Stuck
      else if c.value != 0 then ExitAt(m, BranchTaken, t.value)
      else ExitAt(m, BranchNotTaken, f.value)
    case HostTrap(vector) =>
      var value := Eval(vector, m.vars, eip);
      if value.Some? then ExitAt(m, HostTrapExit, value.value) else Stuck
    case _ => Stuck
  }

  function Step(op: Op, context: Context, m: Machine): Outcome {
    match op
    case Get(_, _, _, _) => StepGet(op, context, m)
    case Set(target, value, width, materialization) =>
      var x := Eval(value, m.vars, context.nextEip);
      if x.Some? then StepWrite(target, x.value, width, materialization, context, m) else Stuck
    case SetIf(condition, target, value, width) =>
      var c, x := Eval(condition, m.vars, context.nextEip), Eval(value, m.vars, context.nextEip);
      if c.None? || x.None? then Stuck
      else if c.value == 0 then Running(m)
      else StepWrite(target, x.value, width, false, context, m)
    case FlagsSet(producer, width, inputs) =>
      var values := EvalInputs(inputs, InputNames(producer), m.vars, context.nextEip);
      if values.Some? then Running(m.(flags := SetFlags(m.flags, producer, width, values.value))) else Stuck
    case FlagsMaterialize(_) => Running(m)
    case FlagsBoundary(_) => Running(m)
    case Next => StepControl(op, context, m)
    case Jump(_) => StepControl(op, context, m)
    case ConditionalJump(_, _, _) => StepControl(op, context, m)
    case HostTrap(_) => StepControl(op, context, m)
    case _ =>
      var x := PureResult(op, context, m);
      if x.Some? then Bind(m, op.dst, x.value) else Stuck
  }

  /** Run operations until one ends the instruction; running off the end is not supported. */
  function RunOps(ops: seq<Op>, context: Context, m: Machine): (outcome: Outcome)
    ensures !outcome.Running?
  {
    if ops == [] then Stuck
    else
      var step := Step(ops[0], context, m);
      if step.Running? then RunOps(ops[1..], context, step.m) else step
  }

  /** Run a piece of an instruction. */
  function RunSteps(ops: seq<Op>, context: Context, m: Machine): Outcome {
    if ops == [] then Running(m)
    else
      var step := Step(ops[0], context, m);
      if step.Running? then RunSteps(ops[1..], context, step.m) else step
  }

  lemma {:induction false} RunStepsAppend(first: seq<Op>, second: seq<Op>, context: Context, m: Machine)
    ensures RunSteps(first + second, context, m) ==
            if RunSteps(first, context, m).Running? then RunSteps(second, context, RunSteps(first, context, m).m)
            else RunSteps(first, context, m)
    ensures RunOps(first + second, context, m) ==
            if RunSteps(first, context, m).Running? then RunOps(second, context, RunSteps(first, context, m).m)
            else RunSteps(first, context, m)
    decreases first
  {
    hide Step;
    if first == [] {
      assert first + second == second;
    } else {
      assert (first + second)[1..] == first[1..] + second;
      var step := Step(first[0], context, m);
      if step.Running? { RunStepsAppend(first[1..], second, context, step.m); }
    }
  }

  /** A new instruction: its own variables, and the current state becomes what a fault exposes. */
  function Begin(m: Machine): Machine {
    m.(committed := m.regs, entryFlags := m.flags, vars := map[])
  }

  function RunBlock(block: Block, m: Machine): (outcome: Outcome)
    ensures !outcome.Running?
  {
    if block == [] then Completed(m)
    else
      var outcome := RunOps(block[0].ops, block[0].context, Begin(m));
      if outcome.Completed? then RunBlock(block[1..], outcome.m) else outcome
  }

  // ---------- static facts about operations ----------

  /** The operations that leave the block when they run. */
  predicate IsExit(op: Op, context: Context) {
    match op
    case Next => context.exitMode
    case Jump(_) => true
    case ConditionalJump(_, _, _) => true
    case HostTrap(_) => true
    case _ => false
  }

  predicate IsTerminator(op: Op) {
    op.Next? || op.Jump? || op.ConditionalJump? || op.HostTrap?
  }

  /** Only the last operation of an instruction is a terminator. */
  predicate TerminatorIsLast(ops: seq<Op>) {
    forall j | 0 <= j < |ops| - 1 :: !IsTerminator(ops[j])
  }

  predicate IsMemory(storage: Storage, operands: seq<Binding>) {
    match storage
    case Mem(_) => true
    case RegStorage(_) => false
    case Operand(index) => index < |operands| && operands[index].MemBinding?
  }

  /** The operations that can leave the instruction through a memory fault. */
  predicate CanFault(op: Op, operands: seq<Binding>) {
    match op
    case Get(_, source, _, _) => IsMemory(source, operands)
    case Set(target, _, _, _) => IsMemory(target, operands)
    case _ => false
  }

  predicate AnyFault(ops: seq<Op>, context: Context) {
    exists op <- ops :: CanFault(op, context.operands)
  }

  /** Conditional memory writes are rejected by the exit analysis, and with it by every pass. */
  predicate NoMemorySetIf(ops: seq<Op>, context: Context) {
    forall op <- ops :: op.SetIf? ==> !IsMemory(op.target, context.operands)
  }

  /** What the validator and the exit analysis insist on. */
  predicate Supported(block: Block) {
    forall instruction <- block ::
      TerminatorIsLast(instruction.ops) && NoMemorySetIf(instruction.ops, instruction.context)
  }

  function Vars(value: Value): set<VarId> {
    if value.Var? then {value.id} else {}
  }

  function StorageVars(storage: Storage): set<VarId> {
    if storage.Mem? then Vars(storage.address) else {}
  }

  function InputVar(inputs: InputRefs, name: InputName, names: set<InputName>): set<VarId> {
    if name in names && name in inputs then Vars(inputs[name]) else {}
  }

  function InputVars(inputs: InputRefs, names: set<InputName>): set<VarId> {
    InputVar(inputs, Left, names) + InputVar(inputs, Right, names) + InputVar(inputs, Result, names)
  }

  /** The variables an operation reads. */
  function Uses(op: Op): set<VarId> {
    match op
    case Get(_, source, _, _) => StorageVars(source)
    case Set(target, value, _, _) => StorageVars(target) + Vars(value)
    case SetIf(condition, target, value, _) => Vars(condition) + StorageVars(target) + Vars(value)
    case ValueBinary(_, _, a, b) => Vars(a) + Vars(b)
    case ValueUnary(_, _, a) => Vars(a)
    case FlagsSet(_, _, inputs) => InputVars(inputs, inputs.Keys)
    case ProducerCondition(_, cc, producer, _, inputs) =>
      var kind := DirectConditions.ConditionKind(producer, cc, OnlyResult(inputs));
      if kind.None? then {} else InputVars(inputs, set name | name in DirectConditions.KindInputs(kind.value))
    case Jump(target) => Vars(target)
    case ConditionalJump(condition, taken, notTaken) => Vars(condition) + Vars(taken) + Vars(notTaken)
    case HostTrap(vector) => Vars(vector)
    case _ => {}
  }

  /** The variable an operation defines, if any. */
  function Dst(op: Op): Option<VarId> {
    if op.Get? || op.Address? || op.ValueConst? || op.ValueBinary? || op.ValueUnary? || op.FlagsCondition? ||
       op.ProducerCondition?
    then Some(op.dst) else None
  }

  predicate AgreeOn(first: map<VarId, Word>, second: map<VarId, Word>, vars: set<VarId>) {
    forall id <- vars :: id in first ==> id in second && second[id] == first[id]
  }

  /** No variable is assigned twice. */
  predicate AssignsOnce(ops: seq<Op>, defined: set<VarId>) {
    ops == [] ||
    if Dst(ops[0]).Some? then Dst(ops[0]).value !in defined && AssignsOnce(ops[1..], defined + {Dst(ops[0]).value})
    else AssignsOnce(ops[1..], defined)
  }

  /** No variable is used before it is defined. */
  predicate DefinesBeforeUse(ops: seq<Op>, defined: set<VarId>) {
    ops == [] ||
    (Uses(ops[0]) <= defined &&
     DefinesBeforeUse(ops[1..], if Dst(ops[0]).Some? then defined + {Dst(ops[0]).value} else defined))
  }

  /** The same outcome; a completed instruction may have left different variables behind. */
  ghost predicate SameOutcome(first: Outcome, second: Outcome) {
    if first.Completed? then second.Completed? && second.m == first.m.(vars := second.m.vars) else second == first
  }

  // ---------- what variables have to do with a step ----------

  /** The same step seen with other variables: a defined variable gets the same value. */
  ghost predicate SameStep(op: Op, step: Outcome, other: Outcome, vars: map<VarId, Word>) {
    match step
    case Running(n) =>
      if Dst(op).Some?
      then Dst(op).value in n.vars && other == Running(n.(vars := vars[Dst(op).value := n.vars[Dst(op).value]]))
      else other == Running(n.(vars := vars))
    case Completed(n) => other == Completed(n.(vars := vars))
    case _ => other == step
  }

  lemma SameInputs(
      inputs: InputRefs, needed: seq<InputName>, names: set<InputName>, nextEip: Word, first: map<VarId, Word>,
      second: map<VarId, Word>)
    requires AgreeOn(first, second, InputVars(inputs, names))
    requires forall name <- needed :: name in names || name !in inputs
    ensures EvalInputs(inputs, needed, first, nextEip).Some? ==>
              EvalInputs(inputs, needed, second, nextEip) == EvalInputs(inputs, needed, first, nextEip)
  {
  }

  lemma SamePlace(storage: Storage, width: Width, context: Context, m: Machine, vars: map<VarId, Word>)
    requires AgreeOn(m.vars, vars, StorageVars(storage))
    requires PlaceOf(storage, width, context, m) != NoPlace
    ensures PlaceOf(storage, width, context, m.(vars := vars)) == PlaceOf(storage, width, context, m)
  {
  }

  lemma SameWrite(
      target: Storage, value: Word, width: Width, role: bool, context: Context, m: Machine, vars: map<VarId, Word>)
    requires AgreeOn(m.vars, vars, StorageVars(target))
    requires StepWrite(target, value, width, role, context, m) != Stuck
    ensures
      var step := StepWrite(target, value, width, role, context, m);
      var other := StepWrite(target, value, width, role, context, m.(vars := vars));
      && (step.Running? || step.Fault?)
      && if step.Running? then other == Running(step.m.(vars := vars)) && step.m.vars == m.vars else other == step
  {
    SamePlace(target, width, context, m, vars);
  }

  lemma SameGet(op: Op, context: Context, m: Machine, vars: map<VarId, Word>)
    requires op.Get? && AgreeOn(m.vars, vars, StorageVars(op.source)) && StepGet(op, context, m) != Stuck
    ensures SameStep(op, StepGet(op, context, m), StepGet(op, context, m.(vars := vars)), vars)
  {
    hide Extended, ReadMemory, ReadAlias, Mask32;
    SamePlace(op.source, op.width, context, m, vars);
  }

  lemma SamePure(op: Op, context: Context, m: Machine, vars: map<VarId, Word>)
    requires AgreeOn(m.vars, vars, Uses(op)) && PureResult(op, context, m).Some?
    ensures PureResult(op, context, m.(vars := vars)) == PureResult(op, context, m)
  {
    hide EvalBinary, EvalUnary, Condition, DirectConditions.Decide, DirectConditions.ConditionKind, EvalInputs;
    if op.ProducerCondition? {
      var kind := DirectConditions.ConditionKind(op.producer, op.cc, OnlyResult(op.inputs));
      var needed := DirectConditions.KindInputs(kind.value);
      SameInputs(op.inputs, needed, (set name | name in needed), context.nextEip, m.vars, vars);
    }
  }

  lemma SameControl(op: Op, context: Context, m: Machine, vars: map<VarId, Word>)
    requires AgreeOn(m.vars, vars, Uses(op)) && StepControl(op, context, m) != Stuck
    ensures StepControl(op, context, m.(vars := vars)) ==
            match StepControl(op, context, m) case Completed(n) => Completed(n.(vars := vars)) case other => other
    ensures !StepControl(op, context, m).Running?
  {
  }

  /** A step depends only on the variables it reads. */
  lemma StepReadsItsUses(op: Op, context: Context, m: Machine, vars: map<VarId, Word>)
    requires AgreeOn(m.vars, vars, Uses(op)) && Step(op, context, m) != Stuck
    ensures SameStep(op, Step(op, context, m), Step(op, context, m.(vars := vars)), vars)
  {
    hide StepGet, StepWrite, StepControl, PureResult, EvalInputs, SetFlags, StorageVars, InputVars;
    match op
    case Get(_, source, _, _) => SameGet(op, context, m, vars);
    case Set(target, value, width, role) =>
      SameWrite(target, Eval(value, m.vars, context.nextEip).value, width, role, context, m, vars);
    case SetIf(condition, target, value, width) =>
      if Eval(condition, m.vars, context.nextEip).value != 0 {
        SameWrite(target, Eval(value, m.vars, context.nextEip).value, width, false, context, m, vars);
      }
    case FlagsSet(producer, _, inputs) =>
      SameInputs(inputs, InputNames(producer), inputs.Keys, context.nextEip, m.vars, vars);
    case FlagsMaterialize(_) =>
    case FlagsBoundary(_) =>
    case Next => SameControl(op, context, m, vars);
    case Jump(_) => SameControl(op, context, m, vars);
    case ConditionalJump(_, _, _) => SameControl(op, context, m, vars);
    case HostTrap(_) => SameControl(op, context, m, vars);
    case _ => SamePure(op, context, m, vars);
  }

  /** A step changes no variable but the one it defines. */
  lemma StepDefinesItsDst(op: Op, context: Context, m: Machine)
    requires Step(op, context, m).Running?
    ensures
      var n := Step(op, context, m).m;
      if Dst(op).Some? then Dst(op).value in n.vars && n.vars == m.vars[Dst(op).value := n.vars[Dst(op).value]]
      else n.vars == m.vars
  {
    hide StepGet, StepWrite, PureResult, EvalInputs, SetFlags;
    match op
    case Get(_, _, _, _) => GetBinds(op, context, m);
    case Set(target, value, width, role) =>
      WriteBindsNothing(target, Eval(value, m.vars, context.nextEip).value, width, role, context, m);
    case SetIf(_, target, value, width) =>
      WriteBindsNothing(target, Eval(value, m.vars, context.nextEip).value, width, false, context, m);
    case _ =>
  }

  lemma WriteBindsNothing(target: Storage, value: Word, width: Width, role: bool, context: Context, m: Machine)
    ensures
      var step := StepWrite(target, value, width, role, context, m);
      step.Running? ==> step.m.vars == m.vars && step.m.flags == m.flags && step.m.entryFlags == m.entryFlags
  {
    hide WriteMemory, WriteAlias, Mask32;
  }

  lemma GetBinds(op: Op, context: Context, m: Machine)
    requires op.Get?
    ensures
      var step := StepGet(op, context, m);
      step.Running? ==> op.dst in step.m.vars && step.m.vars == m.vars[op.dst := step.m.vars[op.dst]]
  {
    hide Extended, ReadMemory, ReadAlias, Mask32;
  }
}
