/**
 Register value propagation. The analysis decides which register writes are left out and where they must be written
 back; the rewrite carries those decisions out with a variable tracker of its own.
 */
module RegisterPropagation {
  import opened X86Types
  import opened Ir
  import opened RegisterValues

  // ---------- the analysis ----------

  datatype RegValue = RegValue(reg: Reg, tree: Tree)

  // The registers of one parallel assignment, in register order.
  type Materialization = seq<RegValue>

  datatype Action = Copy | Drop | Assign(tree: Tree)

  datatype Decision = Decision(before: seq<Materialization>, action: Action, after: Materialization)

  // `ok` records that no register was given a stale tree.
  datatype Analysis = Analysis(values: Values, tracker: Tracker, ok: bool)

  const REG_ORDER: seq<Reg> := [EAX, ECX, EDX, EBX, ESP, EBP, ESI, EDI]

  function Listed(values: Values, regs: set<Reg>, order: seq<Reg>): Materialization {
    if order == [] then []
    else (if order[0] in regs && order[0] in values then [RegValue(order[0], values[order[0]])] else []) +
         Listed(values, regs, order[1..])
  }

  function ListOf(values: Values, regs: set<Reg>): Materialization {
    Listed(values, Closure(values, regs), REG_ORDER)
  }

  /** The registers a materialization really writes. */
  function Written(list: Materialization): set<Reg> {
    set value <- list | value.tree != RegTree(value.reg) :: value.reg
  }

  function AfterMaterializing(analysis: Analysis, regs: set<Reg>): Analysis {
    analysis.(values := analysis.values - Closure(analysis.values, regs),
    tracker := MarkStale(analysis.tracker, Written(ListOf(analysis.values, regs))))
  }

  function Dependents(values: Values, clobbered: Reg): set<Reg> {
    set reg <- values | reg != clobbered && UsesReg(values[reg], clobbered)
  }

  function Retains(known: Known, reg: Reg, materialization: bool, exitNext: bool): bool {
    !materialization && known.Known? && (!exitNext || known.tree == RegTree(reg))
  }

  function Clobber(analysis: Analysis, reg: Reg): Analysis {
    analysis.(values := analysis.values - {reg}, tracker := MarkStale(analysis.tracker, {reg}))
  }

  function Just(action: Action): Decision {
    Decision([], action, [])
  }

  function AnalyzeSet(analysis: Analysis, op: Op, context: Context, exitNext: bool): (r: (Decision, Analysis))
    requires op.Set?
  {
    var reg := RegisterOf(op.target, context);
    if reg.None? then (Just(Copy), analysis)
    else
      var known := ValueFor(analysis.tracker, op.value);
      if Retains(known, reg.value, op.materialization, exitNext) then
        (Just(Drop), analysis.(values := analysis.values[reg.value := known.tree], ok := analysis.ok && !known.stale))
      else
        var dependents := Dependents(analysis.values, reg.value);
        (Decision([ListOf(analysis.values, dependents)], Copy, []),
         Clobber(AfterMaterializing(analysis, dependents), reg.value))
  }

  function AnalyzeSetIf(analysis: Analysis, op: Op, context: Context): (r: (Decision, Analysis))
    requires op.SetIf?
  {
    var reg := RegisterOf(op.target, context);
    if reg.None? then (Just(Copy), analysis)
    else
      var middle := AfterMaterializing(analysis, {reg.value});
      var dependents := Dependents(middle.values, reg.value);
      (Decision([ListOf(analysis.values, {reg.value}), ListOf(middle.values, dependents)], Copy, []),
       Clobber(AfterMaterializing(middle, dependents), reg.value))
  }

  function AnalyzeRead(analysis: Analysis, op: Op, context: Context): (r: (Decision, Analysis))
    requires op.Get? || op.Address?
  {
    if op.Get? then
      var reg := RegisterOf(op.source, context);
      (Just(if reg.Some? && reg.value in analysis.values then Assign(analysis.values[reg.value]) else Copy),
       analysis.(tracker := RecordOp(analysis.tracker, op, context, analysis.values)))
    else
      var known := ValueForAddress(op.operand, context, analysis.values);
      if known.Known? then
        (Just(Assign(known.tree)), analysis.(tracker := RecordOp(analysis.tracker, op, context, analysis.values)))
      else
        var regs := RegsReadByAddress(op.operand, context, analysis.values);
        var after := AfterMaterializing(analysis, regs);
        (Decision([ListOf(analysis.values, regs)], Copy, []),
         after.(tracker := RecordOp(after.tracker, op, context, after.values)))
  }

  /** The decision for one operation that neither leaves nor ends the block. */
  function AnalyzeInner(analysis: Analysis, op: Op, context: Context, exitNext: bool): (r: (Decision, Analysis)) {
    match op
    case Get(_, _, _, _) => AnalyzeRead(analysis, op, context)
    case Address(_, _) => AnalyzeRead(analysis, op, context)
    case Set(_, _, _, _) => AnalyzeSet(analysis, op, context, exitNext)
    case SetIf(_, _, _, _) => AnalyzeSetIf(analysis, op, context)
    case _ => (Just(Copy), analysis.(tracker := RecordOp(analysis.tracker, op, context, analysis.values)))
  }

  function All(analysis: Analysis): Materialization {
    ListOf(analysis.values, analysis.values.Keys)
  }

  function Flushed(analysis: Analysis): Analysis {
    AfterMaterializing(analysis, analysis.values.Keys)
  }

  /** `exitNext`: the following operation leaves the block. `blockEnd`: the block ends here without leaving. */
  function AnalyzeOp(analysis: Analysis, op: Op, context: Context, exitNext: bool, blockEnd: bool)
    : (r: (Decision, Analysis))
  {
    if blockEnd then (Decision([All(analysis)], Copy, []), Flushed(analysis))
    else if IsExit(op, context) then (Decision([], Copy, All(analysis)), Flushed(analysis))
    else AnalyzeInner(analysis, op, context, exitNext)
  }

  function ExitNext(ops: seq<Op>, context: Context): bool {
    |ops| > 1 && IsExit(ops[1], context)
  }

  function BlockEnd(ops: seq<Op>, last: bool): bool {
    last && |ops| == 1 && IsTerminator(ops[0])
  }

  function AnalyzeOps(ops: seq<Op>, context: Context, last: bool, analysis: Analysis)
    : (r: (seq<Decision>, Analysis))
    ensures |r.0| == |ops|
  {
    if ops == [] then ([], analysis)
    else
      var here := AnalyzeOp(analysis, ops[0], context, ExitNext(ops, context),
                            BlockEnd(ops, last) && !IsExit(ops[0], context));
      var rest := AnalyzeOps(ops[1..], context, last, here.1);
      ([here.0] + rest.0, rest.1)
  }

  // ---------- the rewrite ----------

  // `ok` records that no stale variable was reused.
  datatype Rewrite = Rewrite(tracker: Tracker, next: VarId, ok: bool)

  datatype Emission = Emission(ops: seq<Op>, ref: Value, rewrite: Rewrite)

  /** Reuse a variable with this tree, or emit the code that computes it. */
  function EmitRef(rewrite: Rewrite, tree: Tree): Emission
    decreases tree, 1
  {
    var found := FirstWith(rewrite.tracker, tree);
    if tree.ConstTree? then Emission([], Const(tree.value), rewrite)
    else if found.Some? then Emission([], Var(found.value.id), rewrite.(ok := rewrite.ok && !found.value.stale))
    else
      var dst := rewrite.next;
      var computed := EmitInto(rewrite.(next := dst + 1), dst, tree);
      Emission(computed.0, Var(dst), computed.1.(tracker := Record(computed.1.tracker, dst, Known(tree, false))))
  }

  /** Emit code that computes a tree into a given variable. */
  function EmitInto(rewrite: Rewrite, dst: VarId, tree: Tree): (r: (seq<Op>, Rewrite))
    decreases tree, 0
  {
    match tree
    case ConstTree(value) => ([ValueConst(dst, value)], rewrite)
    case RegTree(reg) => ([Get(dst, RegStorage(reg), W32, false)], rewrite)
    case UnaryTree(operator, a) =>
      var x := EmitRef(rewrite, a);
      (x.ops + [ValueUnary(dst, operator, x.ref)], x.rewrite)
    case BinaryTree(operator, a, b) =>
      var x := EmitRef(rewrite, a);
      var y := EmitRef(x.rewrite, b);
      (x.ops + y.ops + [ValueBinary(dst, operator, x.ref, y.ref)], y.rewrite)
  }

  /** The references of a parallel assignment are all computed first. */
  function EmitRefs(rewrite: Rewrite, list: Materialization): (r: (seq<Op>, seq<Op>, Rewrite))
    decreases list
  {
    if list == [] then ([], [], rewrite)
    else if list[0].tree == RegTree(list[0].reg) then EmitRefs(rewrite, list[1..])
    else
      var here := EmitRef(rewrite, list[0].tree);
      var rest := EmitRefs(here.rewrite, list[1..]);
      (here.ops + rest.0, [Set(RegStorage(list[0].reg), here.ref, W32, true)] + rest.1, rest.2)
  }

  function EmitMaterialization(rewrite: Rewrite, list: Materialization): (r: (seq<Op>, Rewrite)) {
    var refs := EmitRefs(rewrite, list);
    (refs.0 + refs.1, refs.2.(tracker := MarkStale(refs.2.tracker, Written(list))))
  }

  function EmitMaterializations(rewrite: Rewrite, lists: seq<Materialization>): (r: (seq<Op>, Rewrite))
    decreases lists
  {
    if lists == [] then ([], rewrite)
    else
      var here := EmitMaterialization(rewrite, lists[0]);
      var rest := EmitMaterializations(here.1, lists[1..]);
      (here.0 + rest.0, rest.1)
  }

  /** The register an operation of the rewritten code really writes. */
  function Writes(op: Op, context: Context): set<Reg> {
    if (op.Set? || op.SetIf?) && RegisterOf(op.target, context).Some?
    then {RegisterOf(op.target, context).value} else {}
  }

  function EmitAction(rewrite: Rewrite, action: Action, op: Op, context: Context): (r: (seq<Op>, Rewrite)) {
    match action
    case Drop => ([], rewrite)
    case Copy =>
      ([op], rewrite.(tracker := MarkStale(RecordOp(rewrite.tracker, op, context, map[]), Writes(op, context))))
    case Assign(tree) =>
      if Dst(op).None? then ([], rewrite)
      else
        var code := EmitInto(rewrite, Dst(op).value, tree);
        (code.0, code.1.(tracker := Record(code.1.tracker, Dst(op).value, Known(tree, false))))
  }

  function EmitOp(rewrite: Rewrite, decision: Decision, op: Op, context: Context): (r: (seq<Op>, Rewrite)) {
    var before := EmitMaterializations(rewrite, decision.before);
    if IsTerminator(op) then
      var after := EmitMaterialization(before.1, decision.after);
      var code := EmitAction(after.1, decision.action, op, context);
      (before.0 + after.0 + code.0, code.1)
    else
      var code := EmitAction(before.1, decision.action, op, context);
      var after := EmitMaterialization(code.1, decision.after);
      (before.0 + code.0 + after.0, after.1)
  }

  function EmitOps(rewrite: Rewrite, decisions: seq<Decision>, ops: seq<Op>, context: Context): (r: (seq<Op>, Rewrite))
    requires |decisions| == |ops|
    decreases ops
  {
    if ops == [] then ([], rewrite)
    else
      var here := EmitOp(rewrite, decisions[0], ops[0], context);
      var rest := EmitOps(here.1, decisions[1..], ops[1..], context);
      (here.0 + rest.0, rest.1)
  }

  /** Above every variable the instruction defines. */
  function NextVarId(ops: seq<Op>): VarId {
    if ops == [] then 0
    else
      var rest := NextVarId(ops[1..]);
      if Dst(ops[0]).Some? && Dst(ops[0]).value >= rest then Dst(ops[0]).value + 1 else rest
  }

  datatype Propagated = Propagated(instruction: Instruction, values: Values, ok: bool)

  /** What is written back before the first operation: everything, if the instruction can fault. */
  function EntryWriteBack(instruction: Instruction, values: Values): Materialization {
    if AnyFault(instruction.ops, instruction.context) then All(Analysis(values, [], true)) else []
  }

  function Entered(instruction: Instruction, values: Values): Analysis {
    var start := Analysis(values, [], true);
    if AnyFault(instruction.ops, instruction.context) then Flushed(start) else start
  }

  function PropagateInstruction(instruction: Instruction, last: bool, values: Values): Propagated {
    var analyzed := AnalyzeOps(instruction.ops, instruction.context, last, Entered(instruction, values));
    var before := EmitMaterialization(Rewrite([], NextVarId(instruction.ops), true), EntryWriteBack(instruction, values));
    var code := EmitOps(before.1, analyzed.0, instruction.ops, instruction.context);
    Propagated(instruction.(ops := before.0 + code.0), analyzed.1.values, analyzed.1.ok && code.1.ok)
  }

  function PropagateBlock(block: Block, values: Values): (r: (Block, bool)) {
    if block == [] then ([], true)
    else
      var here := PropagateInstruction(block[0], |block| == 1, values);
      var rest := PropagateBlock(block[1..], here.values);
      ([here.instruction] + rest.0, here.ok && rest.1)
  }
}
