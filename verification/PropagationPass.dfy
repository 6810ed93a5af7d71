/** The pass as it runs: an analysis over the whole block, then a rewrite that follows its decisions. */
module PropagationPass {
  import opened X86Types
  import opened Ir
  import opened RegisterValues
  import opened RegisterPropagation

  class JitRegisterValues {
    var values: Values

    constructor ()
      ensures values == map[]
    {
      values := map[];
    }
  }

  class JitValueTracker {
    var locals: Tracker

    constructor ()
      ensures locals == []
    {
      locals := [];
    }
  }

  // ---------- the analysis ----------

  lemma ListedStep(values: Values, regs: set<Reg>, i: nat, before: Materialization)
    requires i < |REG_ORDER|
    ensures
      var reg := REG_ORDER[i];
      before + Listed(values, regs, REG_ORDER[i..]) ==
      (if reg in regs && reg in values then before + [RegValue(reg, values[reg])] else before) +
      Listed(values, regs, REG_ORDER[i + 1..])
  {
    assert REG_ORDER[i..][1..] == REG_ORDER[i + 1..];
  }

  lemma ListedEnd(values: Values, regs: set<Reg>)
    ensures REG_ORDER[0..] == REG_ORDER && Listed(values, regs, REG_ORDER[|REG_ORDER|..]) == []
  {
  }

  /** Stop tracking the closure of the given registers, and list what has to be written back. */
  method MaterializeRegs(registers: JitRegisterValues, values: JitValueTracker, regs: set<Reg>)
    returns (list: Materialization)
    modifies registers, values
    ensures list == ListOf(old(registers.values), regs)
    ensures registers.values == old(registers.values) - Closure(old(registers.values), regs)
    ensures values.locals == MarkStale(old(values.locals), Written(list))
  {
    hide Listed, MarkStale, Written, Closure;
    var materialized, _ := MaterializationClosure(registers.values, regs);
    list := [];
    ListedEnd(registers.values, materialized);
    for i := 0 to |REG_ORDER|
      invariant registers.values == old(registers.values) && values.locals == old(values.locals)
      invariant list + Listed(registers.values, materialized, REG_ORDER[i..]) ==
                Listed(registers.values, materialized, REG_ORDER)
    {
      var reg := REG_ORDER[i];
      ListedStep(registers.values, materialized, i, list);
      if reg in materialized && reg in registers.values {
        list := list + [RegValue(reg, registers.values[reg])];
      }
    }
    assert list + [] == list;
    registers.values := registers.values - materialized;
    values.locals := MarkStale(values.locals, Written(list));
  }

  ghost function State(registers: JitRegisterValues, values: JitValueTracker, ok: bool): Analysis
    reads registers, values
  {
    Analysis(registers.values, values.locals, ok)
  }

  method ClobberRegister(registers: JitRegisterValues, values: JitValueTracker, reg: Reg)
    modifies registers, values
    ensures forall ok :: State(registers, values, ok) == Clobber(old(State(registers, values, ok)), reg)
  {
    registers.values := registers.values - {reg};
    values.locals := MarkStale(values.locals, {reg});
  }

  method AnalyzeSetOp(registers: JitRegisterValues, values: JitValueTracker, op: Op, context: Context, exitNext: bool, okBefore: bool)
    returns (decision: Decision, ok: bool)
    requires op.Set?
    modifies registers, values
    ensures (decision, State(registers, values, ok)) ==
            AnalyzeSet(old(State(registers, values, okBefore)), op, context, exitNext)
  {
    hide MarkStale, ListOf, Closure, Written, ValueFor;
    var reg := RegisterOf(op.target, context);
    ok := okBefore;
    if reg.None? {
      return Just(Copy), ok;
    }
    var known := ValueFor(values.locals, op.value);
    if Retains(known, reg.value, op.materialization, exitNext) {
      registers.values := registers.values[reg.value := known.tree];
      return Just(Drop), ok && !known.stale;
    }
    var list := MaterializeRegs(registers, values, Dependents(registers.values, reg.value));
    ClobberRegister(registers, values, reg.value);
    decision := Decision([list], Copy, []);
  }

  method AnalyzeSetIfOp(registers: JitRegisterValues, values: JitValueTracker, op: Op, context: Context, ok: bool)
    returns (decision: Decision)
    requires op.SetIf?
    modifies registers, values
    ensures (decision, State(registers, values, ok)) == AnalyzeSetIf(old(State(registers, values, ok)), op, context)
  {
    hide MarkStale, ListOf, Closure, Written;
    var reg := RegisterOf(op.target, context);
    if reg.None? {
      return Just(Copy);
    }
    var first := MaterializeRegs(registers, values, {reg.value});
    var second := MaterializeRegs(registers, values, Dependents(registers.values, reg.value));
    ClobberRegister(registers, values, reg.value);
    decision := Decision([first, second], Copy, []);
  }

  method AnalyzeReadOp(registers: JitRegisterValues, values: JitValueTracker, op: Op, context: Context, ok: bool)
    returns (decision: Decision)
    requires op.Get? || op.Address?
    modifies registers, values
    ensures (decision, State(registers, values, ok)) == AnalyzeRead(old(State(registers, values, ok)), op, context)
  {
    hide MarkStale, ListOf, Closure, Written, RecordOp, ValueForAddress, RegsReadByAddress;
    decision := Just(Copy);
    if op.Get? {
      var reg := RegisterOf(op.source, context);
      if reg.Some? && reg.value in registers.values {
        decision := Just(Assign(registers.values[reg.value]));
      }
    } else {
      var known := ValueForAddress(op.operand, context, registers.values);
      if known.Known? {
        decision := Just(Assign(known.tree));
      } else {
        var list := MaterializeRegs(registers, values, RegsReadByAddress(op.operand, context, registers.values));
        decision := Decision([list], Copy, []);
      }
    }
    values.locals := RecordOp(values.locals, op, context, registers.values);
  }

  method AnalyzeOperation(
      registers: JitRegisterValues, values: JitValueTracker, op: Op, context: Context, exitNext: bool, blockEnd: bool,
      okBefore: bool)
    returns (decision: Decision, ok: bool)
    modifies registers, values
    ensures (decision, State(registers, values, ok)) ==
            AnalyzeOp(old(State(registers, values, okBefore)), op, context, exitNext, blockEnd)
  {
    hide MarkStale, ListOf, Closure, Written, RecordOp, AnalyzeSet, AnalyzeSetIf, AnalyzeRead, IsExit;
    ok := okBefore;
    if blockEnd {
      var list := MaterializeRegs(registers, values, registers.values.Keys);
      return Decision([list], Copy, []), ok;
    }
    if IsExit(op, context) {
      var list := MaterializeRegs(registers, values, registers.values.Keys);
      return Decision([], Copy, list), ok;
    }
    if op.Get? || op.Address? {
      decision := AnalyzeReadOp(registers, values, op, context, ok);
    } else if op.Set? {
      decision, ok := AnalyzeSetOp(registers, values, op, context, exitNext, ok);
    } else if op.SetIf? {
      decision := AnalyzeSetIfOp(registers, values, op, context, ok);
    } else {
      values.locals := RecordOp(values.locals, op, context, registers.values);
      decision := Just(Copy);
    }
  }

  datatype InstructionPlan = InstructionPlan(entry: Materialization, decisions: seq<Decision>)

  function Entry(instruction: Instruction, values: Values): Materialization {
    if AnyFault(instruction.ops, instruction.context) then All(Analysis(values, [], true)) else []
  }

  function EntryAnalysis(instruction: Instruction, values: Values): Analysis {
    var start := Analysis(values, [], true);
    if AnyFault(instruction.ops, instruction.context) then Flushed(start) else start
  }

  method AnyFaultIn(instruction: Instruction) returns (found: bool)
    ensures found == AnyFault(instruction.ops, instruction.context)
  {
    found := false;
    for j := 0 to |instruction.ops|
      invariant !found && forall k | 0 <= k < j :: !CanFault(instruction.ops[k], instruction.context.operands)
    {
      if CanFault(instruction.ops[j], instruction.context.operands) {
        return true;
      }
    }
  }

  lemma AnalyzeFrom(ops: seq<Op>, j: nat, context: Context, last: bool, analysis: Analysis)
    requires j < |ops|
    ensures
      var exitNext := j + 1 < |ops| && IsExit(ops[j + 1], context);
      var blockEnd := last && j + 1 == |ops| && IsTerminator(ops[j]) && !IsExit(ops[j], context);
      var here := AnalyzeOp(analysis, ops[j], context, exitNext, blockEnd);
      var rest := AnalyzeOps(ops[j + 1..], context, last, here.1);
      AnalyzeOps(ops[j..], context, last, analysis) == ([here.0] + rest.0, rest.1)
  {
    hide AnalyzeOp, IsExit;
    assert ops[j..][0] == ops[j] && ops[j..][1..] == ops[j + 1..];
  }

  lemma AnalyzedNothing(ops: seq<Op>, context: Context, last: bool, analysis: Analysis)
    ensures AnalyzeOps(ops[|ops|..], context, last, analysis) == ([], analysis)
    ensures ops[0..] == ops
  {
  }

  method AnalyzeBody(registers: JitRegisterValues, values: JitValueTracker, instruction: Instruction, last: bool)
    returns (decisions: seq<Decision>, ok: bool)
    modifies registers, values
    ensures
      (decisions, State(registers, values, ok)) ==
      AnalyzeOps(instruction.ops, instruction.context, last, old(State(registers, values, true)))
  {
    hide MarkStale, ListOf, Closure, Written, AnalyzeOp, AnalyzeOps;
    var ops, context := instruction.ops, instruction.context;
    ok := true;
    decisions := [];
    ghost var all := AnalyzeOps(ops, context, last, State(registers, values, ok));
    AnalyzedNothing(ops, context, last, State(registers, values, ok));
    for j := 0 to |ops|
      invariant
        var rest := AnalyzeOps(ops[j..], context, last, State(registers, values, ok));
        decisions + rest.0 == all.0 && rest.1 == all.1
    {
      AnalyzeFrom(ops, j, context, last, State(registers, values, ok));
      var exitNext := j + 1 < |ops| && IsExit(ops[j + 1], context);
      var blockEnd := last && j + 1 == |ops| && IsTerminator(ops[j]) && !IsExit(ops[j], context);
      var decision;
      decision, ok := AnalyzeOperation(registers, values, ops[j], context, exitNext, blockEnd, ok);
      decisions := decisions + [decision];
    }
    AnalyzedNothing(ops, context, last, State(registers, values, ok));
    assert decisions + [] == decisions;
  }

  method AnalyzeInstruction(registers: JitRegisterValues, instruction: Instruction, last: bool)
    returns (plan: InstructionPlan, ok: bool)
    modifies registers
    ensures
      var analyzed := AnalyzeOps(instruction.ops, instruction.context, last, EntryAnalysis(instruction, old(registers.values)));
      && plan == InstructionPlan(Entry(instruction, old(registers.values)), analyzed.0)
      && registers.values == analyzed.1.values && ok == analyzed.1.ok
  {
    hide MarkStale, ListOf, Closure, Written, AnalyzeOps, AnyFault;
    var values := new JitValueTracker();
    var entry: Materialization := [];
    var faults := AnyFaultIn(instruction);
    if faults {
      entry := MaterializeRegs(registers, values, registers.values.Keys);
    }
    StartsEmpty(Written(entry));
    var decisions;
    decisions, ok := AnalyzeBody(registers, values, instruction, last);
    plan := InstructionPlan(entry, decisions);
  }

  lemma StartsEmpty(written: set<Reg>)
    ensures MarkStale([], written) == []
  {
  }

  /** The plans of a block, in order. */
  function AnalyzeBlock(block: Block, values: Values): (r: (seq<InstructionPlan>, bool))
    ensures |r.0| == |block|
    ensures forall i | 0 <= i < |block| :: |r.0[i].decisions| == |block[i].ops|
  {
    if block == [] then ([], true)
    else
      var analyzed := AnalyzeOps(block[0].ops, block[0].context, |block| == 1, EntryAnalysis(block[0], values));
      var rest := AnalyzeBlock(block[1..], analyzed.1.values);
      ([InstructionPlan(Entry(block[0], values), analyzed.0)] + rest.0, analyzed.1.ok && rest.1)
  }

  lemma AnalyzeBlockFrom(block: Block, i: nat, values: Values)
    requires i < |block|
    ensures
      var analyzed := AnalyzeOps(block[i].ops, block[i].context, i + 1 == |block|, EntryAnalysis(block[i], values));
      var rest := AnalyzeBlock(block[i + 1..], analyzed.1.values);
      AnalyzeBlock(block[i..], values) ==
      ([InstructionPlan(Entry(block[i], values), analyzed.0)] + rest.0, analyzed.1.ok && rest.1)
  {
    hide AnalyzeOps, EntryAnalysis, Entry;
    assert block[i..][0] == block[i] && block[i..][1..] == block[i + 1..];
  }

  method AnalyzeJitRegisterValues(block: Block) returns (plans: seq<InstructionPlan>, ok: bool)
    ensures (plans, ok) == AnalyzeBlock(block, map[])
  {
    hide AnalyzeOps, EntryAnalysis, Entry, AnalyzeBlock;
    var registers := new JitRegisterValues();
    plans, ok := [], true;
    ghost var all := AnalyzeBlock(block, map[]);
    assert block[0..] == block;
    for i := 0 to |block|
      invariant
        var rest := AnalyzeBlock(block[i..], registers.values);
        plans + rest.0 == all.0 && (ok && rest.1) == all.1
    {
      AnalyzeBlockFrom(block, i, registers.values);
      var plan, fine := AnalyzeInstruction(registers, block[i], i + 1 == |block|);
      AddedFirst(plans, plan, AnalyzeBlock(block[i + 1..], registers.values).0);
      plans := plans + [plan];
      ok := ok && fine;
    }
    NoPlans(block, registers.values);
    assert plans + [] == plans;
  }

  lemma AddedFirst(plans: seq<InstructionPlan>, plan: InstructionPlan, rest: seq<InstructionPlan>)
    ensures plans + [plan] + rest == plans + ([plan] + rest)
  {
  }

  lemma NoPlans(block: Block, values: Values)
    ensures AnalyzeBlock(block[|block|..], values) == ([], true)
  {
  }

  // ---------- the rewrite ----------

  class JitInstructionRewrite {
    var ops: seq<Op>
    var values: Tracker
    var nextVarId: VarId
    // Whether no stale variable has been reused.
    var ok: bool

    ghost function View(): Rewrite
      reads this
    {
      Rewrite(values, nextVarId, ok)
    }

    constructor (instruction: Instruction)
      ensures ops == [] && View() == Rewrite([], NextVarId(instruction.ops), true)
    {
      ops, values, ok := [], [], true;
      nextVarId := NextVarId(instruction.ops);
    }

    method Record(id: VarId, tree: Tree)
      modifies `values
      ensures values == RegisterValues.Record(old(values), id, Known(tree, false))
    {
      values := RegisterValues.Record(values, id, Known(tree, false));
    }

    /** Reuse a variable with this tree, or emit the code that computes it into a new one. */
    method EmitJitValueRef(tree: Tree) returns (ref: Value)
      modifies this
      ensures
        var emission := EmitRef(old(View()), tree);
        ops == old(ops) + emission.ops && ref == emission.ref && View() == emission.rewrite
      decreases tree, 1
    {
      hide FirstWith, RegisterValues.Record;
      if tree.ConstTree? {
        assert ops == old(ops) + [];
        return Const(tree.value);
      }
      var existing := FirstWith(values, tree);
      if existing.Some? {
        ok := ok && !existing.value.stale;
        assert ops == old(ops) + [];
        return Var(existing.value.id);
      }
      var dst := nextVarId;
      nextVarId := nextVarId + 1;
      AssignJitValue(dst, tree);
      Record(dst, tree);
      ref := Var(dst);
    }

    method AssignJitValue(dst: VarId, tree: Tree)
      modifies this
      ensures
        var code := EmitInto(old(View()), dst, tree);
        ops == old(ops) + code.0 && View() == code.1
      decreases tree, 0
    {
      hide FirstWith, EmitRef;
      match tree
      case ConstTree(value) => ops := ops + [ValueConst(dst, value)];
      case RegTree(reg) => ops := ops + [Get(dst, RegStorage(reg), W32, false)];
      case UnaryTree(operator, a) =>
        var x := EmitJitValueRef(a);
        ops := ops + [ValueUnary(dst, operator, x)];
      case BinaryTree(operator, a, b) =>
        var x := EmitJitValueRef(a);
        var y := EmitJitValueRef(b);
        ops := ops + [ValueBinary(dst, operator, x, y)];
    }

    /** Write back a list of registers: first all the references, then all the writes. */
    method MaterializeJitRegisterValues(list: Materialization)
      modifies this
      ensures
        var code := EmitMaterialization(old(View()), list);
        ops == old(ops) + code.0 && View() == code.1
    {
      hide EmitRef, MarkStale, Written;
      var sets: seq<Op> := [];
      ghost var before, started := View(), ops;
      ghost var all := EmitRefs(before, list);
      assert list[0..] == list;
      for i := 0 to |list|
        invariant
          var rest := EmitRefs(View(), list[i..]);
          ops + rest.0 == started + all.0 && sets + rest.1 == all.1 && rest.2 == all.2
      {
        assert list[i..][0] == list[i] && list[i..][1..] == list[i + 1..];
        if list[i].tree != RegTree(list[i].reg) {
          var ref := EmitJitValueRef(list[i].tree);
          sets := sets + [Set(RegStorage(list[i].reg), ref, W32, true)];
        }
      }
      assert ops + [] == ops && sets + [] == sets;
      ops := ops + sets;
      values := MarkStale(values, Written(list));
    }

    method EmitAll(lists: seq<Materialization>)
      modifies this
      ensures
        var code := EmitMaterializations(old(View()), lists);
        ops == old(ops) + code.0 && View() == code.1
    {
      hide EmitMaterialization;
      ghost var started := ops;
      ghost var all := EmitMaterializations(View(), lists);
      assert lists[0..] == lists;
      for i := 0 to |lists|
        invariant
          var rest := EmitMaterializations(View(), lists[i..]);
          ops + rest.0 == started + all.0 && rest.1 == all.1
      {
        assert lists[i..][0] == lists[i] && lists[i..][1..] == lists[i + 1..];
        MaterializeJitRegisterValues(lists[i]);
      }
      assert ops + [] == ops;
    }

    /** Copy, leave out or replace one operation. */
    method PropagateAction(action: Action, op: Op, context: Context)
      modifies this
      ensures
        var code := EmitAction(old(View()), action, op, context);
        ops == old(ops) + code.0 && View() == code.1
    {
      hide MarkStale, RecordOp, EmitInto, RegisterValues.Record;
      match action
      case Drop => assert ops + [] == ops;
      case Copy =>
        ops := ops + [op];
        values := MarkStale(RecordOp(values, op, context, map[]), Writes(op, context));
      case Assign(tree) =>
        if Dst(op).Some? {
          AssignJitValue(Dst(op).value, tree);
          Record(Dst(op).value, tree);
        } else {
          assert ops + [] == ops;
        }
    }

    method PropagateOp(decision: Decision, op: Op, context: Context)
      modifies this
      ensures
        var code := EmitOp(old(View()), decision, op, context);
        ops == old(ops) + code.0 && View() == code.1
    {
      hide EmitMaterialization, EmitMaterializations, EmitAction;
      EmitAll(decision.before);
      if IsTerminator(op) {
        MaterializeJitRegisterValues(decision.after);
      }
      PropagateAction(decision.action, op, context);
      if !IsTerminator(op) {
        MaterializeJitRegisterValues(decision.after);
      }
    }

    method PropagateOps(decisions: seq<Decision>, source: seq<Op>, context: Context)
      requires |decisions| == |source|
      modifies this
      ensures
        var code := EmitOps(old(View()), decisions, source, context);
        ops == old(ops) + code.0 && View() == code.1
    {
      hide EmitOp;
      ghost var started := ops;
      ghost var all := EmitOps(View(), decisions, source, context);
      assert decisions[0..] == decisions && source[0..] == source;
      for j := 0 to |source|
        invariant
          var rest := EmitOps(View(), decisions[j..], source[j..], context);
          ops + rest.0 == started + all.0 && rest.1 == all.1
      {
        assert decisions[j..][0] == decisions[j] && decisions[j..][1..] == decisions[j + 1..];
        assert source[j..][0] == source[j] && source[j..][1..] == source[j + 1..];
        PropagateOp(decisions[j], source[j], context);
      }
      assert ops + [] == ops;
    }
  }

  function RewriteInstruction(instruction: Instruction, plan: InstructionPlan): (r: (Instruction, bool))
    requires |plan.decisions| == |instruction.ops|
  {
    var before := EmitMaterialization(Rewrite([], NextVarId(instruction.ops), true), plan.entry);
    var code := EmitOps(before.1, plan.decisions, instruction.ops, instruction.context);
    (instruction.(ops := before.0 + code.0), code.1.ok)
  }

  method PropagateInstructionRegisterValues(instruction: Instruction, plan: InstructionPlan)
    returns (after: Instruction, ok: bool)
    requires |plan.decisions| == |instruction.ops|
    ensures (after, ok) == RewriteInstruction(instruction, plan)
  {
    hide EmitMaterialization, EmitOps;
    var rewrite := new JitInstructionRewrite(instruction);
    rewrite.MaterializeJitRegisterValues(plan.entry);
    assert [] + rewrite.ops == rewrite.ops;
    ghost var before := EmitMaterialization(Rewrite([], NextVarId(instruction.ops), true), plan.entry);
    assert rewrite.ops == before.0;
    rewrite.PropagateOps(plan.decisions, instruction.ops, instruction.context);
    after, ok := instruction.(ops := rewrite.ops), rewrite.ok;
  }

  function RewriteBlock(block: Block, plans: seq<InstructionPlan>): (r: (Block, bool))
    requires |plans| == |block| && forall i | 0 <= i < |block| :: |plans[i].decisions| == |block[i].ops|
  {
    if block == [] then ([], true)
    else
      var here := RewriteInstruction(block[0], plans[0]);
      var rest := RewriteBlock(block[1..], plans[1..]);
      ([here.0] + rest.0, here.1 && rest.1)
  }

  /** Analysing the whole block first and rewriting it afterwards is the same as going instruction by instruction. */
  lemma {:induction false} PassesAgree(block: Block, values: Values)
    ensures
      var analyzed := AnalyzeBlock(block, values);
      var rewritten := RewriteBlock(block, analyzed.0);
      PropagateBlock(block, values) == (rewritten.0, analyzed.1 && rewritten.1)
    decreases block
  {
    hide AnalyzeOps, EmitOps, EmitMaterialization, All, Flushed, AnyFault;
    if block != [] {
      var analyzed := AnalyzeOps(block[0].ops, block[0].context, |block| == 1, EntryAnalysis(block[0], values));
      PassesAgree(block[1..], analyzed.1.values);
      assert AnalyzeBlock(block, values).0[1..] == AnalyzeBlock(block[1..], analyzed.1.values).0;
    }
  }

  method PropagateJitRegisterValues(block: Block) returns (after: Block, ok: bool)
    ensures (after, ok) == PropagateBlock(block, map[])
  {
    hide AnalyzeBlock, PropagateBlock, RewriteInstruction;
    var plans, fine := AnalyzeJitRegisterValues(block);
    PassesAgree(block, map[]);
    after, ok := [], fine;
    ghost var all := RewriteBlock(block, plans);
    assert block[0..] == block && plans[0..] == plans;
    for i := 0 to |block|
      invariant
        var rest := RewriteBlock(block[i..], plans[i..]);
        after + rest.0 == all.0 && (ok && rest.1) == (fine && all.1)
    {
      assert block[i..][0] == block[i] && block[i..][1..] == block[i + 1..];
      assert plans[i..][0] == plans[i] && plans[i..][1..] == plans[i + 1..];
      var instruction, here := PropagateInstructionRegisterValues(block[i], plans[i]);
      after := after + [instruction];
      ok := ok && here;
    }
    assert after + [] == after;
  }
}
