/**
 What propagation achieves: a register write of the instruction is held back exactly when its value can be written as a
 tree over registers and constants; the writes that remain are the others, in their order.
 */
module PropagationEffect {
  import opened X86Types
  import opened Ir
  import opened RegisterValues
  import opened RegisterPropagation
  import StaleReuse

  // ---------- values that are trees ----------

  /** The value is made of registers and constants, given the variables that are. */
  predicate Computable(value: Value, known: set<VarId>) {
    match value
    case Var(id) => id in known
    case Const(_) => true
    case NextEip => false
  }

  predicate IsComputed(op: Op, context: Context, known: set<VarId>) {
    match op
    case Get(_, source, _, _) =>
      || source.RegStorage?
      || (source.Operand? && source.index < |context.operands| && !context.operands[source.index].MemBinding?)
    case Address(_, operand) =>
      operand < |context.operands| && context.operands[operand].MemBinding? &&
      (context.operands[operand].ea.index.None? || context.operands[operand].ea.scale == 1)
    case ValueConst(_, _) => true
    case ValueBinary(_, _, a, b) => Computable(a, known) && Computable(b, known)
    case ValueUnary(_, _, a) => Computable(a, known)
    case _ => false
  }

  function Learn(op: Op, context: Context, known: set<VarId>): set<VarId> {
    if op.Get? || op.Address? || op.ValueConst? || op.ValueBinary? || op.ValueUnary? then
      if IsComputed(op, context, known) then known + {op.dst} else known - {op.dst}
    else known
  }

  /** The variables made of registers and constants before operation number `j`. */
  function KnownBefore(ops: seq<Op>, context: Context, j: nat): set<VarId>
    requires j <= |ops|
  {
    if j == 0 then {} else Learn(ops[j - 1], context, KnownBefore(ops, context, j - 1))
  }

  ghost predicate Knows(tracker: Tracker, known: set<VarId>) {
    forall id: VarId :: Lookup(tracker, id).Some? <==> id in known
  }

  lemma {:induction false} LookupForgotten(tracker: Tracker, id: VarId, other: VarId)
    ensures Lookup(Forget(tracker, id), other) == if other == id then None else Lookup(tracker, other)
  {
    if tracker != [] {
      LookupForgotten(tracker[1..], id, other);
      var rest := Forget(tracker[1..], id);
      assert ([tracker[0]] + rest)[1..] == rest;
    }
  }

  lemma LookupRecorded(tracker: Tracker, id: VarId, known: Known, other: VarId)
    ensures Lookup(Record(tracker, id, known), other).Some? <==>
            if other == id then known.Known? else Lookup(tracker, other).Some?
  {
    LookupForgotten(tracker, id, other);
    if known.Known? {
      StaleReuse.LookupAppended(Forget(tracker, id), Entry(id, known.tree, known.stale), other);
    }
  }

  lemma Recorded(tracker: Tracker, op: Op, context: Context, values: Values, known: set<VarId>)
    requires Knows(tracker, known)
    ensures Knows(RecordOp(tracker, op, context, values), Learn(op, context, known))
  {
    hide Lookup, Forget, Sum, AddressTerms, Record;
    if op.Get? || op.Address? || op.ValueConst? || op.ValueBinary? || op.ValueUnary? {
      var value := TreeFor(tracker, op, context, values);
      assert value.Known? <==> IsComputed(op, context, known);
      forall id: VarId
        ensures Lookup(RecordOp(tracker, op, context, values), id).Some? <==> id in Learn(op, context, known)
      {
        LookupRecorded(tracker, op.dst, value, id);
      }
    }
  }

  function TreeFor(tracker: Tracker, op: Op, context: Context, values: Values): Known {
    match op
    case Get(_, _, _, _) => ValueForGet(op, context, values)
    case Address(_, operand) => ValueForAddress(operand, context, values)
    case ValueConst(_, constant) => Known(ConstTree(constant), false)
    case ValueBinary(_, operator, a, b) =>
      var x, y := ValueFor(tracker, a), ValueFor(tracker, b);
      if x.Known? && y.Known? then Known(BinaryTree(operator, x.tree, y.tree), x.stale || y.stale) else Unknown
    case ValueUnary(_, operator, a) =>
      var x := ValueFor(tracker, a);
      if x.Known? then Known(UnaryTree(operator, x.tree), x.stale) else Unknown
    case _ => Unknown
  }

  lemma Marked(tracker: Tracker, regs: set<Reg>, known: set<VarId>)
    requires Knows(tracker, known)
    ensures Knows(MarkStale(tracker, regs), known)
  {
    hide MarkStale, Lookup;
    forall id: VarId ensures Lookup(MarkStale(tracker, regs), id).Some? <==> id in known {
      StaleReuse.LookupMarked(tracker, regs, id);
    }
  }

  lemma Analyzed(analysis: Analysis, op: Op, context: Context, exitNext: bool, blockEnd: bool, known: set<VarId>)
    requires Knows(analysis.tracker, known) && (blockEnd ==> IsTerminator(op))
    ensures Knows(AnalyzeOp(analysis, op, context, exitNext, blockEnd).1.tracker, Learn(op, context, known))
  {
    hide Knows, RecordOp, MarkStale, Closure, ListOf, Written, Dependents, Retains, ValueForAddress, Computable, RegsReadByAddress;
    Recorded(analysis.tracker, op, context, analysis.values, known);
    if op.Address? {
      var regs := RegsReadByAddress(op.operand, context, analysis.values);
      var after := AfterMaterializing(analysis, regs);
      Marked(analysis.tracker, Written(ListOf(analysis.values, regs)), known);
      Recorded(after.tracker, op, context, after.values, known);
    } else if op.Set? || op.SetIf? {
      var reg := RegisterOf(op.target, context);
      if reg.Some? { Clobbered(analysis, reg.value, known); }
    } else if IsTerminator(op) {
      Marked(analysis.tracker, Written(ListOf(analysis.values, analysis.values.Keys)), known);
    }
  }

  lemma Clobbered(analysis: Analysis, reg: Reg, known: set<VarId>)
    requires Knows(analysis.tracker, known)
    ensures
      var dependents := Dependents(analysis.values, reg);
      Knows(Clobber(AfterMaterializing(analysis, dependents), reg).tracker, known)
    ensures
      var middle := AfterMaterializing(analysis, {reg});
      Knows(Clobber(AfterMaterializing(middle, Dependents(middle.values, reg)), reg).tracker, known)
  {
    hide Knows, MarkStale, Closure, ListOf, Written, Dependents;
    var middle := AfterMaterializing(analysis, {reg});
    Flushing(analysis, Dependents(analysis.values, reg), known);
    Flushing(analysis, {reg}, known);
    Flushing(middle, Dependents(middle.values, reg), known);
    Marked(AfterMaterializing(analysis, Dependents(analysis.values, reg)).tracker, {reg}, known);
    Marked(AfterMaterializing(middle, Dependents(middle.values, reg)).tracker, {reg}, known);
  }

  lemma Flushing(analysis: Analysis, regs: set<Reg>, known: set<VarId>)
    requires Knows(analysis.tracker, known)
    ensures Knows(AfterMaterializing(analysis, regs).tracker, known)
  {
    hide Knows, MarkStale, Closure, ListOf, Written;
    Marked(analysis.tracker, Written(ListOf(analysis.values, regs)), known);
  }

  // ---------- which writes are held back ----------

  lemma {:induction false} DecidedAt(ops: seq<Op>, context: Context, last: bool, analysis: Analysis, base: seq<Op>, n: nat, j: nat)
    requires n + j < |base| && ops == base[n..]
    requires Knows(analysis.tracker, KnownBefore(base, context, n))
    requires ops[j].Set? && RegisterOf(ops[j].target, context).Some?
    ensures
      var decision := AnalyzeOps(ops, context, last, analysis).0[j];
      && (decision.action.Drop? || decision.action.Copy?)
      && (decision.action.Drop? ==>
            !ops[j].materialization && Computable(ops[j].value, KnownBefore(base, context, n + j)))
      && (Computable(ops[j].value, KnownBefore(base, context, n + j)) ==>
            decision.action.Drop? || ops[j].materialization || ExitNext(base[n + j..], context))
    decreases j
  {
    hide AnalyzeOp, Knows, Lookup;
    var blockEnd := BlockEnd(ops, last) && !IsExit(ops[0], context);
    var here := AnalyzeOp(analysis, ops[0], context, ExitNext(ops, context), blockEnd);
    if j == 0 {
      WriteDecided(analysis, ops[0], context, ExitNext(ops, context), blockEnd, KnownBefore(base, context, n));
    } else {
      Analyzed(analysis, ops[0], context, ExitNext(ops, context), blockEnd, KnownBefore(base, context, n));
      assert ops[1..] == base[n + 1..] && ops[1..][j - 1] == ops[j];
      DecidedAt(ops[1..], context, last, here.1, base, n + 1, j - 1);
    }
  }

  lemma WriteDecided(analysis: Analysis, op: Op, context: Context, exitNext: bool, blockEnd: bool, known: set<VarId>)
    requires Knows(analysis.tracker, known) && op.Set? && RegisterOf(op.target, context).Some?
    requires blockEnd ==> IsTerminator(op)
    ensures
      var decision := AnalyzeOp(analysis, op, context, exitNext, blockEnd).0;
      && (decision.action.Drop? || decision.action.Copy?)
      && (decision.action.Drop? ==> !op.materialization && Computable(op.value, known))
      && (Computable(op.value, known) ==> decision.action.Drop? || op.materialization || exitNext)
  {
    hide Lookup, Closure, ListOf, Dependents;
  }

  // ---------- what remains ----------

  /** A write that is not itself a write-back. */
  predicate Ordinary(op: Op) {
    op.Set? && !op.materialization
  }

  function OrdinaryOf(ops: seq<Op>): seq<Op> {
    if ops == [] then [] else (if Ordinary(ops[0]) then [ops[0]] else []) + OrdinaryOf(ops[1..])
  }

  /** The ordinary writes that a decision lets through. */
  function LetThrough(ops: seq<Op>, decisions: seq<Decision>): seq<Op>
    requires |decisions| == |ops|
  {
    if ops == [] then []
    else (if Ordinary(ops[0]) && decisions[0].action.Copy? then [ops[0]] else []) + LetThrough(ops[1..], decisions[1..])
  }

  predicate NoneOrdinary(ops: seq<Op>) {
    forall op <- ops :: !Ordinary(op)
  }

  lemma {:induction false} OrdinaryAppend(first: seq<Op>, second: seq<Op>)
    ensures OrdinaryOf(first + second) == OrdinaryOf(first) + OrdinaryOf(second)
    decreases first
  {
    hide Ordinary;
    if first == [] {
      assert first + second == second;
    } else {
      assert (first + second)[1..] == first[1..] + second;
      OrdinaryAppend(first[1..], second);
    }
  }

  lemma {:induction false} NoneMeansNone(ops: seq<Op>)
    requires NoneOrdinary(ops)
    ensures OrdinaryOf(ops) == []
  {
    hide Ordinary;
    if ops != [] { NoneMeansNone(ops[1..]); }
  }

  lemma {:induction false} PartsAreNotWriting(rewrite: Rewrite, dst: VarId, tree: Tree)
    ensures NoneOrdinary(EmitInto(rewrite, dst, tree).0)
    decreases tree, 0
  {
    hide FirstWith, Record, EmitRef;
    match tree
    case UnaryTree(_, a) => RefIsNotWriting(rewrite, a);
    case BinaryTree(_, a, b) =>
      RefIsNotWriting(rewrite, a);
      RefIsNotWriting(EmitRef(rewrite, a).rewrite, b);
    case _ =>
  }

  lemma {:induction false} RefIsNotWriting(rewrite: Rewrite, tree: Tree)
    ensures NoneOrdinary(EmitRef(rewrite, tree).ops)
    decreases tree, 1
  {
    hide FirstWith, Record, EmitInto;
    PartsAreNotWriting(rewrite.(next := rewrite.next + 1), rewrite.next, tree);
  }

  lemma {:induction false} WriteBackIsNotOrdinary(rewrite: Rewrite, list: Materialization)
    ensures NoneOrdinary(EmitRefs(rewrite, list).0) && NoneOrdinary(EmitRefs(rewrite, list).1)
    decreases list
  {
    hide EmitRef;
    if list != [] {
      RefIsNotWriting(rewrite, list[0].tree);
      WriteBackIsNotOrdinary(rewrite, list[1..]);
      WriteBackIsNotOrdinary(EmitRef(rewrite, list[0].tree).rewrite, list[1..]);
    }
  }

  lemma {:induction false} WriteBacksAreNotOrdinary(rewrite: Rewrite, lists: seq<Materialization>)
    ensures NoneOrdinary(EmitMaterializations(rewrite, lists).0)
    decreases lists
  {
    hide EmitRefs, MarkStale, Written, Ordinary;
    if lists != [] {
      WriteBackIsNotOrdinary(rewrite, lists[0]);
      WriteBacksAreNotOrdinary(EmitMaterialization(rewrite, lists[0]).1, lists[1..]);
    }
  }

  lemma OpLetsThrough(rewrite: Rewrite, decision: Decision, op: Op, context: Context)
    ensures OrdinaryOf(EmitOp(rewrite, decision, op, context).0) == if Ordinary(op) && decision.action.Copy? then [op] else []
  {
    hide EmitMaterializations, EmitRefs, EmitInto, MarkStale, Written, Record, RecordOp, Ordinary, OrdinaryOf;
    var before := EmitMaterializations(rewrite, decision.before);
    WriteBacksAreNotOrdinary(rewrite, decision.before);
    NoneMeansNone(before.0);
    var start := if IsTerminator(op) then EmitMaterialization(before.1, decision.after).1 else before.1;
    var code := EmitAction(start, decision.action, op, context);
    ActionLetsThrough(start, decision.action, op, context);
    var flush := if IsTerminator(op) then before.1 else code.1;
    var after := EmitMaterialization(flush, decision.after).0;
    WriteBackIsNotOrdinary(flush, decision.after);
    NoneMeansNone(after);
    OrdinaryAppend(before.0, after);
    OrdinaryAppend(before.0 + after, code.0);
    OrdinaryAppend(before.0, code.0);
    OrdinaryAppend(before.0 + code.0, after);
  }

  lemma ActionLetsThrough(rewrite: Rewrite, action: Action, op: Op, context: Context)
    ensures OrdinaryOf(EmitAction(rewrite, action, op, context).0) == if Ordinary(op) && action.Copy? then [op] else []
  {
    hide EmitInto, MarkStale, Record, RecordOp;
    match action
    case Drop =>
    case Copy => assert [op][1..] == [];
    case Assign(tree) =>
      if Dst(op).Some? {
        PartsAreNotWriting(rewrite, Dst(op).value, tree);
        NoneMeansNone(EmitInto(rewrite, Dst(op).value, tree).0);
      }
  }

  lemma {:induction false} OpsLetThrough(rewrite: Rewrite, decisions: seq<Decision>, ops: seq<Op>, context: Context)
    requires |decisions| == |ops|
    ensures OrdinaryOf(EmitOps(rewrite, decisions, ops, context).0) == LetThrough(ops, decisions)
    decreases ops
  {
    hide EmitOp, Ordinary;
    if ops != [] {
      var here := EmitOp(rewrite, decisions[0], ops[0], context);
      OpLetsThrough(rewrite, decisions[0], ops[0], context);
      OpsLetThrough(here.1, decisions[1..], ops[1..], context);
      OrdinaryAppend(here.0, EmitOps(here.1, decisions[1..], ops[1..], context).0);
    }
  }

  /** The write may be left out: a whole register is written with a value made of registers and constants. */
  predicate CanWait(instruction: Instruction, j: nat)
    requires j < |instruction.ops| && instruction.ops[j].Set?
  {
    && RegisterOf(instruction.ops[j].target, instruction.context).Some?
    && Computable(instruction.ops[j].value, KnownBefore(instruction.ops, instruction.context, j))
  }

  /**
   The writes left in a propagated instruction, write-backs apart, are the instruction's own ones that were let
   through; a write is not let through only if it can wait, and if it can it is let through only right before an exit.
   */
  lemma OnlyWhatCannotWaitRemains(instruction: Instruction, last: bool, values: Values)
    ensures
      var decisions := AnalyzeOps(instruction.ops, instruction.context, last, Entered(instruction, values)).0;
      && OrdinaryOf(PropagateInstruction(instruction, last, values).instruction.ops) == LetThrough(instruction.ops, decisions)
      && forall j: nat | j < |instruction.ops| && Ordinary(instruction.ops[j]) ::
           && (!decisions[j].action.Copy? ==> CanWait(instruction, j))
           && (decisions[j].action.Copy? && CanWait(instruction, j) ==>
                 ExitNext(instruction.ops[j..], instruction.context))
  {
    hide AnalyzeOps, EmitOps, EmitMaterialization, EntryWriteBack, KnownBefore, Knows, OrdinaryOf, Computable;
    var ops, context, start := instruction.ops, instruction.context, Entered(instruction, values);
    var decisions := AnalyzeOps(ops, context, last, start).0;
    var list, rewrite := EntryWriteBack(instruction, values), Rewrite([], NextVarId(ops), true);
    var before := EmitMaterialization(rewrite, list);
    EntryIsNotOrdinary(rewrite, list);
    NoneMeansNone(before.0);
    OpsLetThrough(before.1, decisions, ops, context);
    OrdinaryAppend(before.0, EmitOps(before.1, decisions, ops, context).0);
    NothingKnown(instruction, values);
    forall j: nat | j < |ops| && Ordinary(ops[j])
      ensures !decisions[j].action.Copy? ==> CanWait(instruction, j)
      ensures decisions[j].action.Copy? && CanWait(instruction, j) ==> ExitNext(ops[j..], context)
    {
      if RegisterOf(ops[j].target, context).Some? {
        assert ops[0..] == ops;
        DecidedAt(ops, context, last, start, ops, 0, j);
      } else {
        MemoryWriteStays(ops, context, last, start, j);
      }
    }
  }

  lemma EntryIsNotOrdinary(rewrite: Rewrite, list: Materialization)
    ensures NoneOrdinary(EmitMaterialization(rewrite, list).0)
  {
    hide EmitRefs, Ordinary;
    WriteBackIsNotOrdinary(rewrite, list);
  }

  lemma NothingKnown(instruction: Instruction, values: Values)
    ensures Knows(Entered(instruction, values).tracker, KnownBefore(instruction.ops, instruction.context, 0))
  {
  }

  lemma {:induction false} MemoryWriteStays(ops: seq<Op>, context: Context, last: bool, analysis: Analysis, j: nat)
    requires j < |ops| && ops[j].Set? && RegisterOf(ops[j].target, context).None?
    ensures AnalyzeOps(ops, context, last, analysis).0[j].action.Copy?
    decreases j
  {
    hide Closure, ListOf, Dependents, Retains, RecordOp, RegisterOf;
    if j > 0 {
      hide AnalyzeOp;
      var here := AnalyzeOp(analysis, ops[0], context, ExitNext(ops, context), false);
      MemoryWriteStays(ops[1..], context, last, here.1, j - 1);
    }
  }
}
