/** The expression builder gives variables only to values that need one; every other value is folded into its use. */
module Inlining {
  import opened X86Types
  import opened Flags
  import opened Ir
  import opened Expressions

  /** The operation takes the variable where the expression block has room for a reference only. */
  predicate WantsReference(op: Op, id: VarId) {
    match op
    case SetIf(_, _, value, _) => value == Var(id)
    case FlagsSet(_, _, inputs) => exists name <- inputs :: inputs[name] == Var(id)
    case ProducerCondition(_, _, _, _, inputs) => exists name <- inputs :: inputs[name] == Var(id)
    case _ => false
  }

  predicate ReadsMemory(source: Storage, context: Context) {
    source.Mem? || (source.Operand? && (source.index < |context.operands| ==> context.operands[source.index].MemBinding?))
  }

  /** A write that may change what the operation read comes before the first use of it. */
  ghost predicate OverwrittenFirst(block: Instruction, j: nat, k: nat)
    requires j < |block.ops| && block.ops[j].Get?
  {
    && j < k < |block.ops| && Target(block.ops[k]).Some?
    && MayAlias(Target(block.ops[k]).value, block.ops[j].source, block.context)
    && forall i | j < i <= k :: OpUses(block.ops[i], block.ops[j].dst) == 0
  }

  /** What an operation computes cannot be computed later. */
  ghost predicate CannotWait(block: Instruction, j: nat)
    requires j < |block.ops|
  {
    var op := block.ops[j];
    || op.FlagsCondition?
    || (op.Get? && ReadsMemory(op.source, block.context))
    || (op.Get? && exists k: nat :: OverwrittenFirst(block, j, k))
  }

  ghost predicate NeedsVariable(block: Instruction, id: VarId) {
    || CountUses(block.ops, id) > 1
    || (exists op <- block.ops :: WantsReference(op, id))
    || exists j: nat :: j < |block.ops| && Dst(block.ops[j]) == Some(id) && CannotWait(block, j)
  }

  ghost predicate LetsNeeded(block: Instruction, ops: seq<ExprOp>) {
    forall op <- ops :: op.Let? ==> NeedsVariable(block, op.dst)
  }

  // ---------- the proof ----------

  lemma {:induction false} BarrierIsAWrite(block: Instruction, j: nat, n: nat)
    requires j < n <= |block.ops| && block.ops[j].Get?
    requires forall i | j < i < n :: OpUses(block.ops[i], block.ops[j].dst) == 0
    requires CrossesBarrier(block.ops[j].dst, block.ops[j].source, block.ops[n..], block.context)
    ensures exists k: nat :: OverwrittenFirst(block, j, k)
    decreases |block.ops| - n
  {
    hide OpUses, MayAlias;
    var rest := block.ops[n..];
    assert rest[0] == block.ops[n] && rest[1..] == block.ops[n + 1..];
    if Target(rest[0]).Some? && MayAlias(Target(rest[0]).value, block.ops[j].source, block.context) {
      assert OverwrittenFirst(block, j, n);
    } else {
      BarrierIsAWrite(block, j, n + 1);
    }
  }

  lemma DefinedNeeds(block: Instruction, build: Build, j: nat, expr: Expr, inlineable: bool)
    requires LetsNeeded(block, build.ops) && j < |block.ops| && Dst(block.ops[j]).Some?
    requires !inlineable ==> CannotWait(block, j)
    ensures LetsNeeded(block, DefineValue(block, build, Dst(block.ops[j]).value, expr, inlineable).ops)
  {
    hide CountUses, CannotWait, WantsReference;
    var id := Dst(block.ops[j]).value;
    if ConditionallyWritten(block.ops, id) {
      var op :| op in block.ops && op.SetIf? && op.value == Var(id);
      SetIfWants(op, id);
    }
  }

  lemma SetIfWants(op: Op, id: VarId)
    requires op.SetIf? && op.value == Var(id)
    ensures WantsReference(op, id)
  {
  }

  lemma MaterializedNeeds(block: Instruction, build: Build, value: Value)
    requires LetsNeeded(block, build.ops)
    requires value.Var? ==> exists op <- block.ops :: WantsReference(op, value.id)
    ensures LetsNeeded(block, Materialize(build, value).0.ops)
  {
    hide CountUses, CannotWait, WantsReference;
  }

  lemma {:induction false} InputsNeed(block: Instruction, build: Build, inputs: InputRefs, names: seq<InputName>)
    requires LetsNeeded(block, build.ops)
    requires forall name <- inputs :: inputs[name].Var? ==> exists op <- block.ops :: WantsReference(op, inputs[name].id)
    ensures LetsNeeded(block, MaterializeInputs(build, inputs, names).0.ops)
    decreases names
  {
    hide LetsNeeded, Materialize, WantsReference;
    if names != [] {
      if names[0] in inputs {
        MaterializedNeeds(block, build, inputs[names[0]]);
        InputsNeed(block, Materialize(build, inputs[names[0]]).0, inputs, names[1..]);
      } else {
        InputsNeed(block, build, inputs, names[1..]);
      }
    }
  }

  lemma InputsWanted(block: Instruction, j: nat)
    requires j < |block.ops| && (block.ops[j].FlagsSet? || block.ops[j].ProducerCondition?)
    ensures forall name <- block.ops[j].inputs :: block.ops[j].inputs[name].Var? ==>
              exists op <- block.ops :: WantsReference(op, block.ops[j].inputs[name].id)
  {
    forall name <- block.ops[j].inputs | block.ops[j].inputs[name].Var?
      ensures exists op <- block.ops :: WantsReference(op, block.ops[j].inputs[name].id)
    {
      assert WantsReference(block.ops[j], block.ops[j].inputs[name].id);
    }
  }

  lemma GetWaits(block: Instruction, j: nat)
    requires j < |block.ops| && block.ops[j].Get?
    requires !CanInlineGet(block.ops[j].source, block.context) ||
             CrossesBarrier(block.ops[j].dst, block.ops[j].source, block.ops[j + 1..], block.context)
    ensures CannotWait(block, j)
  {
    if CanInlineGet(block.ops[j].source, block.context) { BarrierIsAWrite(block, j, j + 1); }
  }

  lemma EmittedNeeds(block: Instruction, build: Build, bindings: Bindings, op: ExprOp)
    requires LetsNeeded(block, build.ops) && !op.Let?
    ensures LetsNeeded(block, Emit(build, bindings, op).ops)
  {
    hide NeedsVariable;
  }

  lemma OpNeeds(block: Instruction, build: Build, j: nat)
    requires LetsNeeded(block, build.ops) && j < |block.ops|
    ensures LetsNeeded(block, BuildOp(block, build, block.ops[j], block.ops[j + 1..]).ops)
  {
    hide LetsNeeded, CountUses, CrossesBarrier, CanInlineGet, ConditionallyWritten, DefineValue, Emit, MaterializeInputs,
      Materialize, ExprFor, AfterUse, StorageExprOf, AfterStorage, WantsReference, CannotWait;
    var op, b := block.ops[j], build.bindings;
    match op
    case Get(dst, source, width, signed) =>
      var inlineable := CanInlineGet(source, block.context) && !CrossesBarrier(dst, source, block.ops[j + 1..], block.context);
      if !inlineable { GetWaits(block, j); }
      DefinedNeeds(block, build.(bindings := AfterStorage(source, b)), j, Source(StorageExprOf(source, b), width, signed),
                   inlineable);
    case Address(_, operand) => DefinedNeeds(block, build, j, AddressOf(operand), true);
    case ValueBinary(_, operator, x, y) =>
      var b1 := AfterUse(x, b);
      DefinedNeeds(block, build.(bindings := AfterUse(y, b1)), j, BinaryExpr(operator, ExprFor(x, b), ExprFor(y, b1)), true);
    case ValueUnary(_, operator, x) =>
      DefinedNeeds(block, build.(bindings := AfterUse(x, b)), j, UnaryExpr(operator, ExprFor(x, b)), true);
    case FlagsCondition(_, cc) =>
      ConditionsCannotWait(block, j);
      DefinedNeeds(block, build, j, FlagsTest(cc), false);
    case ProducerCondition(_, cc, producer, width, inputs) =>
      InputsWanted(block, j);
      InputsNeed(block, build, inputs, ConditionNames(op));
      var r := MaterializeInputs(build, inputs, ConditionNames(op));
      DefinedNeeds(block, r.0, j, ProducerTest(cc, producer, width, r.1), true);
    case FlagsSet(producer, width, inputs) =>
      InputsWanted(block, j);
      InputsNeed(block, build, inputs, INPUT_NAMES);
      var r := MaterializeInputs(build, inputs, INPUT_NAMES);
      EmittedNeeds(block, r.0, r.0.bindings, PlainOp(FlagsSet(producer, width, r.1)));
    case SetIf(condition, target, value, width) =>
      var b1 := AfterUse(condition, b);
      var start := build.(bindings := AfterStorage(target, b1));
      if value.Var? { SetIfWants(op, value.id); }
      MaterializedNeeds(block, start, value);
      var last := Materialize(start, value);
      EmittedNeeds(block, last.0, last.0.bindings,
                   SetIfExpr(ExprFor(condition, b), StorageExprOf(target, b1), Ref(last.1), width));
    case ValueConst(_, _) =>
    case _ =>
      EffectNeeds(block, build, op, block.ops[j + 1..]);
  }

  lemma ConditionsCannotWait(block: Instruction, j: nat)
    requires j < |block.ops| && block.ops[j].FlagsCondition?
    ensures CannotWait(block, j)
  {
  }

  lemma EffectNeeds(block: Instruction, build: Build, op: Op, rest: seq<Op>)
    requires LetsNeeded(block, build.ops) && Dst(op).None? && !op.SetIf? && !op.FlagsSet?
    ensures LetsNeeded(block, BuildOp(block, build, op, rest).ops)
  {
    hide NeedsVariable, ExprFor, AfterUse, StorageExprOf, AfterStorage;
  }

  lemma {:induction false} AllNeed(block: Instruction, build: Build, j: nat)
    requires LetsNeeded(block, build.ops) && j <= |block.ops|
    ensures LetsNeeded(block, BuildFrom(block, build, block.ops[j..]).ops)
    decreases |block.ops| - j
  {
    hide LetsNeeded, BuildOp;
    if j < |block.ops| {
      assert block.ops[j..][0] == block.ops[j] && block.ops[j..][1..] == block.ops[j + 1..];
      OpNeeds(block, build, j);
      AllNeed(block, BuildOp(block, build, block.ops[j], block.ops[j + 1..]), j + 1);
    }
  }

  /**
   A variable of the expression block is used more than once, or where only a reference fits, or holds what must be
   computed at once: a condition on the flags, a read of memory, or a read that a write follows before its use.
   */
  lemma VariablesAreNeeded(block: Instruction)
    ensures LetsNeeded(block, BuildIrExpressionBlock(block))
  {
    hide BuildFrom, NeedsVariable;
    AllNeed(block, Build(map[], []), 0);
    assert block.ops[0..] == block.ops;
  }
}
