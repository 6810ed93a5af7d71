/**
 From a flat list of operations to expressions. A value used at most once is not given a variable: its tree is put
 where it is used, unless a write in between might change what the tree reads.
 */
module Expressions {
  import opened X86Types
  import opened Flags
  import opened Conditions
  import opened Ir
  import DirectConditions

  datatype StorageExpr = OperandExpr(index: nat) | RegExpr(reg: Reg) | MemExpr(address: Expr)

  datatype Expr =
    | Ref(value: Value)
    | Source(source: StorageExpr, width: Width, signed: bool)
    | AddressOf(operand: nat)
    | FlagsTest(cc: Cc)
    | ProducerTest(cc: Cc, producer: Producer, width: Width, inputs: InputRefs)
    | BinaryExpr(binary: BinaryOperator, a: Expr, b: Expr)
    | UnaryExpr(unary: UnaryOperator, a: Expr)

  datatype ExprOp =
    | Let(dst: VarId, value: Expr)
    | SetExpr(target: StorageExpr, value: Expr, width: Width, materialization: bool)
    | SetIfExpr(condition: Expr, target: StorageExpr, value: Expr, width: Width)
    | PlainOp(op: Op)
    | JumpExpr(jumpTarget: Expr)
    | ConditionalJumpExpr(condition: Expr, taken: Expr, notTaken: Expr)
    | HostTrapExpr(vector: Expr)

  // ---------- what expressions mean ----------

  /** The value of a register, immediate or target operand; memory is not read inside an expression. */
  function ReadPlace(storage: Storage, width: Width, signed: bool, context: Context, m: Machine): Option<Word> {
    match PlaceOf(storage, width, context, m)
    case RegPlace(alias, access) => Some(Extended(Get(0, storage, width, signed), Mask32(ReadAlias(m.regs, alias), access)))
    case ConstPlace(value) => Some(Extended(Get(0, storage, width, signed), value))
    case _ => None
  }

  function EvalExpr(expr: Expr, context: Context, m: Machine): Option<Word> {
    match expr
    case Ref(value) => Eval(value, m.vars, context.nextEip)
    case Source(OperandExpr(index), width, signed) => ReadPlace(Operand(index), width, signed, context, m)
    case Source(RegExpr(reg), width, signed) => ReadPlace(RegStorage(reg), width, signed, context, m)
    case Source(MemExpr(_), _, _) => None
    case AddressOf(operand) => PureResult(Address(0, operand), context, m)
    case FlagsTest(cc) => PureResult(FlagsCondition(0, cc), context, m)
    case ProducerTest(cc, producer, width, inputs) => PureResult(ProducerCondition(0, cc, producer, width, inputs), context, m)
    case BinaryExpr(operator, a, b) =>
      var x, y := EvalExpr(a, context, m), EvalExpr(b, context, m);
      if x.Some? && y.Some? then Some(EvalBinary(operator, x.value, y.value)) else None
    case UnaryExpr(operator, a) =>
      var x := EvalExpr(a, context, m);
      if x.Some? then Some(EvalUnary(operator, x.value)) else None
  }

  /** A storage reference whose address has been computed. */
  function Resolve(storage: StorageExpr, context: Context, m: Machine): Option<Storage> {
    match storage
    case OperandExpr(index) => Some(Operand(index))
    case RegExpr(reg) => Some(RegStorage(reg))
    case MemExpr(address) =>
      var value := EvalExpr(address, context, m);
      if value.Some? then Some(Mem(Const(value.value))) else None
  }

  function StepExpr(op: ExprOp, context: Context, m: Machine): Outcome {
    match op
    case Let(dst, Source(storage, width, signed)) =>
      var place := Resolve(storage, context, m);
      if place.Some? then Step(Get(dst, place.value, width, signed), context, m) else Stuck
    case Let(dst, expr) =>
      var value := EvalExpr(expr, context, m);
      if value.Some? then Bind(m, dst, value.value) else Stuck
    case SetExpr(target, expr, width, materialization) =>
      var place, value := Resolve(target, context, m), EvalExpr(expr, context, m);
      if place.Some? && value.Some? then Step(Set(place.value, Const(value.value), width, materialization), context, m)
      else Stuck
    case SetIfExpr(condition, target, expr, width) =>
      var c, place, value := EvalExpr(condition, context, m), Resolve(target, context, m), EvalExpr(expr, context, m);
      if c.Some? && place.Some? && value.Some?
      then Step(SetIf(Const(c.value), place.value, Const(value.value), width), context, m) else Stuck
    case PlainOp(plain) => Step(plain, context, m)
    case JumpExpr(target) =>
      var value := EvalExpr(target, context, m);
      if value.Some? then Step(Jump(Const(value.value)), context, m) else Stuck
    case ConditionalJumpExpr(condition, taken, notTaken) =>
      var c, t, f := EvalExpr(condition, context, m), EvalExpr(taken, context, m), EvalExpr(notTaken, context, m);
      if c.Some? && t.Some? && f.Some?
      then Step(ConditionalJump(Const(c.value), Const(t.value), Const(f.value)), context, m) else Stuck
    case HostTrapExpr(vector) =>
      var value := EvalExpr(vector, context, m);
      if value.Some? then Step(HostTrap(Const(value.value)), context, m) else Stuck
  }

  function RunExprs(ops: seq<ExprOp>, context: Context, m: Machine): (outcome: Outcome)
    ensures !outcome.Running?
  {
    if ops == [] then Stuck
    else
      var step := StepExpr(ops[0], context, m);
      if step.Running? then RunExprs(ops[1..], context, step.m) else step
  }

  // ---------- use counts and barriers ----------

  function ValueUses(value: Value, id: VarId): nat {
    if value == Var(id) then 1 else 0
  }

  function StorageUses(storage: Storage, id: VarId): nat {
    if storage.Mem? then ValueUses(storage.address, id) else 0
  }

  function InputUses(inputs: InputRefs, names: seq<InputName>, id: VarId): nat {
    if names == [] then 0
    else (if names[0] in inputs then ValueUses(inputs[names[0]], id) else 0) + InputUses(inputs, names[1..], id)
  }

  const INPUT_NAMES: seq<InputName> := [Left, Right, Result]

  function ConditionNames(op: Op): seq<InputName>
    requires op.ProducerCondition?
  {
    var kind := DirectConditions.ConditionKind(op.producer, op.cc, OnlyResult(op.inputs));
    if kind.Some? then DirectConditions.KindInputs(kind.value) else []
  }

  function OpUses(op: Op, id: VarId): nat {
    match op
    case Get(_, source, _, _) => StorageUses(source, id)
    case Set(target, value, _, _) => StorageUses(target, id) + ValueUses(value, id)
    case SetIf(condition, target, value, _) => ValueUses(condition, id) + StorageUses(target, id) + ValueUses(value, id)
    case ProducerCondition(_, _, _, _, inputs) => InputUses(inputs, ConditionNames(op), id)
    case ValueBinary(_, _, a, b) => ValueUses(a, id) + ValueUses(b, id)
    case ValueUnary(_, _, a) => ValueUses(a, id)
    case FlagsSet(_, _, inputs) => InputUses(inputs, INPUT_NAMES, id)
    case Jump(target) => ValueUses(target, id)
    case ConditionalJump(condition, taken, notTaken) =>
      ValueUses(condition, id) + ValueUses(taken, id) + ValueUses(notTaken, id)
    case HostTrap(vector) => ValueUses(vector, id)
    case _ => 0
  }

  function CountUses(ops: seq<Op>, id: VarId): nat {
    if ops == [] then 0 else OpUses(ops[0], id) + CountUses(ops[1..], id)
  }

  predicate ConditionallyWritten(ops: seq<Op>, id: VarId) {
    exists op <- ops :: op.SetIf? && op.value == Var(id)
  }

  predicate CanInlineGet(source: Storage, context: Context) {
    match source
    case RegStorage(_) => true
    case Mem(_) => false
    case Operand(index) => index < |context.operands| && !context.operands[index].MemBinding?
  }

  function AliasOf(storage: Storage, context: Context): Option<Alias> {
    match storage
    case RegStorage(reg) => Some(Alias(reg, 0, W32))
    case Mem(_) => None
    case Operand(index) =>
      if index < |context.operands| && context.operands[index].RegBinding?
      then Some(context.operands[index].alias) else None
  }

  function BitsOf(width: Width): nat {
    match width
    case W8 => 8
    case W16 => 16
    case W32 => 32
  }

  predicate AliasesOverlap(left: Alias, right: Alias) {
    left.base == right.base && left.offset < right.offset + BitsOf(right.width) &&
    right.offset < left.offset + BitsOf(left.width)
  }

  predicate MayAlias(write: Storage, read: Storage, context: Context) {
    if write.Mem? || read.Mem? then write.Mem? && read.Mem?
    else
      var left, right := AliasOf(write, context), AliasOf(read, context);
      left.Some? && right.Some? && AliasesOverlap(left.value, right.value)
  }

  function Target(op: Op): Option<Storage> {
    if op.Set? || op.SetIf? then Some(op.target) else None
  }

  /** Whether a possibly aliasing write comes before the first use. */
  predicate CrossesBarrier(id: VarId, source: Storage, rest: seq<Op>, context: Context) {
    if rest == [] || OpUses(rest[0], id) > 0 then false
    else if Target(rest[0]).Some? && MayAlias(Target(rest[0]).value, source, context) then true
    else CrossesBarrier(id, source, rest[1..], context)
  }

  // ---------- the builder ----------

  type Bindings = map<VarId, Expr>

  /** The expression for a value; a bound tree is used up, a bound constant is not. */
  function ExprFor(value: Value, bindings: Bindings): Expr {
    if value.Var? && value.id in bindings then bindings[value.id] else Ref(value)
  }

  function AfterUse(value: Value, bindings: Bindings): Bindings {
    if value.Var? && value.id in bindings && !IsConst(bindings[value.id]) then bindings - {value.id} else bindings
  }

  predicate IsConst(expr: Expr) {
    expr.Ref? && expr.value.Const?
  }

  function StorageExprOf(storage: Storage, bindings: Bindings): StorageExpr {
    match storage
    case Operand(index) => OperandExpr(index)
    case RegStorage(reg) => RegExpr(reg)
    case Mem(address) => MemExpr(ExprFor(address, bindings))
  }

  function AfterStorage(storage: Storage, bindings: Bindings): Bindings {
    if storage.Mem? then AfterUse(storage.address, bindings) else bindings
  }

  datatype Build = Build(bindings: Bindings, ops: seq<ExprOp>)

  /** A value that must be a plain reference: a bound tree first gets its variable after all. */
  function Materialize(build: Build, value: Value): (r: (Build, Value)) {
    var expr := ExprFor(value, build.bindings);
    if expr.Ref? then (build.(bindings := AfterUse(value, build.bindings)), expr.value)
    else (Build(build.bindings - {value.id}, build.ops + [Let(value.id, expr)]), value)
  }

  function MaterializeInputs(build: Build, inputs: InputRefs, names: seq<InputName>): (r: (Build, InputRefs))
    decreases names
  {
    if names == [] then (build, map[])
    else if names[0] !in inputs then MaterializeInputs(build, inputs, names[1..])
    else
      var here := Materialize(build, inputs[names[0]]);
      var rest := MaterializeInputs(here.0, inputs, names[1..]);
      (rest.0, rest.1[names[0] := here.1])
  }

  function DefineValue(block: Instruction, build: Build, dst: VarId, expr: Expr, inlineable: bool): Build {
    if inlineable && CountUses(block.ops, dst) <= 1 && !ConditionallyWritten(block.ops, dst)
    then build.(bindings := build.bindings[dst := expr])
    else build.(ops := build.ops + [Let(dst, expr)])
  }

  function Emit(build: Build, bindings: Bindings, op: ExprOp): Build {
    Build(bindings, build.ops + [op])
  }

  function BuildOp(block: Instruction, build: Build, op: Op, rest: seq<Op>): Build {
    var b := build.bindings;
    match op
    case Get(dst, source, width, signed) =>
      DefineValue(block, build.(bindings := AfterStorage(source, b)), dst, Source(StorageExprOf(source, b), width, signed),
             CanInlineGet(source, block.context) && !CrossesBarrier(dst, source, rest, block.context))
    case Set(target, value, width, role) =>
      var b1 := AfterStorage(target, b);
      Emit(build, AfterUse(value, b1), SetExpr(StorageExprOf(target, b), ExprFor(value, b1), width, role))
    case SetIf(condition, target, value, width) =>
      var b1 := AfterUse(condition, b);
      var b2 := AfterStorage(target, b1);
      var last := Materialize(build.(bindings := b2), value);
      Emit(last.0, last.0.bindings, SetIfExpr(ExprFor(condition, b), StorageExprOf(target, b1), Ref(last.1), width))
    case Address(dst, operand) => DefineValue(block, build, dst, AddressOf(operand), true)
    case ValueConst(dst, constant) => build.(bindings := b[dst := Ref(Const(constant))])
    case ValueBinary(dst, operator, x, y) =>
      var b1 := AfterUse(x, b);
      DefineValue(block, build.(bindings := AfterUse(y, b1)), dst, BinaryExpr(operator, ExprFor(x, b), ExprFor(y, b1)), true)
    case ValueUnary(dst, operator, x) =>
      DefineValue(block, build.(bindings := AfterUse(x, b)), dst, UnaryExpr(operator, ExprFor(x, b)), true)
    case FlagsCondition(dst, cc) => DefineValue(block, build, dst, FlagsTest(cc), false)
    case ProducerCondition(dst, cc, producer, width, inputs) =>
      var r := MaterializeInputs(build, inputs, ConditionNames(op));
      DefineValue(block, r.0, dst, ProducerTest(cc, producer, width, r.1), true)
    case FlagsSet(producer, width, inputs) =>
      var r := MaterializeInputs(build, inputs, INPUT_NAMES);
      Emit(r.0, r.0.bindings, PlainOp(FlagsSet(producer, width, r.1)))
    case Jump(target) => Emit(build, AfterUse(target, b), JumpExpr(ExprFor(target, b)))
    case ConditionalJump(condition, taken, notTaken) =>
      var b1 := AfterUse(condition, b);
      var b2 := AfterUse(taken, b1);
      Emit(build, AfterUse(notTaken, b2),
           ConditionalJumpExpr(ExprFor(condition, b), ExprFor(taken, b1), ExprFor(notTaken, b2)))
    case HostTrap(vector) => Emit(build, AfterUse(vector, b), HostTrapExpr(ExprFor(vector, b)))
    case _ => Emit(build, b, PlainOp(op))
  }

  function BuildFrom(block: Instruction, build: Build, ops: seq<Op>): Build
    decreases ops
  {
    if ops == [] then build else BuildFrom(block, BuildOp(block, build, ops[0], ops[1..]), ops[1..])
  }

  function BuildIrExpressionBlock(block: Instruction): seq<ExprOp> {
    BuildFrom(block, Build(map[], []), block.ops).ops
  }

  // ---------- the builder as it runs ----------

  /** How often each variable is used; a variable without an entry is not used. */
  method CountValueUse(counts: map<VarId, nat>, value: Value) returns (after: map<VarId, nat>)
    ensures forall id :: UsesIn(after, id) == UsesIn(counts, id) + ValueUses(value, id)
  {
    after := if value.Var? then counts[value.id := UsesIn(counts, value.id) + 1] else counts;
  }

  function UsesIn(counts: map<VarId, nat>, id: VarId): nat {
    if id in counts then counts[id] else 0
  }

  method CountInputUses(counts: map<VarId, nat>, inputs: InputRefs, names: seq<InputName>) returns (after: map<VarId, nat>)
    ensures forall id :: UsesIn(after, id) == UsesIn(counts, id) + InputUses(inputs, names, id)
  {
    after := counts;
    assert names[0..] == names;
    for i := 0 to |names|
      invariant forall id :: UsesIn(after, id) + InputUses(inputs, names[i..], id) ==
                             UsesIn(counts, id) + InputUses(inputs, names, id)
    {
      assert names[i..][0] == names[i] && names[i..][1..] == names[i + 1..];
      if names[i] in inputs {
        after := CountValueUse(after, inputs[names[i]]);
      }
    }
  }

  method CountStorageUses(counts: map<VarId, nat>, storage: Storage) returns (after: map<VarId, nat>)
    ensures forall id :: UsesIn(after, id) == UsesIn(counts, id) + StorageUses(storage, id)
  {
    after := counts;
    if storage.Mem? {
      after := CountValueUse(after, storage.address);
    }
  }

  method CountOpUses(counts: map<VarId, nat>, op: Op) returns (after: map<VarId, nat>)
    ensures forall id :: UsesIn(after, id) == UsesIn(counts, id) + OpUses(op, id)
  {
    hide ValueUses, StorageUses, InputUses, UsesIn;
    after := counts;
    match op {
    case Get(_, source, _, _) => after := CountStorageUses(after, source);
    case Set(target, value, _, _) =>
      after := CountStorageUses(after, target);
      after := CountValueUse(after, value);
    case SetIf(condition, target, value, _) =>
      after := CountValueUse(after, condition);
      after := CountStorageUses(after, target);
      after := CountValueUse(after, value);
    case ProducerCondition(_, _, _, _, inputs) => after := CountInputUses(after, inputs, ConditionNames(op));
    case ValueBinary(_, _, a, b) =>
      after := CountValueUse(after, a);
      after := CountValueUse(after, b);
    case ValueUnary(_, _, a) => after := CountValueUse(after, a);
    case FlagsSet(_, _, inputs) => after := CountInputUses(after, inputs, INPUT_NAMES);
    case Jump(target) => after := CountValueUse(after, target);
    case ConditionalJump(condition, taken, notTaken) =>
      after := CountValueUse(after, condition);
      after := CountValueUse(after, taken);
      after := CountValueUse(after, notTaken);
    case HostTrap(vector) => after := CountValueUse(after, vector);
    case _ =>
    }
  }

  method CountVarUses(ops: seq<Op>) returns (counts: map<VarId, nat>)
    ensures forall id :: UsesIn(counts, id) == CountUses(ops, id)
  {
    hide OpUses;
    counts := map[];
    assert ops[0..] == ops;
    for i := 0 to |ops|
      invariant forall id :: UsesIn(counts, id) + CountUses(ops[i..], id) == CountUses(ops, id)
    {
      assert ops[i..][0] == ops[i] && ops[i..][1..] == ops[i + 1..];
      counts := CountOpUses(counts, ops[i]);
    }
  }

  method ConditionalWriteValueVars(ops: seq<Op>) returns (vars: set<VarId>)
    ensures forall id :: id in vars <==> ConditionallyWritten(ops, id)
  {
    vars := {};
    for i := 0 to |ops|
      invariant forall id :: id in vars <==> exists j :: 0 <= j < i && ops[j].SetIf? && ops[j].value == Var(id)
    {
      if ops[i].SetIf? && ops[i].value.Var? {
        vars := vars + {ops[i].value.id};
      }
    }
    forall id ensures id in vars <==> ConditionallyWritten(ops, id) {
      if ConditionallyWritten(ops, id) {
        var op :| op in ops && op.SetIf? && op.value == Var(id);
        var j :| 0 <= j < |ops| && ops[j] == op;
      }
    }
  }

  class ExpressionBuilder {
    const block: Instruction
    var useCounts: map<VarId, nat>
    var conditionalWriteValueVars: set<VarId>
    var bindings: Bindings
    var ops: seq<ExprOp>

    ghost function View(): Build
      reads this
    {
      Build(bindings, ops)
    }

    ghost predicate Counted()
      reads this
    {
      && (forall id :: UsesIn(useCounts, id) == CountUses(block.ops, id))
      && (forall id :: id in conditionalWriteValueVars <==> ConditionallyWritten(block.ops, id))
    }

    constructor (source: Instruction)
      ensures Counted() && block == source && View() == Build(map[], [])
    {
      block, bindings, ops := source, map[], [];
      var counts := CountVarUses(source.ops);
      var vars := ConditionalWriteValueVars(source.ops);
      useCounts, conditionalWriteValueVars := counts, vars;
    }

    /** The expression for a value; a tree can be taken only once. */
    method TakeValue(value: Value) returns (expr: Expr)
      modifies `bindings
      ensures expr == ExprFor(value, old(bindings)) && bindings == AfterUse(value, old(bindings))
    {
      expr := ExprFor(value, bindings);
      if value.Var? && value.id in bindings && !IsConst(expr) {
        bindings := bindings - {value.id};
      }
    }

    method TakeStorage(storage: Storage) returns (expr: StorageExpr)
      modifies `bindings
      ensures expr == StorageExprOf(storage, old(bindings)) && bindings == AfterStorage(storage, old(bindings))
    {
      match storage
      case Operand(index) => expr := OperandExpr(index);
      case RegStorage(reg) => expr := RegExpr(reg);
      case Mem(address) =>
        var value := TakeValue(address);
        expr := MemExpr(value);
    }

    method MaterializedValue(value: Value) returns (ref: Value)
      modifies `bindings, `ops
      ensures (View(), ref) == Materialize(old(View()), value)
    {
      var before := bindings;
      var expr := TakeValue(value);
      if expr.Ref? {
        return expr.value;
      }
      ops := ops + [Let(value.id, expr)];
      bindings := before - {value.id};
      ref := value;
    }

    method MaterializedInputs(inputs: InputRefs, names: seq<InputName>) returns (refs: InputRefs)
      modifies `bindings, `ops
      ensures (View(), refs) == MaterializeInputs(old(View()), inputs, names)
      decreases names
    {
      hide Materialize;
      refs := map[];
      if names != [] {
        if names[0] in inputs {
          var ref := MaterializedValue(inputs[names[0]]);
          refs := MaterializedInputs(inputs, names[1..]);
          refs := refs[names[0] := ref];
        } else {
          refs := MaterializedInputs(inputs, names[1..]);
        }
      }
    }

    method Define(dst: VarId, expr: Expr, inlineable: bool)
      requires Counted()
      modifies `bindings, `ops
      ensures View() == DefineValue(block, old(View()), dst, expr, inlineable)
    {
      if inlineable && UsesIn(useCounts, dst) <= 1 && dst !in conditionalWriteValueVars {
        bindings := bindings[dst := expr];
        return;
      }
      ops := ops + [Let(dst, expr)];
    }

    /** Look for a possibly aliasing write before the first use. */
    method InlineGetWouldCrossAliasBarrier(dst: VarId, source: Storage, opIndex: nat) returns (crosses: bool)
      requires opIndex < |block.ops|
      ensures crosses == CrossesBarrier(dst, source, block.ops[opIndex + 1..], block.context)
    {
      hide OpUses, MayAlias;
      crosses := false;
      for index := opIndex + 1 to |block.ops|
        invariant CrossesBarrier(dst, source, block.ops[opIndex + 1..], block.context) ==
                  CrossesBarrier(dst, source, block.ops[index..], block.context)
      {
        assert block.ops[index..][0] == block.ops[index] && block.ops[index..][1..] == block.ops[index + 1..];
        var op := block.ops[index];
        if OpUses(op, dst) > 0 {
          return false;
        }
        if Target(op).Some? && MayAlias(Target(op).value, source, block.context) {
          return true;
        }
      }
    }

    method BuildGet(op: Op, opIndex: nat)
      requires Counted() && opIndex < |block.ops| && op == block.ops[opIndex] && op.Get?
      modifies `bindings, `ops
      ensures View() == BuildOp(block, old(View()), op, block.ops[opIndex + 1..])
    {
      hide DefineValue, CrossesBarrier, AfterStorage, StorageExprOf;
      var crosses := InlineGetWouldCrossAliasBarrier(op.dst, op.source, opIndex);
      var source := TakeStorage(op.source);
      Define(op.dst, Source(source, op.width, op.signed), CanInlineGet(op.source, block.context) && !crosses);
    }

    method BuildValue(op: Op, ghost rest: seq<Op>)
      requires Counted() && Dst(op).Some? && !op.Get?
      modifies `bindings, `ops
      ensures View() == BuildOp(block, old(View()), op, rest)
    {
      hide DefineValue, AfterUse, ExprFor, MaterializeInputs;
      match op
      case Address(dst, operand) => Define(dst, AddressOf(operand), true);
      case ValueConst(dst, constant) => bindings := bindings[dst := Ref(Const(constant))];
      case ValueBinary(dst, operator, x, y) =>
        var a := TakeValue(x);
        var b := TakeValue(y);
        Define(dst, BinaryExpr(operator, a, b), true);
      case ValueUnary(dst, operator, x) =>
        var a := TakeValue(x);
        Define(dst, UnaryExpr(operator, a), true);
      case FlagsCondition(dst, cc) => Define(dst, FlagsTest(cc), false);
      case ProducerCondition(dst, cc, producer, width, inputs) =>
        var refs := MaterializedInputs(inputs, ConditionNames(op));
        Define(dst, ProducerTest(cc, producer, width, refs), true);
    }

    method BuildEffect(op: Op, ghost rest: seq<Op>)
      requires Dst(op).None?
      modifies `bindings, `ops
      ensures View() == BuildOp(block, old(View()), op, rest)
    {
      hide AfterUse, ExprFor, MaterializeInputs, Materialize, StorageExprOf, AfterStorage;
      match op
      case Set(target, value, width, role) =>
        var place := TakeStorage(target);
        var expr := TakeValue(value);
        ops := ops + [SetExpr(place, expr, width, role)];
      case SetIf(condition, target, value, width) =>
        var test := TakeValue(condition);
        var place := TakeStorage(target);
        var ref := MaterializedValue(value);
        ops := ops + [SetIfExpr(test, place, Ref(ref), width)];
      case FlagsSet(producer, width, inputs) =>
        var refs := MaterializedInputs(inputs, INPUT_NAMES);
        ops := ops + [PlainOp(FlagsSet(producer, width, refs))];
      case Jump(target) =>
        var expr := TakeValue(target);
        ops := ops + [JumpExpr(expr)];
      case ConditionalJump(condition, taken, notTaken) =>
        var test := TakeValue(condition);
        var yes := TakeValue(taken);
        var no := TakeValue(notTaken);
        ops := ops + [ConditionalJumpExpr(test, yes, no)];
      case HostTrap(vector) =>
        var expr := TakeValue(vector);
        ops := ops + [HostTrapExpr(expr)];
      case FlagsMaterialize(_) => ops := ops + [PlainOp(op)];
      case FlagsBoundary(_) => ops := ops + [PlainOp(op)];
      case Next => ops := ops + [PlainOp(op)];
    }

    method Run() returns (result: seq<ExprOp>)
      requires Counted() && View() == Build(map[], [])
      modifies `bindings, `ops
      ensures result == BuildIrExpressionBlock(block)
    {
      hide BuildOp;
      assert block.ops[0..] == block.ops;
      for opIndex := 0 to |block.ops|
        invariant BuildFrom(block, View(), block.ops[opIndex..]) == BuildFrom(block, Build(map[], []), block.ops)
      {
        assert block.ops[opIndex..][0] == block.ops[opIndex] && block.ops[opIndex..][1..] == block.ops[opIndex + 1..];
        var op := block.ops[opIndex];
        if op.Get? {
          BuildGet(op, opIndex);
        } else if Dst(op).Some? {
          BuildValue(op, block.ops[opIndex + 1..]);
        } else {
          BuildEffect(op, block.ops[opIndex + 1..]);
        }
      }
      result := ops;
    }
  }
}
