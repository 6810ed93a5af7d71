/** The expression block does what the flat operations do. */
module ExpressionProof {
  import opened X86Types
  import opened Flags
  import opened Conditions
  import opened Ir
  import opened Expressions
  import opened ExpressionSafety
  import DirectConditions
  import RegisterCache

  // ---------- what may change under an expression ----------

  /** Trees that may be moved: no condition on the flags and no read of memory. */
  predicate Movable(expr: Expr) {
    match expr
    case Ref(_) => true
    case Source(storage, _, _) => !storage.MemExpr?
    case AddressOf(_) => true
    case FlagsTest(_) => false
    case ProducerTest(_, _, _, _) => true
    case BinaryExpr(_, a, b) => Movable(a) && Movable(b)
    case UnaryExpr(_, a) => Movable(a)
  }

  function StorageOf(storage: StorageExpr): Storage
    requires !storage.MemExpr?
  {
    if storage.OperandExpr? then Operand(storage.index) else RegStorage(storage.reg)
  }

  /** Whether a write to a storage might change what a tree reads. */
  predicate ExprReads(expr: Expr, write: Storage, context: Context) {
    match expr
    case Source(storage, _, _) => !storage.MemExpr? && MayAlias(write, StorageOf(storage), context)
    case AddressOf(operand) =>
      AliasOf(write, context).Some? && AddressReads(operand, AliasOf(write, context).value.base, context)
    case BinaryExpr(_, a, b) => ExprReads(a, write, context) || ExprReads(b, write, context)
    case UnaryExpr(_, a) => ExprReads(a, write, context)
    case _ => false
  }

  /** The registers a tree reads hold the same bits in both states. */
  ghost predicate Unaffected(expr: Expr, context: Context, p: Machine, q: Machine) {
    match expr
    case Source(storage, width, signed) =>
      !storage.MemExpr? &&
      ReadPlace(StorageOf(storage), width, signed, context, p) == ReadPlace(StorageOf(storage), width, signed, context, q)
    case AddressOf(operand) => PureResult(Address(0, operand), context, p) == PureResult(Address(0, operand), context, q)
    case BinaryExpr(_, a, b) => Unaffected(a, context, p, q) && Unaffected(b, context, p, q)
    case UnaryExpr(_, a) => Unaffected(a, context, p, q)
    case _ => true
  }

  ghost predicate Extends(before: map<VarId, Word>, after: map<VarId, Word>) {
    before.Keys <= after.Keys && forall id <- before :: after[id] == before[id]
  }

  lemma MoreInputs(
      inputs: InputRefs, needed: seq<InputName>, nextEip: Word, first: map<VarId, Word>, second: map<VarId, Word>)
    requires Extends(first, second)
    ensures EvalInputs(inputs, needed, first, nextEip).Some? ==>
              EvalInputs(inputs, needed, second, nextEip) == EvalInputs(inputs, needed, first, nextEip)
  {
  }

  lemma {:induction false} EvalStable(expr: Expr, context: Context, p: Machine, q: Machine)
    requires Movable(expr) && EvalExpr(expr, context, p).Some?
    requires Extends(p.vars, q.vars) && Unaffected(expr, context, p, q)
    ensures EvalExpr(expr, context, q) == EvalExpr(expr, context, p)
  {
    hide EvalBinary, EvalUnary, ReadPlace, DirectConditions.ConditionKind, DirectConditions.Decide, EvalInputs;
    match expr
    case Ref(_) =>
    case Source(_, _, _) =>
    case AddressOf(_) =>
    case ProducerTest(cc, producer, width, inputs) =>
      var kind := DirectConditions.ConditionKind(producer, cc, OnlyResult(inputs));
      if kind.Some? {
        MoreInputs(inputs, DirectConditions.KindInputs(kind.value), context.nextEip, p.vars, q.vars);
      }
    case BinaryExpr(_, a, b) =>
      EvalStable(a, context, p, q);
      EvalStable(b, context, p, q);
    case UnaryExpr(_, a) => EvalStable(a, context, p, q);
  }

  lemma {:induction false} SameRegsUnaffected(expr: Expr, context: Context, p: Machine, q: Machine)
    requires Movable(expr) && p.regs == q.regs
    ensures Unaffected(expr, context, p, q)
  {
    match expr
    case BinaryExpr(_, a, b) =>
      SameRegsUnaffected(a, context, p, q);
      SameRegsUnaffected(b, context, p, q);
    case UnaryExpr(_, a) => SameRegsUnaffected(a, context, p, q);
    case Source(storage, width, signed) => SameRegsRead(StorageOf(storage), width, signed, context, p, q);
    case _ =>
  }

  lemma SameRegsRead(storage: Storage, width: Width, signed: bool, context: Context, p: Machine, q: Machine)
    requires !storage.Mem? && p.regs == q.regs
    ensures ReadPlace(storage, width, signed, context, p) == ReadPlace(storage, width, signed, context, q)
  {
    hide ReadAlias, Extended, Mask32;
  }

  // ---------- disjoint parts of a register ----------

  /** The parts of a register x86 names: al, ah, ax and eax. */
  predicate RealAlias(alias: Alias) {
    alias.offset == 0 || (alias.offset == 8 && alias.width == W8)
  }

  predicate RealAliases(context: Context) {
    forall binding <- context.operands :: binding.RegBinding? ==> RealAlias(binding.alias)
  }

  lemma DisjointFields(full: Word, written: Alias, read: Alias, value: Word)
    requires RealAlias(written) && RealAlias(read) && written.base == read.base && !AliasesOverlap(written, read)
    ensures written.width != W32 && read.width != W32
    ensures ReadField(WriteField(full, written.offset, written.width, value), read.offset, read.width) ==
            ReadField(full, read.offset, read.width)
  {
    var v := RegisterCache.FromWord(full);
    var x := RegisterCache.FromWord(value);
    RegisterCache.FromWordCorrect(full);
    RegisterCache.FromWordCorrect(value);
    var w := if written.offset == 0 then RegisterCache.Low8 else RegisterCache.High8;
    var r := if read.offset == 0 then RegisterCache.Low8 else RegisterCache.High8;
    RegisterCache.InsertIsMaskAndMerge(v, w, x);
    RegisterCache.ExtractIsShiftAndMask(v, r);
    RegisterCache.ExtractIsShiftAndMask(RegisterCache.Insert(v, w, x), r);
    assert RegisterCache.Extract(RegisterCache.Insert(v, w, x), r) == RegisterCache.Extract(v, r);
    hide ReadField, WriteField, RegisterCache.ToWord;
  }

  lemma DisjointAliases(regs: Regs, written: Alias, read: Alias, value: Word)
    requires RealAlias(written) && RealAlias(read) && !AliasesOverlap(written, read)
    ensures ReadAlias(WriteAlias(regs, written, value), read) == ReadAlias(regs, read)
  {
    hide ReadField, WriteField;
    if written.base == read.base {
      DisjointFields(regs[written.base], written, read, value);
    }
  }

  /** The alias a register storage stands for in an access of some width. */
  function AccessAlias(storage: Storage, width: Width, context: Context): Option<Alias> {
    if storage.RegStorage? then Some(Alias(storage.reg, 0, width)) else AliasOf(storage, context)
  }

  lemma AccessAliasOfPlace(storage: Storage, width: Width, context: Context, m: Machine)
    ensures PlaceOf(storage, width, context, m).RegPlace? ==>
              AccessAlias(storage, width, context) == Some(PlaceOf(storage, width, context, m).alias)
    ensures AccessAlias(storage, width, context).Some? && !storage.Mem? ==>
              PlaceOf(storage, width, context, m) == RegPlace(AccessAlias(storage, width, context).value, width)
  {
  }

  lemma SeparateAccesses(write: Storage, writeWidth: Width, read: Storage, readWidth: Width, context: Context)
    requires RealAliases(context) && !write.Mem? && !read.Mem? && !MayAlias(write, read, context)
    requires AccessAlias(write, writeWidth, context).Some? && AccessAlias(read, readWidth, context).Some?
    ensures
      var w, r := AccessAlias(write, writeWidth, context).value, AccessAlias(read, readWidth, context).value;
      RealAlias(w) && RealAlias(r) && !AliasesOverlap(w, r)
  {
    assert forall i | 0 <= i < |context.operands| :: context.operands[i] in context.operands;
  }

  /** Reading a storage that a write does not alias gives the same value after the write. */
  lemma ReadAfterWrite(
      read: Storage, width: Width, signed: bool, write: Storage, writeWidth: Width, value: Word, context: Context,
      p: Machine, q: Machine)
    requires RealAliases(context) && !write.Mem? && !read.Mem? && !MayAlias(write, read, context)
    requires AccessAlias(write, writeWidth, context).Some?
    requires q.regs == WriteAlias(p.regs, AccessAlias(write, writeWidth, context).value, value)
    ensures ReadPlace(read, width, signed, context, q) == ReadPlace(read, width, signed, context, p)
  {
    hide ReadAlias, WriteAlias, Extended, Mask32, MayAlias, AliasesOverlap, RealAliases;
    AccessAliasOfPlace(read, width, context, p);
    AccessAliasOfPlace(read, width, context, q);
    var alias := AccessAlias(read, width, context);
    if alias.Some? {
      SeparateAccesses(write, writeWidth, read, width, context);
      DisjointAliases(p.regs, AccessAlias(write, writeWidth, context).value, alias.value, value);
    } else {
      NotARegister(read, width, signed, context, p, q);
    }
  }

  lemma NotARegister(read: Storage, width: Width, signed: bool, context: Context, p: Machine, q: Machine)
    requires AccessAlias(read, width, context).None? && !read.Mem?
    ensures ReadPlace(read, width, signed, context, q) == ReadPlace(read, width, signed, context, p)
  {
    hide ReadAlias, WriteAlias, Extended;
  }

  lemma AddressAfterWrite(
      operand: nat, write: Storage, writeWidth: Width, value: Word, context: Context, p: Machine, q: Machine)
    requires AccessAlias(write, writeWidth, context).Some? && !write.Mem?
    requires !ExprReads(AddressOf(operand), write, context)
    requires q.regs == WriteAlias(p.regs, AccessAlias(write, writeWidth, context).value, value)
    ensures PureResult(Address(0, operand), context, q) == PureResult(Address(0, operand), context, p)
  {
    hide WriteField, U32;
  }

  /** A write that a tree does not read leaves the tree's value alone. */
  lemma {:induction false} UnaffectedByWrite(
      expr: Expr, write: Storage, writeWidth: Width, value: Word, context: Context, p: Machine, q: Machine)
    requires RealAliases(context) && Movable(expr) && !write.Mem? && !ExprReads(expr, write, context)
    requires AccessAlias(write, writeWidth, context).Some?
    requires q.regs == WriteAlias(p.regs, AccessAlias(write, writeWidth, context).value, value)
    ensures Unaffected(expr, context, p, q)
  {
    hide WriteAlias, ReadPlace, AccessAlias, MayAlias, RealAliases;
    match expr
    case Source(storage, width, signed) =>
      ReadAfterWrite(StorageOf(storage), width, signed, write, writeWidth, value, context, p, q);
    case AddressOf(operand) => AddressAfterWrite(operand, write, writeWidth, value, context, p, q);
    case BinaryExpr(_, a, b) =>
      UnaffectedByWrite(a, write, writeWidth, value, context, p, q);
      UnaffectedByWrite(b, write, writeWidth, value, context, p, q);
    case UnaryExpr(_, a) => UnaffectedByWrite(a, write, writeWidth, value, context, p, q);
    case _ =>
  }

  // ---------- what the bindings hold ----------

  /** Facts about the bindings that do not depend on the state: single use, and no barrier before a direct use. */
  ghost predicate BindingsOk(block: Instruction, bindings: Bindings, rest: seq<Op>) {
    forall id <- bindings ::
      && Movable(bindings[id]) && (bindings[id].Ref? ==> IsConst(bindings[id]))
      && (IsConst(bindings[id]) || (CountUses(rest, id) <= 1 && !ConditionallyWritten(block.ops, id)))
      && (bindings[id].Source? ==> !CrossesBarrier(id, StorageOf(bindings[id].source), rest, block.context))
  }

  /** The variable's value can still be had, from its tree or from a variable of the expression block. */
  ghost predicate Holds(bindings: Bindings, id: VarId, value: Word, context: Context, p: Machine) {
    if id in bindings then EvalExpr(bindings[id], context, p) == Some(value)
    else id in p.vars && p.vars[id] == value
  }

  ghost predicate HoldsAll(bindings: Bindings, ids: set<VarId>, vars: map<VarId, Word>, context: Context, p: Machine) {
    forall id <- ids :: id in vars ==> Holds(bindings, id, vars[id], context, p)
  }

  ghost function Needed(ops: seq<Op>, vars: map<VarId, Word>): set<VarId> {
    set id <- vars | CountUses(ops, id) > 0
  }

  ghost predicate Related(block: Instruction, bindings: Bindings, rest: seq<Op>, m: Machine, p: Machine) {
    && p == m.(vars := p.vars) && p.vars.Keys <= m.vars.Keys && bindings.Keys <= m.vars.Keys
    && bindings.Keys !! p.vars.Keys && BindingsOk(block, bindings, rest)
    && HoldsAll(bindings, Needed(rest, m.vars), m.vars, block.context, p)
  }

  lemma UseValue(value: Value, bindings: Bindings, ids: set<VarId>, context: Context, m: Machine, p: Machine)
    requires HoldsAll(bindings, ids, m.vars, context, p) && (value.Var? ==> value.id in ids)
    requires Eval(value, m.vars, context.nextEip).Some?
    ensures EvalExpr(ExprFor(value, bindings), context, p) == Eval(value, m.vars, context.nextEip)
  {
    if value.Var? { assert Holds(bindings, value.id, m.vars[value.id], context, p); }
  }

  /** The bindings an operation uses up: those of its operands that are not constants. */
  function Consumed(op: Op, bindings: Bindings): set<VarId> {
    set id <- bindings | OpUses(op, id) > 0 && !IsConst(bindings[id])
  }

  lemma CountHead(op: Op, rest: seq<Op>, id: VarId)
    ensures CountUses([op] + rest, id) == OpUses(op, id) + CountUses(rest, id)
  {
    assert ([op] + rest)[1..] == rest;
  }

  /** A binding with several uses in one operation can only be a constant. */
  lemma UsedOnce(block: Instruction, bindings: Bindings, op: Op, rest: seq<Op>, id: VarId)
    requires BindingsOk(block, bindings, [op] + rest) && id in bindings && OpUses(op, id) > 1
    ensures IsConst(bindings[id])
  {
    CountHead(op, rest, id);
  }

  /** Bindings left over after an operation still satisfy what they must for the rest. */
  lemma LeftOver(block: Instruction, bindings: Bindings, op: Op, rest: seq<Op>)
    requires BindingsOk(block, bindings, [op] + rest)
    requires forall id <- bindings - Consumed(op, bindings) ::
               bindings[id].Source? && Target(op).Some? ==>
               !MayAlias(Target(op).value, StorageOf(bindings[id].source), block.context)
    ensures BindingsOk(block, bindings - Consumed(op, bindings), rest)
  {
    hide MayAlias, OpUses, ConditionallyWritten;
    var left := bindings - Consumed(op, bindings);
    forall id <- left ensures
        && (IsConst(left[id]) || CountUses(rest, id) <= 1)
        && (left[id].Source? ==> !CrossesBarrier(id, StorageOf(left[id].source), rest, block.context))
    {
      CountHead(op, rest, id);
      assert ([op] + rest)[1..] == rest;
    }
  }

  /** A direct read that is still bound is not aliased by a write that comes before its use. */
  lemma BarrierHolds(block: Instruction, bindings: Bindings, op: Op, rest: seq<Op>, id: VarId)
    requires BindingsOk(block, bindings, [op] + rest) && id in bindings - Consumed(op, bindings)
    requires bindings[id].Source? && Target(op).Some?
    ensures !MayAlias(Target(op).value, StorageOf(bindings[id].source), block.context)
  {
    hide MayAlias;
    assert ([op] + rest)[1..] == rest;
  }

  /** What the rest needs has not been used up. */
  lemma NeededStays(block: Instruction, bindings: Bindings, op: Op, rest: seq<Op>, vars: map<VarId, Word>)
    requires BindingsOk(block, bindings, [op] + rest)
    ensures Needed(rest, vars) <= Needed([op] + rest, vars)
    ensures forall id <- Needed(rest, vars) :: id in bindings - Consumed(op, bindings) <==> id in bindings
  {
    hide OpUses, CrossesBarrier, Movable, ConditionallyWritten;
    forall id <- vars ensures CountUses([op] + rest, id) == OpUses(op, id) + CountUses(rest, id) {
      CountHead(op, rest, id);
    }
    forall id <- Needed(rest, vars) | id in bindings ensures id !in Consumed(op, bindings) {
      CountHead(op, rest, id);
    }
  }

  /** The tree of every variable the rest needs can be moved past the operation. */
  ghost predicate Survives(bindings: Bindings, ids: set<VarId>, context: Context, p: Machine, q: Machine) {
    forall id <- ids :: id in bindings ==> Unaffected(bindings[id], context, p, q)
  }

  /** After an operation, the values the rest needs are still held. */
  lemma Advance(
      block: Instruction, bindings: Bindings, op: Op, rest: seq<Op>, m: Machine, p: Machine, q: Machine)
    requires Related(block, bindings, [op] + rest, m, p) && Extends(p.vars, q.vars)
    requires Survives(bindings, Needed(rest, m.vars), block.context, p, q)
    ensures HoldsAll(bindings - Consumed(op, bindings), Needed(rest, m.vars), m.vars, block.context, q)
  {
    hide OpUses, CountUses, CrossesBarrier, Movable, Unaffected, EvalExpr, IsConst;
    NeededStays(block, bindings, op, rest, m.vars);
    forall id <- Needed(rest, m.vars)
      ensures Holds(bindings - Consumed(op, bindings), id, m.vars[id], block.context, q)
    {
      assert Holds(bindings, id, m.vars[id], block.context, p);
      if id in bindings { EvalStable(bindings[id], block.context, p, q); }
    }
  }

  lemma {:induction false} SuffixCount(done: seq<Op>, rest: seq<Op>, id: VarId)
    ensures CountUses(rest, id) <= CountUses(done + rest, id)
  {
    if done == [] {
      assert done + rest == rest;
    } else {
      assert (done + rest)[1..] == done[1..] + rest;
      SuffixCount(done[1..], rest, id);
    }
  }

  // ---------- operands ----------

  lemma UsesIn(op: Op, rest: seq<Op>, vars: map<VarId, Word>)
    ensures forall id <- vars :: OpUses(op, id) > 0 ==> id in Needed([op] + rest, vars)
  {
    hide OpUses;
    forall id <- vars ensures CountUses([op] + rest, id) == OpUses(op, id) + CountUses(rest, id) {
      CountHead(op, rest, id);
    }
  }

  /** An operand of the operation is held. */
  lemma OperandHeld(block: Instruction, bindings: Bindings, op: Op, rest: seq<Op>, m: Machine, p: Machine, value: Value)
    requires Related(block, bindings, [op] + rest, m, p)
    requires Eval(value, m.vars, block.context.nextEip).Some? && (value.Var? ==> OpUses(op, value.id) > 0)
    ensures EvalExpr(ExprFor(value, bindings), block.context, p) == Eval(value, m.vars, block.context.nextEip)
  {
    hide OpUses, CountUses, BindingsOk;
    UsesIn(op, rest, m.vars);
    UseValue(value, bindings, Needed([op] + rest, m.vars), block.context, m, p);
  }

  lemma ResolveOperand(
      block: Instruction, bindings: Bindings, op: Op, rest: seq<Op>, m: Machine, p: Machine, storage: Storage)
    requires Related(block, bindings, [op] + rest, m, p)
    requires storage.Mem? ==> Eval(storage.address, m.vars, block.context.nextEip).Some? &&
                              (storage.address.Var? ==> OpUses(op, storage.address.id) > 0)
    ensures
      var place := Resolve(StorageExprOf(storage, bindings), block.context, p);
      place == Some(if storage.Mem? then Mem(Const(Eval(storage.address, m.vars, block.context.nextEip).value)) else storage)
  {
    hide OpUses, CountUses, BindingsOk, Related;
    if storage.Mem? { OperandHeld(block, bindings, op, rest, m, p, storage.address); }
  }

  function Fixed(value: Value, m: Machine, context: Context): Value {
    var v := Eval(value, m.vars, context.nextEip);
    if v.Some? then Const(v.value) else value
  }

  function FixedStorage(storage: Storage, m: Machine, context: Context): Storage {
    if storage.Mem? then Mem(Fixed(storage.address, m, context)) else storage
  }

  /** The operation with its variables replaced by their values. */
  function FixedOp(op: Op, m: Machine, context: Context): Op {
    match op
    case Get(dst, source, width, signed) => Get(dst, FixedStorage(source, m, context), width, signed)
    case Set(target, value, width, role) => Set(FixedStorage(target, m, context), Fixed(value, m, context), width, role)
    case SetIf(condition, target, value, width) =>
      SetIf(Fixed(condition, m, context), FixedStorage(target, m, context), Fixed(value, m, context), width)
    case Jump(target) => Jump(Fixed(target, m, context))
    case ConditionalJump(condition, taken, notTaken) =>
      ConditionalJump(Fixed(condition, m, context), Fixed(taken, m, context), Fixed(notTaken, m, context))
    case HostTrap(vector) => HostTrap(Fixed(vector, m, context))
    case _ => op
  }

  lemma FixedPlace(storage: Storage, width: Width, context: Context, m: Machine)
    ensures PlaceOf(FixedStorage(storage, m, context), width, context, m) == PlaceOf(storage, width, context, m)
  {
  }

  lemma FixedEval(value: Value, context: Context, m: Machine)
    ensures Eval(Fixed(value, m, context), m.vars, context.nextEip) == Eval(value, m.vars, context.nextEip)
  {
  }

  lemma FixedStep(op: Op, context: Context, m: Machine)
    ensures Step(FixedOp(op, m, context), context, m) == Step(op, context, m)
  {
    hide PlaceOf, Fixed, FixedStorage, Eval, PureResult, EvalInputs, SetFlags, ReadMemory, WriteMemory, ReadAlias,
      WriteAlias, Mask32, Extended;
    match op
    case Get(_, source, width, _) => FixedPlace(source, width, context, m); ExtendedFixed(op, context, m);
    case Set(target, value, width, _) => FixedPlace(target, width, context, m); FixedEval(value, context, m);
    case SetIf(condition, target, value, width) =>
      FixedPlace(target, width, context, m);
      FixedEval(condition, context, m);
      FixedEval(value, context, m);
    case Jump(target) => FixedEval(target, context, m);
    case ConditionalJump(condition, taken, notTaken) =>
      FixedEval(condition, context, m);
      FixedEval(taken, context, m);
      FixedEval(notTaken, context, m);
    case HostTrap(vector) => FixedEval(vector, context, m);
    case _ =>
  }

  lemma ExtendedFixed(op: Op, context: Context, m: Machine)
    requires op.Get?
    ensures forall value: Word :: Extended(FixedOp(op, m, context), value) == Extended(op, value)
  {
  }

  lemma FixedUsesNothing(op: Op, context: Context, m: Machine)
    requires Step(op, context, m) != Stuck
    requires op.Get? || op.Set? || (op.SetIf? && !op.target.Mem?) || op.Jump? || op.ConditionalJump? || op.HostTrap?
    ensures Uses(FixedOp(op, m, context)) == {}
  {
    hide PureResult, EvalInputs, SetFlags, ReadMemory, WriteMemory, ReadAlias, WriteAlias, Mask32, Extended;
  }

  // ---------- running a piece of the expression block ----------

  function RunExprSteps(ops: seq<ExprOp>, context: Context, m: Machine): Outcome {
    if ops == [] then Running(m)
    else
      var step := StepExpr(ops[0], context, m);
      if step.Running? then RunExprSteps(ops[1..], context, step.m) else step
  }

  lemma {:induction false} RunExprsAppend(first: seq<ExprOp>, second: seq<ExprOp>, context: Context, m: Machine)
    ensures RunExprs(first + second, context, m) ==
            if RunExprSteps(first, context, m).Running? then RunExprs(second, context, RunExprSteps(first, context, m).m)
            else RunExprSteps(first, context, m)
    decreases first
  {
    hide StepExpr;
    if first == [] {
      assert first + second == second;
    } else {
      assert (first + second)[1..] == first[1..] + second;
      var step := StepExpr(first[0], context, m);
      if step.Running? { RunExprsAppend(first[1..], second, context, step.m); }
    }
  }

  lemma {:induction false} RunExprStepsAppend(first: seq<ExprOp>, second: seq<ExprOp>, context: Context, m: Machine)
    requires RunExprSteps(first, context, m).Running?
    ensures RunExprSteps(first + second, context, m) == RunExprSteps(second, context, RunExprSteps(first, context, m).m)
    decreases first
  {
    hide StepExpr;
    if first == [] {
      assert first + second == second;
    } else {
      assert (first + second)[1..] == first[1..] + second;
      RunExprStepsAppend(first[1..], second, context, StepExpr(first[0], context, m).m);
    }
  }

  lemma RunOneExpr(op: ExprOp, context: Context, m: Machine)
    ensures RunExprSteps([op], context, m) == StepExpr(op, context, m)
  {
    hide StepExpr;
    var step := StepExpr(op, context, m);
    if step.Running? { assert RunExprSteps([], context, step.m) == step; }
  }

  /** Both outcomes agree, and after a normal step the bindings still hold what the rest needs. */
  ghost predicate Follows(block: Instruction, bindings: Bindings, rest: seq<Op>, o: Outcome, q: Outcome) {
    match o
    case Running(n) => q.Running? && Related(block, bindings, rest, n, q.m)
    case Completed(n) => q.Completed? && q.m == n.(vars := q.m.vars)
    case _ => q == o
  }

  /** Nothing the operation wrote is read by a tree that stays bound, as the missing check would have to establish. */
  ghost predicate Undisturbed(block: Instruction, bindings: Bindings, op: Op, rest: seq<Op>) {
    Target(op).Some? ==>
      forall id <- bindings - Consumed(op, bindings) ::
        CountUses(rest, id) > 0 && !bindings[id].Source? ==> !ExprReads(bindings[id], Target(op).value, block.context)
  }

  lemma BindingsSurviveWrite(
      block: Instruction, bindings: Bindings, op: Op, rest: seq<Op>, m: Machine, p: Machine, q: Machine, width: Width,
      value: Word)
    requires Related(block, bindings, [op] + rest, m, p) && Undisturbed(block, bindings, op, rest)
    requires RealAliases(block.context) && Target(op).Some? && !Target(op).value.Mem?
    requires AccessAlias(Target(op).value, width, block.context).Some?
    requires q.regs == WriteAlias(p.regs, AccessAlias(Target(op).value, width, block.context).value, value)
    ensures Survives(bindings, Needed(rest, m.vars), block.context, p, q)
  {
    hide WriteAlias, AccessAlias, Unaffected, ExprReads, RealAliases, OpUses, CountUses;
    NeededStays(block, bindings, op, rest, m.vars);
    forall id <- Needed(rest, m.vars) | id in bindings ensures Unaffected(bindings[id], block.context, p, q) {
      if bindings[id].Source? {
        BarrierHolds(block, bindings, op, rest, id);
        SourceReads(bindings[id], Target(op).value, block.context);
      }
      UnaffectedByWrite(bindings[id], Target(op).value, width, value, block.context, p, q);
    }
  }

  lemma SourceReads(expr: Expr, write: Storage, context: Context)
    requires expr.Source? && Movable(expr)
    ensures ExprReads(expr, write, context) == MayAlias(write, StorageOf(expr.source), context)
  {
  }

  lemma BindingsSurvive(block: Instruction, bindings: Bindings, op: Op, rest: seq<Op>, m: Machine, p: Machine, q: Machine)
    requires Related(block, bindings, [op] + rest, m, p) && q.regs == p.regs
    ensures Survives(bindings, Needed(rest, m.vars), block.context, p, q)
  {
    hide Unaffected, CountUses;
    forall id <- Needed(rest, m.vars) | id in bindings ensures Unaffected(bindings[id], block.context, p, q) {
      SameRegsUnaffected(bindings[id], block.context, p, q);
    }
  }

  // ---------- moving the relation past an operation ----------

  /** The operands are used up and the state may have changed where no needed tree reads it. */
  lemma PastOp(
      block: Instruction, bindings: Bindings, op: Op, rest: seq<Op>, m: Machine, p: Machine, n: Machine, q: Machine)
    requires Related(block, bindings, [op] + rest, m, p)
    requires Survives(bindings, Needed(rest, m.vars), block.context, p, q)
    requires n.vars == m.vars && q == n.(vars := q.vars) && Extends(p.vars, q.vars) && q.vars.Keys <= m.vars.Keys
    requires (bindings - Consumed(op, bindings)).Keys !! q.vars.Keys
    ensures Related(block, bindings - Consumed(op, bindings), rest, n, q)
  {
    hide HoldsAll, BindingsOk, Survives, OpUses, CountUses;
    Advance(block, bindings, op, rest, m, p, q);
    forall id <- bindings - Consumed(op, bindings) | bindings[id].Source? && Target(op).Some?
      ensures !bindings[id].source.MemExpr? && !MayAlias(Target(op).value, StorageOf(bindings[id].source), block.context)
    {
      SourcesAreMovable(block, bindings, [op] + rest, id);
      BarrierHolds(block, bindings, op, rest, id);
    }
    LeftOver(block, bindings, op, rest);
  }

  lemma SourcesAreMovable(block: Instruction, bindings: Bindings, rest: seq<Op>, id: VarId)
    requires BindingsOk(block, bindings, rest) && id in bindings && bindings[id].Source?
    ensures !bindings[id].source.MemExpr?
  {
  }

  lemma Consume(block: Instruction, bindings: Bindings, op: Op, rest: seq<Op>, m: Machine, p: Machine)
    requires Related(block, bindings, [op] + rest, m, p)
    ensures Related(block, bindings - Consumed(op, bindings), rest, m, p)
  {
    hide HoldsAll, BindingsOk, Survives, OpUses, CountUses;
    BindingsSurvive(block, bindings, op, rest, m, p, p);
    PastOp(block, bindings, op, rest, m, p, m, p);
  }

  /** A tree that may be bound to a variable. */
  ghost predicate Bindable(block: Instruction, dst: VarId, expr: Expr, rest: seq<Op>) {
    && Movable(expr) && (expr.Ref? ==> IsConst(expr))
    && (IsConst(expr) || (CountUses(rest, dst) <= 1 && !ConditionallyWritten(block.ops, dst)))
    && (expr.Source? ==> !CrossesBarrier(dst, StorageOf(expr.source), rest, block.context))
  }

  function WithVar(m: Machine, dst: VarId, value: Word): Machine {
    m.(vars := m.vars[dst := value])
  }

  lemma DefineBinding(
      block: Instruction, bindings: Bindings, rest: seq<Op>, m: Machine, p: Machine, dst: VarId, expr: Expr, value: Word)
    requires Related(block, bindings, rest, m, p) && dst !in m.vars
    requires EvalExpr(expr, block.context, p) == Some(value) && Bindable(block, dst, expr, rest)
    ensures Related(block, bindings[dst := expr], rest, WithVar(m, dst, value), p)
  {
    hide EvalExpr, CountUses, CrossesBarrier, Movable, ConditionallyWritten;
    var after := bindings[dst := expr];
    forall id <- Needed(rest, WithVar(m, dst, value).vars)
      ensures Holds(after, id, WithVar(m, dst, value).vars[id], block.context, p)
    {
      if id != dst { assert id in Needed(rest, m.vars); }
    }
  }

  lemma DefineLet(
      block: Instruction, bindings: Bindings, rest: seq<Op>, m: Machine, p: Machine, dst: VarId, value: Word)
    requires Related(block, bindings, rest, m, p) && dst !in m.vars
    ensures Related(block, bindings, rest, WithVar(m, dst, value), WithVar(p, dst, value))
  {
    hide EvalExpr, CountUses, CrossesBarrier, Movable, ConditionallyWritten, Unaffected;
    var q := WithVar(p, dst, value);
    forall id <- Needed(rest, WithVar(m, dst, value).vars)
      ensures Holds(bindings, id, WithVar(m, dst, value).vars[id], block.context, q)
    {
      if id != dst {
        assert id in Needed(rest, m.vars);
        assert Holds(bindings, id, m.vars[id], block.context, p);
        if id in bindings {
          SameRegsUnaffected(bindings[id], block.context, p, q);
          EvalStable(bindings[id], block.context, p, q);
        }
      }
    }
  }

  /** Defining a variable, as a binding or with a let, once its operands have been used up. */
  lemma DefineCorrect(
      block: Instruction, build: Build, rest: seq<Op>, m: Machine, p: Machine, dst: VarId, expr: Expr, inlineable: bool,
      value: Word)
    requires Related(block, build.bindings, rest, m, p) && dst !in m.vars
    requires EvalExpr(expr, block.context, p) == Some(value) && !expr.Ref?
    requires inlineable ==> Movable(expr) && (expr.Source? ==> !CrossesBarrier(dst, StorageOf(expr.source), rest, block.context))
    requires CountUses(rest, dst) <= CountUses(block.ops, dst)
    ensures
      var after := DefineValue(block, build, dst, expr, inlineable);
      && build.ops <= after.ops
      && var end := RunExprSteps(after.ops[|build.ops|..], block.context, p);
         end.Running? && Related(block, after.bindings, rest, WithVar(m, dst, value), end.m)
  {
    hide EvalExpr, CountUses, CrossesBarrier, Movable, ConditionallyWritten, Related, StepExpr;
    var after := DefineValue(block, build, dst, expr, inlineable);
    if after.ops == build.ops {
      assert after.ops[|build.ops|..] == [];
      DefineBinding(block, build.bindings, rest, m, p, dst, expr, value);
    } else {
      assert after.ops[|build.ops|..] == [Let(dst, expr)];
      LetRuns(dst, expr, block.context, p, value);
      RunOneExpr(Let(dst, expr), block.context, p);
      DefineLet(block, build.bindings, rest, m, p, dst, value);
    }
  }

  lemma LetRuns(dst: VarId, expr: Expr, context: Context, p: Machine, value: Word)
    requires EvalExpr(expr, context, p) == Some(value)
    ensures StepExpr(Let(dst, expr), context, p) == Running(WithVar(p, dst, value))
  {
    hide ReadAlias, Mask32, Extended, EvalBinary, EvalUnary;
    if expr.Source? {
      ExtendedAnyDst(dst, expr, context);
      ReadSource(Get(dst, StorageOf(expr.source), expr.width, expr.signed), context, p, value);
    }
  }

  lemma ReadSource(op: Op, context: Context, p: Machine, value: Word)
    requires op.Get? && !op.source.Mem? && ReadPlace(op.source, op.width, op.signed, context, p) == Some(value)
    requires forall v: Word :: Extended(op, v) == Extended(Get(0, op.source, op.width, op.signed), v)
    ensures Step(op, context, p) == Running(WithVar(p, op.dst, value))
  {
    hide ReadAlias, Mask32, Extended;
  }

  lemma ExtendedAnyDst(dst: VarId, expr: Expr, context: Context)
    requires expr.Source? && !expr.source.MemExpr?
    ensures forall value: Word ::
              Extended(Get(dst, StorageOf(expr.source), expr.width, expr.signed), value) ==
              Extended(Get(0, StorageOf(expr.source), expr.width, expr.signed), value)
  {
  }

  // ---------- one operation ----------

  function Delta(block: Instruction, bindings: Bindings, op: Op, rest: seq<Op>): Build {
    BuildOp(block, Build(bindings, []), op, rest)
  }

  /** The expressions built for one operation do what the operation does. */
  ghost predicate OpCorrect(block: Instruction, bindings: Bindings, op: Op, rest: seq<Op>, m: Machine, p: Machine) {
    var delta := Delta(block, bindings, op, rest);
    Follows(block, delta.bindings, rest, Step(op, block.context, m), RunExprSteps(delta.ops, block.context, p))
  }

  ghost predicate Fresh(op: Op, vars: map<VarId, Word>) {
    Dst(op).Some? ==> Dst(op).value !in vars
  }

  ghost predicate Inside(block: Instruction, op: Op, rest: seq<Op>) {
    exists done: seq<Op> :: done + ([op] + rest) == block.ops
  }

  lemma InsideCounts(block: Instruction, op: Op, rest: seq<Op>, id: VarId)
    requires Inside(block, op, rest)
    ensures CountUses(rest, id) <= CountUses(block.ops, id)
  {
    hide OpUses, CountUses;
    var done: seq<Op> :| done + ([op] + rest) == block.ops;
    assert done + ([op] + rest) == (done + [op]) + rest;
    SuffixCount(done + [op], rest, id);
  }

  function Bound(value: Value, bindings: Bindings): set<VarId> {
    if value.Var? && value.id in bindings && !IsConst(bindings[value.id]) then {value.id} else {}
  }

  lemma AfterUseOne(x: Value, bindings: Bindings)
    ensures AfterUse(x, bindings) == bindings - Bound(x, bindings)
  {
  }

  lemma BoundLater(x: Value, bindings: Bindings, gone: set<VarId>)
    ensures Bound(x, bindings - gone) == Bound(x, bindings) - gone
    ensures (x.Var? ==> x.id !in gone) ==> ExprFor(x, bindings - gone) == ExprFor(x, bindings)
  {
  }

  lemma BoundMovable(block: Instruction, bindings: Bindings, rest: seq<Op>, x: Value)
    requires BindingsOk(block, bindings, rest)
    ensures Movable(ExprFor(x, bindings))
    ensures ExprFor(x, bindings).Ref? ==> Bound(x, bindings) == {}
  {
  }

  /** A value used before in the same operation is not bound to a tree. */
  lemma NotBoundTwice(block: Instruction, bindings: Bindings, op: Op, rest: seq<Op>, x: Value, y: Value)
    requires BindingsOk(block, bindings, [op] + rest)
    requires x.Var? && x == y ==> OpUses(op, x.id) > 1
    ensures y.Var? ==> y.id !in Bound(x, bindings)
  {
    hide OpUses, CountUses;
    if y.Var? && y.id in Bound(x, bindings) { UsedOnce(block, bindings, op, rest, y.id); }
  }

  lemma ConstCorrect(block: Instruction, bindings: Bindings, op: Op, rest: seq<Op>, m: Machine, p: Machine)
    requires op.ValueConst? && Related(block, bindings, [op] + rest, m, p) && Fresh(op, m.vars)
    ensures OpCorrect(block, bindings, op, rest, m, p)
  {
    hide CountUses, CrossesBarrier, BindingsOk, HoldsAll;
    Consume(block, bindings, op, rest, m, p);
    assert Consumed(op, bindings) == {};
    assert bindings - {} == bindings;
    DefineBinding(block, bindings, rest, m, p, op.dst, Ref(Const(op.constant)), op.constant);
  }

  /** A pure operation whose operands have been replaced by their trees. */
  lemma PureCorrect(
      block: Instruction, bindings: Bindings, op: Op, rest: seq<Op>, m: Machine, p: Machine, expr: Expr, inlineable: bool)
    requires Related(block, bindings, [op] + rest, m, p) && Fresh(op, m.vars) && Inside(block, op, rest)
    requires Dst(op).Some? && !op.Get? && Step(op, block.context, m) != Stuck
    requires EvalExpr(expr, block.context, p) == PureResult(op, block.context, m) && !expr.Ref? && !expr.Source?
    requires inlineable ==> Movable(expr)
    requires Delta(block, bindings, op, rest) ==
             DefineValue(block, Build(bindings - Consumed(op, bindings), []), Dst(op).value, expr, inlineable)
    ensures OpCorrect(block, bindings, op, rest, m, p)
  {
    hide CountUses, CrossesBarrier, BindingsOk, HoldsAll, EvalExpr, PureResult, DefineValue, OpUses, Related, Delta;
    var dst := Dst(op).value;
    PureSteps(op, block.context, m);
    var value := PureResult(op, block.context, m).value;
    Consume(block, bindings, op, rest, m, p);
    InsideCounts(block, op, rest, dst);
    DefineCorrect(block, Build(bindings - Consumed(op, bindings), []), rest, m, p, dst, expr, inlineable, value);
    var after := DefineValue(block, Build(bindings - Consumed(op, bindings), []), dst, expr, inlineable);
    assert after.ops[0..] == after.ops;
  }

  lemma PureSteps(op: Op, context: Context, m: Machine)
    requires Dst(op).Some? && !op.Get? && Step(op, context, m) != Stuck
    ensures PureResult(op, context, m).Some?
    ensures Step(op, context, m) == Running(WithVar(m, Dst(op).value, PureResult(op, context, m).value))
  {
    hide PureResult;
  }

  lemma BinaryDelta(block: Instruction, bindings: Bindings, op: Op, rest: seq<Op>)
    requires op.ValueBinary? && BindingsOk(block, bindings, [op] + rest)
    ensures
      var expr := BinaryExpr(op.binary, ExprFor(op.a, bindings), ExprFor(op.b, bindings));
      && Movable(expr)
      && Delta(block, bindings, op, rest) ==
         DefineValue(block, Build(bindings - Consumed(op, bindings), []), op.dst, expr, true)
  {
    hide CountUses, CrossesBarrier, BindingsOk, DefineValue, ExprFor, AfterUse;
    var x, y := op.a, op.b;
    BoundMovable(block, bindings, [op] + rest, x);
    BoundMovable(block, bindings, [op] + rest, y);
    NotBoundTwice(block, bindings, op, rest, x, y);
    AfterUseOne(x, bindings);
    BoundLater(y, bindings, Bound(x, bindings));
    AfterUseOne(y, bindings - Bound(x, bindings));
    assert bindings - Consumed(op, bindings) == bindings - Bound(x, bindings) - (Bound(y, bindings) - Bound(x, bindings));
  }

  lemma BinaryCorrect(block: Instruction, bindings: Bindings, op: Op, rest: seq<Op>, m: Machine, p: Machine)
    requires op.ValueBinary? && Related(block, bindings, [op] + rest, m, p) && Fresh(op, m.vars)
    requires Inside(block, op, rest) && Step(op, block.context, m) != Stuck
    ensures OpCorrect(block, bindings, op, rest, m, p)
  {
    hide CountUses, BindingsOk, Related, DefineValue, OpCorrect, EvalBinary, ExprFor, Delta, Consumed, Inside, Step;
    PureSteps(op, block.context, m);
    OperandHeld(block, bindings, op, rest, m, p, op.a);
    OperandHeld(block, bindings, op, rest, m, p, op.b);
    RelatedBindings(block, bindings, [op] + rest, m, p);
    BinaryDelta(block, bindings, op, rest);
    var expr := BinaryExpr(op.binary, ExprFor(op.a, bindings), ExprFor(op.b, bindings));
    PureCorrect(block, bindings, op, rest, m, p, expr, true);
  }

  lemma RelatedBindings(block: Instruction, bindings: Bindings, rest: seq<Op>, m: Machine, p: Machine)
    requires Related(block, bindings, rest, m, p)
    ensures BindingsOk(block, bindings, rest) && p == m.(vars := p.vars) && p.vars.Keys <= m.vars.Keys
    ensures bindings.Keys !! p.vars.Keys
  {
  }

  lemma UnaryCorrect(block: Instruction, bindings: Bindings, op: Op, rest: seq<Op>, m: Machine, p: Machine)
    requires op.ValueUnary? && Related(block, bindings, [op] + rest, m, p) && Fresh(op, m.vars)
    requires Inside(block, op, rest) && Step(op, block.context, m) != Stuck
    ensures OpCorrect(block, bindings, op, rest, m, p)
  {
    hide CountUses, CrossesBarrier, BindingsOk, HoldsAll, Related, DefineValue, OpCorrect, EvalUnary, ExprFor, AfterUse;
    PureSteps(op, block.context, m);
    OperandHeld(block, bindings, op, rest, m, p, op.a);
    RelatedBindings(block, bindings, [op] + rest, m, p);
    BoundMovable(block, bindings, [op] + rest, op.a);
    AfterUseOne(op.a, bindings);
    assert bindings - Consumed(op, bindings) == bindings - Bound(op.a, bindings);
    PureCorrect(block, bindings, op, rest, m, p, UnaryExpr(op.unary, ExprFor(op.a, bindings)), true);
  }

  lemma LeafCorrect(block: Instruction, bindings: Bindings, op: Op, rest: seq<Op>, m: Machine, p: Machine)
    requires (op.Address? || op.FlagsCondition?) && Related(block, bindings, [op] + rest, m, p) && Fresh(op, m.vars)
    requires Inside(block, op, rest) && Step(op, block.context, m) != Stuck
    ensures OpCorrect(block, bindings, op, rest, m, p)
  {
    hide CountUses, CrossesBarrier, BindingsOk, HoldsAll, Related, DefineValue, OpCorrect, Condition, EffectiveAddress;
    PureSteps(op, block.context, m);
    RelatedBindings(block, bindings, [op] + rest, m, p);
    assert Consumed(op, bindings) == {};
    assert bindings - Consumed(op, bindings) == bindings;
    if op.Address? {
      PureCorrect(block, bindings, op, rest, m, p, AddressOf(op.operand), true);
    } else {
      PureCorrect(block, bindings, op, rest, m, p, FlagsTest(op.cc), false);
    }
  }

  lemma AfterStorageConsumed(op: Op, bindings: Bindings)
    requires op.Get?
    ensures AfterStorage(op.source, bindings) == bindings - Consumed(op, bindings)
  {
    if op.source.Mem? { AfterUseOne(op.source.address, bindings); }
  }

  lemma ReadsPlace(op: Op, context: Context, m: Machine, p: Machine)
    requires op.Get? && !IsMemory(op.source, context.operands) && Step(op, context, m) != Stuck && p == m.(vars := p.vars)
    ensures ReadPlace(op.source, op.width, op.signed, context, p).Some?
    ensures Step(op, context, m) == Running(WithVar(m, op.dst, ReadPlace(op.source, op.width, op.signed, context, p).value))
  {
    hide ReadAlias, Mask32, SignExtend;
  }

  lemma GetRegister(block: Instruction, bindings: Bindings, op: Op, rest: seq<Op>, m: Machine, p: Machine)
    requires op.Get? && !IsMemory(op.source, block.context.operands)
    requires Related(block, bindings, [op] + rest, m, p) && Fresh(op, m.vars)
    requires Inside(block, op, rest) && Step(op, block.context, m) != Stuck
    ensures OpCorrect(block, bindings, op, rest, m, p)
  {
    hide CountUses, CrossesBarrier, BindingsOk, HoldsAll, Related, DefineValue, CanInlineGet, ReadPlace, OpUses;
    RelatedBindings(block, bindings, [op] + rest, m, p);
    ReadsPlace(op, block.context, m, p);
    AfterStorageConsumed(op, bindings);
    Consume(block, bindings, op, rest, m, p);
    InsideCounts(block, op, rest, op.dst);
    var expr := Source(StorageExprOf(op.source, bindings), op.width, op.signed);
    var inlineable := CanInlineGet(op.source, block.context) && !CrossesBarrier(op.dst, op.source, rest, block.context);
    var value := ReadPlace(op.source, op.width, op.signed, block.context, p).value;
    assert StorageOf(StorageExprOf(op.source, bindings)) == op.source;
    var build := Build(bindings - Consumed(op, bindings), []);
    DefineCorrect(block, build, rest, m, p, op.dst, expr, inlineable, value);
    var after := DefineValue(block, build, op.dst, expr, inlineable);
    assert after.ops[0..] == after.ops;
  }

  lemma MemoryNotInlined(op: Op, context: Context)
    requires op.Get? && IsMemory(op.source, context.operands)
    ensures !CanInlineGet(op.source, context)
  {
  }

  lemma GetMemory(block: Instruction, bindings: Bindings, op: Op, rest: seq<Op>, m: Machine, p: Machine)
    requires op.Get? && IsMemory(op.source, block.context.operands)
    requires Related(block, bindings, [op] + rest, m, p) && Fresh(op, m.vars) && Step(op, block.context, m) != Stuck
    ensures OpCorrect(block, bindings, op, rest, m, p)
  {
    hide CountUses, CrossesBarrier, BindingsOk, HoldsAll, Related, CanInlineGet, OpUses, Step, Fixed, IsMemory;
    RelatedBindings(block, bindings, [op] + rest, m, p);
    AfterStorageConsumed(op, bindings);
    MemoryNotInlined(op, block.context);
    var read := Let(op.dst, Source(StorageExprOf(op.source, bindings), op.width, op.signed));
    assert Delta(block, bindings, op, rest) == Build(bindings - Consumed(op, bindings), [read]);
    RunOneExpr(read, block.context, p);
    ReadAddress(block, bindings, op, rest, m, p);
    MemoryRead(op, block.context, m, p);
    var step := Step(op, block.context, m);
    if step.Running? {
      var value := step.m.vars[op.dst];
      var n := step.m.(vars := m.vars);
      BindingsSurvive(block, bindings, op, rest, m, p, n.(vars := p.vars));
      PastOp(block, bindings, op, rest, m, p, n, n.(vars := p.vars));
      DefineLet(block, bindings - Consumed(op, bindings), rest, n, n.(vars := p.vars), op.dst, value);
    }
  }

  /** The address of a read is computed before the read. */
  lemma ReadAddress(block: Instruction, bindings: Bindings, op: Op, rest: seq<Op>, m: Machine, p: Machine)
    requires op.Get? && Related(block, bindings, [op] + rest, m, p) && Step(op, block.context, m) != Stuck
    ensures StepExpr(Let(op.dst, Source(StorageExprOf(op.source, bindings), op.width, op.signed)), block.context, p) ==
            Step(FixedOp(op, m, block.context), block.context, p)
  {
    hide Related, StepGet, CountUses;
    AddressDefined(op, block.context, m);
    ResolveOperand(block, bindings, op, rest, m, p, op.source);
  }

  lemma AddressDefined(op: Op, context: Context, m: Machine)
    requires (op.Get? || op.Set?) && Step(op, context, m) != Stuck
    ensures
      var storage := if op.Get? then op.source else op.target;
      storage.Mem? ==> Eval(storage.address, m.vars, context.nextEip).Some? &&
                       (storage.address.Var? ==> OpUses(op, storage.address.id) > 0)
  {
    hide ReadMemory, WriteMemory, ReadAlias, WriteAlias, Mask32, Extended;
  }

  lemma MemoryRead(op: Op, context: Context, m: Machine, p: Machine)
    requires op.Get? && IsMemory(op.source, context.operands) && Step(op, context, m) != Stuck && p == m.(vars := p.vars)
    ensures
      var step, other := Step(op, context, m), Step(FixedOp(op, m, context), context, p);
      match step
      case Running(n) =>
        && op.dst in n.vars && n == WithVar(n.(vars := m.vars), op.dst, n.vars[op.dst]) && n.regs == m.regs
        && other == Running(WithVar(n.(vars := p.vars), op.dst, n.vars[op.dst]))
      case _ => other == step && step.Fault?
  {
    hide ReadMemory, Extended, Fixed;
    FixedStep(op, context, m);
    FixedUsesNothing(op, context, m);
    StepReadsItsUses(FixedOp(op, m, context), context, m, p.vars);
    MemoryReadShape(op, context, m);
  }

  lemma MemoryReadShape(op: Op, context: Context, m: Machine)
    requires op.Get? && IsMemory(op.source, context.operands) && Step(op, context, m) != Stuck
    ensures
      var step := Step(op, context, m);
      && (step.Running? || step.Fault?)
      && (step.Running? ==>
            op.dst in step.m.vars && step.m == WithVar(step.m.(vars := m.vars), op.dst, step.m.vars[op.dst]) &&
            step.m.regs == m.regs)
  {
    hide ReadMemory, Extended;
  }

  // ---------- writes ----------

  /** A write changes memory, or one register as its alias says, or nothing. */
  ghost predicate WritesTo(op: Op, context: Context, m: Machine, n: Machine)
    requires op.Set? || op.SetIf?
  {
    n.vars == m.vars &&
    (n.regs == m.regs ||
     (!Target(op).value.Mem? && AccessAlias(Target(op).value, op.width, context).Some? &&
      exists value: Word :: n.regs == WriteAlias(m.regs, AccessAlias(Target(op).value, op.width, context).value, value)))
  }

  lemma WriteShape(op: Op, context: Context, m: Machine)
    requires (op.Set? || op.SetIf?) && Step(op, context, m) != Stuck
    ensures
      var step := Step(op, context, m);
      (step.Running? || step.Fault?) && (step.Running? ==> WritesTo(op, context, m, step.m))
  {
    hide WriteMemory, WriteAlias, Mask32, AccessAlias;
    AccessAliasOfPlace(op.target, op.width, context, m);
  }

  lemma WriteSame(op: Op, context: Context, m: Machine, p: Machine)
    requires (op.Set? || (op.SetIf? && !op.target.Mem?)) && Step(op, context, m) != Stuck && p == m.(vars := p.vars)
    ensures
      var step, other := Step(op, context, m), Step(FixedOp(op, m, context), context, p);
      if step.Running? then step.m.vars == m.vars && other == Running(step.m.(vars := p.vars)) else other == step
  {
    hide Step, Uses, Fixed, FixedStorage, WritesTo;
    FixedStep(op, context, m);
    FixedUsesNothing(op, context, m);
    StepReadsItsUses(FixedOp(op, m, context), context, m, p.vars);
    WriteShape(op, context, m);
    WritesVars(op, context, m);
  }

  lemma WritesVars(op: Op, context: Context, m: Machine)
    requires (op.Set? || op.SetIf?) && Step(op, context, m) != Stuck
    ensures Step(op, context, m).Running? ==> Step(op, context, m).m.vars == m.vars
  {
    hide Step;
    WriteShape(op, context, m);
  }

  /** Once the expression of a write is known to do what the write does, the relation moves past it. */
  lemma WriteCorrect(
      block: Instruction, bindings: Bindings, op: Op, rest: seq<Op>, m: Machine, p: Machine, expr: ExprOp)
    requires (op.Set? || (op.SetIf? && !op.target.Mem?)) && Step(op, block.context, m) != Stuck
    requires Related(block, bindings, [op] + rest, m, p) && Undisturbed(block, bindings, op, rest)
    requires RealAliases(block.context)
    requires StepExpr(expr, block.context, p) == Step(FixedOp(op, m, block.context), block.context, p)
    requires Delta(block, bindings, op, rest) == Build(bindings - Consumed(op, bindings), [expr])
    ensures OpCorrect(block, bindings, op, rest, m, p)
  {
    hide CountUses, BindingsOk, HoldsAll, OpUses, Step, Fixed, FixedStorage, StepExpr, Undisturbed, RealAliases, Delta, Survives,
      AccessAlias, WriteAlias, Related, Consumed;
    RelatedBindings(block, bindings, [op] + rest, m, p);
    RunOneExpr(expr, block.context, p);
    WriteSame(op, block.context, m, p);
    var step := Step(op, block.context, m);
    if step.Running? {
      WriteShape(op, block.context, m);
      var n, q := step.m, step.m.(vars := p.vars);
      assert p.regs == m.regs;
      if n.regs == m.regs {
        BindingsSurvive(block, bindings, op, rest, m, p, q);
      } else {
        var value: Word :| n.regs == WriteAlias(m.regs, AccessAlias(Target(op).value, op.width, block.context).value, value);
        BindingsSurviveWrite(block, bindings, op, rest, m, p, q, op.width, value);
      }
      PastOp(block, bindings, op, rest, m, p, n, q);
    } else {
      WriteShape(op, block.context, m);
    }
  }

  lemma AfterStorageOne(storage: Storage, bindings: Bindings)
    ensures AfterStorage(storage, bindings) ==
            bindings - (if storage.Mem? then Bound(storage.address, bindings) else {})
  {
    if storage.Mem? { AfterUseOne(storage.address, bindings); }
  }

  lemma SetDelta(block: Instruction, bindings: Bindings, op: Op, rest: seq<Op>)
    requires op.Set? && BindingsOk(block, bindings, [op] + rest)
    ensures Delta(block, bindings, op, rest) ==
            Build(bindings - Consumed(op, bindings),
                  [SetExpr(StorageExprOf(op.target, bindings), ExprFor(op.value, bindings), op.width, op.materialization)])
  {
    hide CountUses, CrossesBarrier, BindingsOk, ExprFor, AfterUse, StorageExprOf;
    var used := if op.target.Mem? then Bound(op.target.address, bindings) else {};
    AfterStorageOne(op.target, bindings);
    if op.target.Mem? { NotBoundTwice(block, bindings, op, rest, op.target.address, op.value); }
    BoundLater(op.value, bindings, used);
    AfterUseOne(op.value, bindings - used);
    assert bindings - Consumed(op, bindings) == bindings - used - (Bound(op.value, bindings) - used);
  }

  lemma SetOperands(block: Instruction, bindings: Bindings, op: Op, rest: seq<Op>, m: Machine, p: Machine)
    requires op.Set? && Related(block, bindings, [op] + rest, m, p) && Step(op, block.context, m) != Stuck
    ensures
      var expr := SetExpr(StorageExprOf(op.target, bindings), ExprFor(op.value, bindings), op.width, op.materialization);
      StepExpr(expr, block.context, p) == Step(FixedOp(op, m, block.context), block.context, p)
  {
    hide Related, StepWrite, CountUses, ExprFor, StorageExprOf;
    AddressDefined(op, block.context, m);
    ValueDefined(op, block.context, m);
    ResolveOperand(block, bindings, op, rest, m, p, op.target);
    OperandHeld(block, bindings, op, rest, m, p, op.value);
  }

  lemma ValueDefined(op: Op, context: Context, m: Machine)
    requires (op.Set? || op.SetIf?) && Step(op, context, m) != Stuck
    ensures Eval(op.value, m.vars, context.nextEip).Some? && (op.value.Var? ==> OpUses(op, op.value.id) > 0)
    ensures op.SetIf? ==> Eval(op.condition, m.vars, context.nextEip).Some? &&
                          (op.condition.Var? ==> OpUses(op, op.condition.id) > 0)
  {
    hide StepWrite;
  }

  lemma SetCorrect(block: Instruction, bindings: Bindings, op: Op, rest: seq<Op>, m: Machine, p: Machine)
    requires op.Set? && Related(block, bindings, [op] + rest, m, p) && Step(op, block.context, m) != Stuck
    requires Undisturbed(block, bindings, op, rest) && RealAliases(block.context)
    ensures OpCorrect(block, bindings, op, rest, m, p)
  {
    hide Related, CountUses, Step, StepExpr, BindingsOk, Undisturbed, RealAliases, OpCorrect, Delta, Fixed, Consumed;
    RelatedBindings(block, bindings, [op] + rest, m, p);
    SetDelta(block, bindings, op, rest);
    SetOperands(block, bindings, op, rest, m, p);
    WriteCorrect(block, bindings, op, rest, m, p,
                 SetExpr(StorageExprOf(op.target, bindings), ExprFor(op.value, bindings), op.width, op.materialization));
  }

  /** The value of a conditional write was never bound to a tree, so it stays a reference. */
  lemma ConditionalValue(block: Instruction, bindings: Bindings, op: Op, rest: seq<Op>)
    requires op.SetIf? && BindingsOk(block, bindings, [op] + rest) && Inside(block, op, rest)
    ensures ExprFor(op.value, bindings).Ref? && Bound(op.value, bindings) == {}
  {
    hide CountUses, CrossesBarrier;
    var done: seq<Op> :| done + ([op] + rest) == block.ops;
    assert op == block.ops[|done|] && op in block.ops;
  }

  lemma SetIfDelta(block: Instruction, bindings: Bindings, op: Op, rest: seq<Op>)
    requires op.SetIf? && !op.target.Mem? && BindingsOk(block, bindings, [op] + rest) && Inside(block, op, rest)
    ensures Delta(block, bindings, op, rest) ==
            Build(bindings - Consumed(op, bindings),
                  [SetIfExpr(ExprFor(op.condition, bindings), StorageExprOf(op.target, bindings),
                             ExprFor(op.value, bindings), op.width)])
  {
    hide CountUses, CrossesBarrier, BindingsOk, ExprFor, AfterUse;
    var used := Bound(op.condition, bindings);
    ConditionalValue(block, bindings, op, rest);
    NotBoundTwice(block, bindings, op, rest, op.condition, op.value);
    AfterUseOne(op.condition, bindings);
    BoundLater(op.value, bindings, used);
    AfterUseOne(op.value, bindings - used);
    assert bindings - Consumed(op, bindings) == bindings - used;
    assert bindings - used - {} == bindings - used;
  }

  lemma SetIfOperands(block: Instruction, bindings: Bindings, op: Op, rest: seq<Op>, m: Machine, p: Machine)
    requires op.SetIf? && !op.target.Mem? && Related(block, bindings, [op] + rest, m, p) && Step(op, block.context, m) != Stuck
    ensures
      var expr := SetIfExpr(ExprFor(op.condition, bindings), StorageExprOf(op.target, bindings),
                            ExprFor(op.value, bindings), op.width);
      StepExpr(expr, block.context, p) == Step(FixedOp(op, m, block.context), block.context, p)
  {
    hide Related, StepWrite, CountUses, ExprFor;
    ValueDefined(op, block.context, m);
    OperandHeld(block, bindings, op, rest, m, p, op.condition);
    OperandHeld(block, bindings, op, rest, m, p, op.value);
  }

  lemma SetIfCorrect(block: Instruction, bindings: Bindings, op: Op, rest: seq<Op>, m: Machine, p: Machine)
    requires op.SetIf? && !op.target.Mem? && Related(block, bindings, [op] + rest, m, p) && Step(op, block.context, m) != Stuck
    requires Undisturbed(block, bindings, op, rest) && RealAliases(block.context) && Inside(block, op, rest)
    ensures OpCorrect(block, bindings, op, rest, m, p)
  {
    hide Related, CountUses, Step, StepExpr, BindingsOk, Undisturbed, RealAliases, OpCorrect, Delta, Fixed, Consumed, Inside;
    RelatedBindings(block, bindings, [op] + rest, m, p);
    SetIfDelta(block, bindings, op, rest);
    SetIfOperands(block, bindings, op, rest, m, p);
    WriteCorrect(block, bindings, op, rest, m, p,
                 SetIfExpr(ExprFor(op.condition, bindings), StorageExprOf(op.target, bindings),
                           ExprFor(op.value, bindings), op.width));
  }

  // ---------- operations on flags, and terminators ----------

  /** A change that leaves the registers alone and only adds variables. */
  lemma PastState(block: Instruction, bindings: Bindings, rest: seq<Op>, m: Machine, p: Machine, n: Machine, q: Machine)
    requires Related(block, bindings, rest, m, p) && n.vars == m.vars
    requires q == n.(vars := q.vars) && Extends(p.vars, q.vars) && q.vars.Keys <= m.vars.Keys && q.regs == p.regs
    requires bindings.Keys !! q.vars.Keys
    ensures Related(block, bindings, rest, n, q)
  {
    hide EvalExpr, CountUses, CrossesBarrier, Movable, ConditionallyWritten, Unaffected;
    forall id <- Needed(rest, n.vars) ensures Holds(bindings, id, n.vars[id], block.context, q) {
      assert Holds(bindings, id, m.vars[id], block.context, p);
      if id in bindings {
        SameRegsUnaffected(bindings[id], block.context, p, q);
        EvalStable(bindings[id], block.context, p, q);
      }
    }
  }

  lemma PlainFlagsCorrect(block: Instruction, bindings: Bindings, op: Op, rest: seq<Op>, m: Machine, p: Machine)
    requires (op.FlagsMaterialize? || op.FlagsBoundary?) && Related(block, bindings, [op] + rest, m, p)
    ensures OpCorrect(block, bindings, op, rest, m, p)
  {
    hide CountUses, BindingsOk, HoldsAll;
    assert Consumed(op, bindings) == {};
    assert bindings - Consumed(op, bindings) == bindings;
    assert Delta(block, bindings, op, rest) == Build(bindings, [PlainOp(op)]);
    RunOneExpr(PlainOp(op), block.context, p);
    Consume(block, bindings, op, rest, m, p);
  }

  /** A terminator ends the run, so only what it evaluates matters. */
  lemma StopCorrect(
      block: Instruction, bindings: Bindings, op: Op, rest: seq<Op>, m: Machine, p: Machine, expr: ExprOp)
    requires IsTerminator(op) && Step(op, block.context, m) != Stuck && Related(block, bindings, [op] + rest, m, p)
    requires StepExpr(expr, block.context, p) == Step(FixedOp(op, m, block.context), block.context, p)
    requires Delta(block, bindings, op, rest).ops == [expr]
    ensures OpCorrect(block, bindings, op, rest, m, p)
  {
    hide Related, Step, StepExpr, Delta, Uses, Fixed;
    RelatedBindings(block, bindings, [op] + rest, m, p);
    RunOneExpr(expr, block.context, p);
    FixedStep(op, block.context, m);
    NextUsesNothing(op);
    if !op.Next? { FixedUsesNothing(op, block.context, m); }
    StepReadsItsUses(FixedOp(op, m, block.context), block.context, m, p.vars);
    Stops(op, block.context, m);
  }

  lemma NextUsesNothing(op: Op)
    ensures op.Next? ==> Uses(op) == {}
  {
  }

  lemma Stops(op: Op, context: Context, m: Machine)
    requires IsTerminator(op)
    ensures !Step(op, context, m).Running?
  {
  }

  lemma ConditionalJumpDelta(block: Instruction, bindings: Bindings, op: Op, rest: seq<Op>)
    requires op.ConditionalJump? && BindingsOk(block, bindings, [op] + rest)
    ensures Delta(block, bindings, op, rest).ops ==
            [ConditionalJumpExpr(ExprFor(op.condition, bindings), ExprFor(op.taken, bindings), ExprFor(op.notTaken, bindings))]
  {
    hide CountUses, CrossesBarrier, BindingsOk, ExprFor, AfterUse;
    var c, t, f := op.condition, op.taken, op.notTaken;
    NotBoundTwice(block, bindings, op, rest, c, t);
    NotBoundTwice(block, bindings, op, rest, c, f);
    NotBoundTwice(block, bindings, op, rest, t, f);
    AfterUseOne(c, bindings);
    BoundLater(t, bindings, Bound(c, bindings));
    AfterUseOne(t, bindings - Bound(c, bindings));
    var gone := Bound(c, bindings) + (Bound(t, bindings) - Bound(c, bindings));
    assert bindings - Bound(c, bindings) - (Bound(t, bindings) - Bound(c, bindings)) == bindings - gone;
    BoundLater(f, bindings, gone);
  }

  lemma TerminatorCorrect(block: Instruction, bindings: Bindings, op: Op, rest: seq<Op>, m: Machine, p: Machine)
    requires IsTerminator(op) && Step(op, block.context, m) != Stuck && Related(block, bindings, [op] + rest, m, p)
    ensures OpCorrect(block, bindings, op, rest, m, p)
  {
    hide Related, CountUses, BindingsOk, OpCorrect, ExprFor;
    RelatedBindings(block, bindings, [op] + rest, m, p);
    StopOperands(op, block.context, m);
    match op
    case Next => StopCorrect(block, bindings, op, rest, m, p, PlainOp(Next));
    case Jump(_) => JumpCorrect(block, bindings, op, rest, m, p);
    case ConditionalJump(_, _, _) => ConditionalJumpCorrect(block, bindings, op, rest, m, p);
    case HostTrap(_) => HostTrapCorrect(block, bindings, op, rest, m, p);
  }

  lemma JumpCorrect(block: Instruction, bindings: Bindings, op: Op, rest: seq<Op>, m: Machine, p: Machine)
    requires op.Jump? && Step(op, block.context, m) != Stuck && Related(block, bindings, [op] + rest, m, p)
    ensures OpCorrect(block, bindings, op, rest, m, p)
  {
    hide Related, CountUses, BindingsOk, OpCorrect, ExprFor;
    RelatedBindings(block, bindings, [op] + rest, m, p);
    StopOperands(op, block.context, m);
    OperandHeld(block, bindings, op, rest, m, p, op.jumpTarget);
    StopCorrect(block, bindings, op, rest, m, p, JumpExpr(ExprFor(op.jumpTarget, bindings)));
  }

  lemma HostTrapCorrect(block: Instruction, bindings: Bindings, op: Op, rest: seq<Op>, m: Machine, p: Machine)
    requires op.HostTrap? && Step(op, block.context, m) != Stuck && Related(block, bindings, [op] + rest, m, p)
    ensures OpCorrect(block, bindings, op, rest, m, p)
  {
    hide Related, CountUses, BindingsOk, OpCorrect, ExprFor;
    RelatedBindings(block, bindings, [op] + rest, m, p);
    StopOperands(op, block.context, m);
    OperandHeld(block, bindings, op, rest, m, p, op.vector);
    StopCorrect(block, bindings, op, rest, m, p, HostTrapExpr(ExprFor(op.vector, bindings)));
  }

  lemma ConditionalJumpCorrect(block: Instruction, bindings: Bindings, op: Op, rest: seq<Op>, m: Machine, p: Machine)
    requires op.ConditionalJump? && Step(op, block.context, m) != Stuck && Related(block, bindings, [op] + rest, m, p)
    ensures OpCorrect(block, bindings, op, rest, m, p)
  {
    hide Related, CountUses, BindingsOk, OpCorrect, ExprFor, Delta;
    RelatedBindings(block, bindings, [op] + rest, m, p);
    StopOperands(op, block.context, m);
    var c, t, f := op.condition, op.taken, op.notTaken;
    ConditionalJumpDelta(block, bindings, op, rest);
    OperandHeld(block, bindings, op, rest, m, p, c);
    OperandHeld(block, bindings, op, rest, m, p, t);
    OperandHeld(block, bindings, op, rest, m, p, f);
    StopCorrect(block, bindings, op, rest, m, p,
                ConditionalJumpExpr(ExprFor(c, bindings), ExprFor(t, bindings), ExprFor(f, bindings)));
  }

  lemma StopOperands(op: Op, context: Context, m: Machine)
    requires IsTerminator(op) && Step(op, context, m) != Stuck
    ensures op.Jump? ==> Eval(op.jumpTarget, m.vars, context.nextEip).Some?
    ensures op.HostTrap? ==> Eval(op.vector, m.vars, context.nextEip).Some?
    ensures op.ConditionalJump? ==> Eval(op.condition, m.vars, context.nextEip).Some? &&
                                    Eval(op.taken, m.vars, context.nextEip).Some? &&
                                    Eval(op.notTaken, m.vars, context.nextEip).Some?
  {
  }

  // ---------- inputs that must be plain references ----------

  /** The machine after emitted lets: more variables, nothing else. */
  ghost predicate LetsRan(before: seq<ExprOp>, after: seq<ExprOp>, context: Context, m: Machine, p: Machine, q: Machine) {
    && before <= after && RunExprSteps(after[|before|..], context, p) == Running(q)
    && q == p.(vars := q.vars) && Extends(p.vars, q.vars) && q.vars.Keys <= m.vars.Keys
  }

  lemma LetsNone(ops: seq<ExprOp>, context: Context, m: Machine, p: Machine)
    requires p.vars.Keys <= m.vars.Keys
    ensures LetsRan(ops, ops, context, m, p, p)
  {
    assert ops[|ops|..] == [];
  }

  lemma LetsMore(
      first: seq<ExprOp>, second: seq<ExprOp>, third: seq<ExprOp>, context: Context, m: Machine, p: Machine, q: Machine,
      r: Machine)
    requires LetsRan(first, second, context, m, p, q) && LetsRan(second, third, context, m, q, r)
    ensures LetsRan(first, third, context, m, p, r)
  {
    hide RunExprSteps;
    assert third[|first|..] == second[|first|..] + third[|second|..];
    RunExprStepsAppend(second[|first|..], third[|second|..], context, p);
  }

  lemma HoldsAfterLet(
      bindings: Bindings, ids: set<VarId>, context: Context, m: Machine, p: Machine, id: VarId, value: Word)
    requires HoldsAll(bindings, ids, m.vars, context, p) && id in m.vars && m.vars[id] == value
    requires id !in p.vars || p.vars[id] == value
    requires forall x <- bindings :: Movable(bindings[x])
    ensures HoldsAll(bindings - {id}, ids, m.vars, context, WithVar(p, id, value))
  {
    hide EvalExpr, Movable, Unaffected;
    var q := WithVar(p, id, value);
    forall x <- ids | x in m.vars ensures Holds(bindings - {id}, x, m.vars[x], context, q) {
      assert Holds(bindings, x, m.vars[x], context, p);
      if x in bindings && x != id {
        SameRegsUnaffected(bindings[x], context, p, q);
        EvalStable(bindings[x], context, p, q);
      }
    }
  }

  /** Ready to materialize: trees movable, variables assigned once. */
  ghost predicate Materializable(bindings: Bindings, ids: set<VarId>, context: Context, m: Machine, p: Machine) {
    && HoldsAll(bindings, ids, m.vars, context, p) && p.vars.Keys <= m.vars.Keys
    && (forall x <- bindings :: Movable(bindings[x]) && (bindings[x].Ref? ==> IsConst(bindings[x])) && x !in p.vars)
  }

  lemma MaterializeCorrect(
      build: Build, value: Value, ids: set<VarId>, context: Context, m: Machine, p: Machine) returns (q: Machine)
    requires Materializable(build.bindings, ids, context, m, p) && (value.Var? ==> value.id in ids)
    requires Eval(value, m.vars, context.nextEip).Some?
    ensures
      var r := Materialize(build, value);
      && LetsRan(build.ops, r.0.ops, context, m, p, q) && q.vars.Keys <= p.vars.Keys + Bound(value, build.bindings)
      && Materializable(r.0.bindings, ids, context, m, q)
      && r.0.bindings == build.bindings - Bound(value, build.bindings)
      && Eval(r.1, q.vars, context.nextEip) == Eval(value, m.vars, context.nextEip)
  {
    hide EvalExpr, Movable, Unaffected, StepExpr;
    UseValue(value, build.bindings, ids, context, m, p);
    var expr := ExprFor(value, build.bindings);
    AfterUseOne(value, build.bindings);
    if expr.Ref? {
      q := p;
      LetsNone(build.ops, context, m, p);
      RefEvaluates(expr, context, p);
      assert build.bindings - {} == build.bindings;
    } else {
      var v := m.vars[value.id];
      q := WithVar(p, value.id, v);
      LetRuns(value.id, expr, context, p, v);
      RunOneExpr(Let(value.id, expr), context, p);
      var after := build.ops + [Let(value.id, expr)];
      assert after[|build.ops|..] == [Let(value.id, expr)];
      HoldsAfterLet(build.bindings, ids, context, m, p, value.id, v);
    }
  }

  lemma RefEvaluates(expr: Expr, context: Context, p: Machine)
    requires expr.Ref?
    ensures EvalExpr(expr, context, p) == Eval(expr.value, p.vars, context.nextEip)
  {
  }

  function BoundInputs(inputs: InputRefs, names: seq<InputName>, bindings: Bindings): set<VarId> {
    if names == [] then {}
    else (if names[0] in inputs then Bound(inputs[names[0]], bindings) else {}) + BoundInputs(inputs, names[1..], bindings)
  }

  lemma {:induction false} BoundInputsLater(inputs: InputRefs, names: seq<InputName>, bindings: Bindings, gone: set<VarId>)
    ensures BoundInputs(inputs, names, bindings - gone) == BoundInputs(inputs, names, bindings) - gone
    decreases names
  {
    if names != [] {
      BoundInputsLater(inputs, names[1..], bindings, gone);
      if names[0] in inputs { BoundLater(inputs[names[0]], bindings, gone); }
    }
  }

  ghost predicate InputsDefined(inputs: InputRefs, names: seq<InputName>, ids: set<VarId>, context: Context, m: Machine) {
    forall name <- names :: name in inputs ==>
      Eval(inputs[name], m.vars, context.nextEip).Some? && (inputs[name].Var? ==> inputs[name].id in ids)
  }

  /** The materialized inputs are the named ones, with the same values. */
  ghost predicate SameInputValues(
      inputs: InputRefs, names: seq<InputName>, after: InputRefs, context: Context, m: Machine, q: Machine)
  {
    && (forall name: InputName :: name in after <==> name in names && name in inputs)
    && (forall name <- after :: Eval(after[name], q.vars, context.nextEip) == Eval(inputs[name], m.vars, context.nextEip))
  }

  lemma {:induction false} MaterializeInputsCorrect(
      build: Build, inputs: InputRefs, names: seq<InputName>, ids: set<VarId>, context: Context, m: Machine, p: Machine)
    returns (q: Machine)
    requires Materializable(build.bindings, ids, context, m, p) && InputsDefined(inputs, names, ids, context, m)
    ensures
      var r := MaterializeInputs(build, inputs, names);
      && LetsRan(build.ops, r.0.ops, context, m, p, q)
      && Materializable(r.0.bindings, ids, context, m, q)
      && r.0.bindings == build.bindings - BoundInputs(inputs, names, build.bindings)
      && SameInputValues(inputs, names, r.1, context, m, q)
    decreases names
  {
    hide Materializable, LetsRan, Materialize, Bound, Eval;
    if names == [] {
      q := p;
      LetsNone(build.ops, context, m, p) by { MaterializableVars(build.bindings, ids, context, m, p); }
      assert build.bindings - {} == build.bindings;
    } else if names[0] !in inputs {
      q := MaterializeInputsCorrect(build, inputs, names[1..], ids, context, m, p);
    } else {
      var value := inputs[names[0]];
      var here := Materialize(build, value);
      var middle := MaterializeCorrect(build, value, ids, context, m, p);
      q := MaterializeInputsCorrect(here.0, inputs, names[1..], ids, context, m, middle);
      var rest := MaterializeInputs(here.0, inputs, names[1..]);
      LetsMore(build.ops, here.0.ops, rest.0.ops, context, m, p, middle, q);
      BoundInputsLater(inputs, names[1..], build.bindings, Bound(value, build.bindings));
      StillEvaluates(here.1, here.0.ops, rest.0.ops, context, m, middle, q, Eval(value, m.vars, context.nextEip));
      OneMoreInput(inputs, names, rest.1, here.1, context, m, q);
      assert build.bindings - Bound(value, build.bindings) -
             (BoundInputs(inputs, names[1..], build.bindings) - Bound(value, build.bindings)) ==
             build.bindings - BoundInputs(inputs, names, build.bindings);
    }
  }

  lemma MaterializableVars(bindings: Bindings, ids: set<VarId>, context: Context, m: Machine, p: Machine)
    requires Materializable(bindings, ids, context, m, p)
    ensures p.vars.Keys <= m.vars.Keys && bindings.Keys !! p.vars.Keys
  {
  }

  lemma StillEvaluates(
      value: Value, first: seq<ExprOp>, second: seq<ExprOp>, context: Context, m: Machine, p: Machine, q: Machine,
      result: Option<Word>)
    requires LetsRan(first, second, context, m, p, q) && Eval(value, p.vars, context.nextEip) == result && result.Some?
    ensures Eval(value, q.vars, context.nextEip) == result
  {
    hide RunExprSteps;
  }

  lemma OneMoreInput(
      inputs: InputRefs, names: seq<InputName>, rest: InputRefs, value: Value, context: Context, m: Machine, q: Machine)
    requires names != [] && names[0] in inputs && SameInputValues(inputs, names[1..], rest, context, m, q)
    requires Eval(value, q.vars, context.nextEip) == Eval(inputs[names[0]], m.vars, context.nextEip)
    ensures SameInputValues(inputs, names, rest[names[0] := value], context, m, q)
  {
    assert forall name :: name in names <==> name == names[0] || name in names[1..];
  }

  lemma {:induction false} UsedInputsAreBound(inputs: InputRefs, names: seq<InputName>, bindings: Bindings, id: VarId)
    ensures id in BoundInputs(inputs, names, bindings) <==>
            InputUses(inputs, names, id) > 0 && id in bindings && !IsConst(bindings[id])
    decreases names
  {
    if names != [] { UsedInputsAreBound(inputs, names[1..], bindings, id); }
  }

  lemma {:induction false} NamedInputIsUsed(inputs: InputRefs, names: seq<InputName>, name: InputName)
    requires name in names && name in inputs && inputs[name].Var?
    ensures InputUses(inputs, names, inputs[name].id) > 0
    decreases names
  {
    if names[0] != name { NamedInputIsUsed(inputs, names[1..], name); }
  }

  function InputsOf(op: Op): InputRefs
    requires op.FlagsSet? || op.ProducerCondition?
  {
    op.inputs
  }

  function NamesOf(op: Op): seq<InputName>
    requires op.FlagsSet? || op.ProducerCondition?
  {
    if op.FlagsSet? then INPUT_NAMES else ConditionNames(op)
  }

  lemma ConsumedInputs(op: Op, bindings: Bindings)
    requires op.FlagsSet? || op.ProducerCondition?
    ensures Consumed(op, bindings) == BoundInputs(InputsOf(op), NamesOf(op), bindings)
  {
    hide InputUses, IsConst;
    forall id ensures id in Consumed(op, bindings) <==> id in BoundInputs(InputsOf(op), NamesOf(op), bindings) {
      UsedInputsAreBound(InputsOf(op), NamesOf(op), bindings, id);
    }
  }

  /** All inputs the operation names are defined; a flag producer has no others. */
  lemma InputsAreDefined(op: Op, rest: seq<Op>, context: Context, m: Machine)
    requires op.FlagsSet? || op.ProducerCondition?
    requires Step(op, context, m) != Stuck
    requires op.FlagsSet? ==> op.inputs.Keys <= (set name | name in InputNames(op.producer))
    ensures InputsDefined(InputsOf(op), NamesOf(op), Needed([op] + rest, m.vars), context, m)
  {
    hide InputUses, CountUses, SetFlags, DirectConditions.Decide, DirectConditions.ConditionKind;
    UsesIn(op, rest, m.vars);
    var inputs, names := InputsOf(op), NamesOf(op);
    forall name <- names | name in inputs
      ensures Eval(inputs[name], m.vars, context.nextEip).Some?
      ensures inputs[name].Var? ==> inputs[name].id in Needed([op] + rest, m.vars)
    {
      if inputs[name].Var? { NamedInputIsUsed(inputs, names, name); }
    }
  }

  lemma ReadyToMaterialize(block: Instruction, bindings: Bindings, rest: seq<Op>, m: Machine, p: Machine)
    requires Related(block, bindings, rest, m, p)
    ensures Materializable(bindings, Needed(rest, m.vars), block.context, m, p)
  {
    hide CountUses, CrossesBarrier;
  }

  /** With the inputs materialized and used up, the relation holds for the rest. */
  lemma InputsMaterialized(block: Instruction, bindings: Bindings, op: Op, rest: seq<Op>, m: Machine, p: Machine)
    returns (q: Machine)
    requires op.FlagsSet? || op.ProducerCondition?
    requires Related(block, bindings, [op] + rest, m, p) && Step(op, block.context, m) != Stuck
    requires op.FlagsSet? ==> op.inputs.Keys <= (set name | name in InputNames(op.producer))
    ensures
      var r := MaterializeInputs(Build(bindings, []), InputsOf(op), NamesOf(op));
      && LetsRan([], r.0.ops, block.context, m, p, q)
      && r.0.bindings == bindings - Consumed(op, bindings)
      && Related(block, r.0.bindings, rest, m, q)
      && SameInputValues(InputsOf(op), NamesOf(op), r.1, block.context, m, q)
  {
    hide CountUses, Step, Consumed, BindingsOk, HoldsAll, MaterializeInputs, SameInputValues, InputsDefined;
    InputsAreDefined(op, rest, block.context, m);
    ReadyToMaterialize(block, bindings, [op] + rest, m, p);
    q := MaterializeInputsCorrect(Build(bindings, []), InputsOf(op), NamesOf(op), Needed([op] + rest, m.vars), block.context, m, p);
    ConsumedInputs(op, bindings);
    var r := MaterializeInputs(Build(bindings, []), InputsOf(op), NamesOf(op));
    MaterializableVars(r.0.bindings, Needed([op] + rest, m.vars), block.context, m, q);
    BindingsSurvive(block, bindings, op, rest, m, p, q);
    PastOp(block, bindings, op, rest, m, p, m, q);
  }

  lemma SameEvaluatedInputs(
      inputs: InputRefs, names: seq<InputName>, after: InputRefs, needed: seq<InputName>, context: Context, m: Machine,
      q: Machine)
    requires SameInputValues(inputs, names, after, context, m, q)
    requires forall name <- needed :: name in names
    ensures EvalInputs(after, needed, q.vars, context.nextEip) == EvalInputs(inputs, needed, m.vars, context.nextEip)
  {
    assert forall name: InputName :: EvalInput(after, name, needed, q.vars, context.nextEip) ==
                                     EvalInput(inputs, name, needed, m.vars, context.nextEip);
  }

  lemma FlagsSetCorrect(block: Instruction, bindings: Bindings, op: Op, rest: seq<Op>, m: Machine, p: Machine)
    requires op.FlagsSet? && Related(block, bindings, [op] + rest, m, p) && Step(op, block.context, m) != Stuck
    requires op.inputs.Keys <= (set name | name in InputNames(op.producer))
    ensures OpCorrect(block, bindings, op, rest, m, p)
  {
    hide CountUses, Consumed, BindingsOk, HoldsAll, MaterializeInputs, SameInputValues, SetFlags, EvalInputs, RunExprSteps, Related;
    var q1 := InputsMaterialized(block, bindings, op, rest, m, p);
    var r := MaterializeInputs(Build(bindings, []), op.inputs, INPUT_NAMES);
    SameEvaluatedInputs(op.inputs, INPUT_NAMES, r.1, InputNames(op.producer), block.context, m, q1);
    var last := PlainOp(FlagsSet(op.producer, op.width, r.1));
    assert r.0.ops[0..] == r.0.ops;
    RunExprStepsAppend(r.0.ops, [last], block.context, p);
    RunOneExpr(last, block.context, q1);
    var n := Step(op, block.context, m).m;
    RelatedBindings(block, r.0.bindings, rest, m, q1);
    PastState(block, r.0.bindings, rest, m, q1, n, q1.(flags := n.flags));
  }

  lemma SameKind(op: Op, after: InputRefs)
    requires op.ProducerCondition? && DirectConditions.ConditionKind(op.producer, op.cc, OnlyResult(op.inputs)).Some?
    requires forall name: InputName :: name in after <==> name in ConditionNames(op) && name in op.inputs
    requires forall name <- ConditionNames(op) :: name in op.inputs
    ensures DirectConditions.ConditionKind(op.producer, op.cc, OnlyResult(after)) ==
            DirectConditions.ConditionKind(op.producer, op.cc, OnlyResult(op.inputs))
  {
    var names := ConditionNames(op);
    if Left in names {
      assert Left in after;
    } else if Result in names {
      assert names == [Result] && after.Keys == {Result};
    }
  }

  lemma ConditionInputsPresent(op: Op, context: Context, m: Machine)
    requires op.ProducerCondition? && Step(op, context, m) != Stuck
    ensures DirectConditions.ConditionKind(op.producer, op.cc, OnlyResult(op.inputs)).Some?
    ensures forall name <- ConditionNames(op) :: name in op.inputs
  {
    hide DirectConditions.Decide, DirectConditions.ConditionKind;
  }

  lemma ProducerValue(op: Op, after: InputRefs, context: Context, m: Machine, q: Machine)
    requires op.ProducerCondition? && Step(op, context, m) != Stuck
    requires SameInputValues(op.inputs, ConditionNames(op), after, context, m, q)
    ensures EvalExpr(ProducerTest(op.cc, op.producer, op.width, after), context, q) == PureResult(op, context, m)
  {
    hide DirectConditions.Decide, DirectConditions.ConditionKind, EvalInputs, OnlyResult;
    ConditionInputsPresent(op, context, m);
    SameKind(op, after);
    SameEvaluatedInputs(op.inputs, ConditionNames(op), after, ConditionNames(op), context, m, q);
  }

  lemma ProducerCorrect(block: Instruction, bindings: Bindings, op: Op, rest: seq<Op>, m: Machine, p: Machine)
    requires op.ProducerCondition? && Related(block, bindings, [op] + rest, m, p) && Step(op, block.context, m) != Stuck
    requires Fresh(op, m.vars) && Inside(block, op, rest)
    ensures OpCorrect(block, bindings, op, rest, m, p)
  {
    hide CountUses, Consumed, BindingsOk, HoldsAll, MaterializeInputs, SameInputValues, EvalExpr, RunExprSteps, Related, Step,
      DefineValue, ConditionNames, PureResult;
    var q1 := InputsMaterialized(block, bindings, op, rest, m, p);
    var r := MaterializeInputs(Build(bindings, []), op.inputs, ConditionNames(op));
    ProducerValue(op, r.1, block.context, m, q1);
    PureSteps(op, block.context, m);
    InsideCounts(block, op, rest, op.dst);
    var expr := ProducerTest(op.cc, op.producer, op.width, r.1);
    DefineCorrect(block, r.0, rest, m, q1, op.dst, expr, true, PureResult(op, block.context, m).value);
    var after := DefineValue(block, r.0, op.dst, expr, true);
    assert r.0.ops[0..] == r.0.ops;
    assert after.ops == r.0.ops + after.ops[|r.0.ops|..];
    RunExprStepsAppend(r.0.ops, after.ops[|r.0.ops|..], block.context, p);
  }

  // ---------- whole instructions ----------

  /** What validation asks of one operation. */
  ghost predicate ValidOp(op: Op, context: Context) {
    && (op.SetIf? ==> !IsMemory(op.target, context.operands))
    && (op.FlagsSet? ==> op.inputs.Keys <= (set name | name in InputNames(op.producer)))
  }

  lemma AnyOpCorrect(block: Instruction, bindings: Bindings, op: Op, rest: seq<Op>, m: Machine, p: Machine)
    requires Related(block, bindings, [op] + rest, m, p) && Step(op, block.context, m) != Stuck
    requires Fresh(op, m.vars) && Inside(block, op, rest) && ValidOp(op, block.context)
    requires Undisturbed(block, bindings, op, rest) && RealAliases(block.context)
    ensures OpCorrect(block, bindings, op, rest, m, p)
  {
    hide Related, Step, Fresh, Inside, Undisturbed, RealAliases, OpCorrect;
    match op
    case Get(_, source, _, _) =>
      if IsMemory(source, block.context.operands) {
        GetMemory(block, bindings, op, rest, m, p);
      } else {
        GetRegister(block, bindings, op, rest, m, p);
      }
    case Set(_, _, _, _) => SetCorrect(block, bindings, op, rest, m, p);
    case SetIf(_, _, _, _) => SetIfCorrect(block, bindings, op, rest, m, p);
    case Address(_, _) => LeafCorrect(block, bindings, op, rest, m, p);
    case ValueConst(_, _) => ConstCorrect(block, bindings, op, rest, m, p);
    case ValueBinary(_, _, _, _) => BinaryCorrect(block, bindings, op, rest, m, p);
    case ValueUnary(_, _, _) => UnaryCorrect(block, bindings, op, rest, m, p);
    case FlagsSet(_, _, _) => FlagsSetCorrect(block, bindings, op, rest, m, p);
    case FlagsMaterialize(_) => PlainFlagsCorrect(block, bindings, op, rest, m, p);
    case FlagsBoundary(_) => PlainFlagsCorrect(block, bindings, op, rest, m, p);
    case FlagsCondition(_, _) => LeafCorrect(block, bindings, op, rest, m, p);
    case ProducerCondition(_, _, _, _, _) => ProducerCorrect(block, bindings, op, rest, m, p);
    case _ => TerminatorCorrect(block, bindings, op, rest, m, p);
  }

  /** What has been emitted before does not matter to what is emitted next. */
  lemma {:induction false} InputsAppend(build: Build, inputs: InputRefs, names: seq<InputName>)
    ensures
      var r := MaterializeInputs(build, inputs, names);
      var bare := MaterializeInputs(Build(build.bindings, []), inputs, names);
      r.0.bindings == bare.0.bindings && r.0.ops == build.ops + bare.0.ops && r.1 == bare.1
    decreases names
  {
    if names == [] {
      assert build.ops + [] == build.ops;
    } else if names[0] !in inputs {
      InputsAppend(build, inputs, names[1..]);
    } else {
      var here := Materialize(build, inputs[names[0]]);
      var start := Materialize(Build(build.bindings, []), inputs[names[0]]);
      assert here.0.ops == build.ops + start.0.ops;
      InputsAppend(here.0, inputs, names[1..]);
      InputsAppend(start.0, inputs, names[1..]);
    }
  }

  lemma DefineAppend(block: Instruction, build: Build, dst: VarId, expr: Expr, inlineable: bool)
    ensures
      var after := DefineValue(block, build, dst, expr, inlineable);
      var bare := DefineValue(block, Build(build.bindings, []), dst, expr, inlineable);
      after.bindings == bare.bindings && after.ops == build.ops + bare.ops
  {
    assert build.ops + [] == build.ops;
  }

  lemma DefineAfter(block: Instruction, build: Build, first: seq<ExprOp>, dst: VarId, expr: Expr, inlineable: bool)
    ensures
      var after := DefineValue(block, Build(build.bindings, first + build.ops), dst, expr, inlineable);
      var bare := DefineValue(block, build, dst, expr, inlineable);
      after.bindings == bare.bindings && after.ops == first + bare.ops
  {
    assert first + (build.ops + [Let(dst, expr)]) == first + build.ops + [Let(dst, expr)];
  }

  lemma OpAppend(block: Instruction, build: Build, op: Op, rest: seq<Op>)
    ensures
      var after := BuildOp(block, build, op, rest);
      var delta := Delta(block, build.bindings, op, rest);
      after.bindings == delta.bindings && after.ops == build.ops + delta.ops
  {
    hide DefineValue, Materialize, MaterializeInputs, CrossesBarrier, CanInlineGet, ConditionNames, AfterUse, ExprFor;
    match op
    case Get(dst, source, width, signed) =>
      DefineAppend(block, build.(bindings := AfterStorage(source, build.bindings)), dst,
                   Source(StorageExprOf(source, build.bindings), width, signed),
                   CanInlineGet(source, block.context) && !CrossesBarrier(dst, source, rest, block.context));
    case SetIf(condition, target, value, width) =>
      MaterializeAppend(build.(bindings := AfterStorage(target, AfterUse(condition, build.bindings))), value);
    case Address(dst, operand) => DefineAppend(block, build, dst, AddressOf(operand), true);
    case ValueConst(_, _) => assert build.ops + [] == build.ops;
    case ValueBinary(dst, operator, x, y) =>
      var b1 := AfterUse(x, build.bindings);
      DefineAppend(block, build.(bindings := AfterUse(y, b1)), dst,
                   BinaryExpr(operator, ExprFor(x, build.bindings), ExprFor(y, b1)), true);
    case ValueUnary(dst, operator, x) =>
      DefineAppend(block, build.(bindings := AfterUse(x, build.bindings)), dst,
                   UnaryExpr(operator, ExprFor(x, build.bindings)), true);
    case FlagsCondition(dst, cc) => DefineAppend(block, build, dst, FlagsTest(cc), false);
    case ProducerCondition(dst, cc, producer, width, inputs) =>
      InputsAppend(build, inputs, ConditionNames(op));
      var bare := MaterializeInputs(Build(build.bindings, []), inputs, ConditionNames(op));
      DefineAfter(block, bare.0, build.ops, dst, ProducerTest(cc, producer, width, bare.1), true);
    case FlagsSet(_, _, inputs) => InputsAppend(build, inputs, INPUT_NAMES);
    case _ =>
  }

  lemma MaterializeAppend(build: Build, value: Value)
    ensures
      var r := Materialize(build, value);
      var bare := Materialize(Build(build.bindings, []), value);
      r.0.bindings == bare.0.bindings && r.0.ops == build.ops + bare.0.ops && r.1 == bare.1
  {
    assert build.ops + [] == build.ops;
  }

  lemma {:induction false} BuildAppend(block: Instruction, build: Build, ops: seq<Op>)
    ensures BuildFrom(block, build, ops).ops == build.ops + BuildFrom(block, Build(build.bindings, []), ops).ops
    decreases ops
  {
    hide BuildOp;
    if ops == [] {
      assert build.ops + [] == build.ops;
    } else {
      OpAppend(block, build, ops[0], ops[1..]);
      OpAppend(block, Build(build.bindings, []), ops[0], ops[1..]);
      var after := BuildOp(block, build, ops[0], ops[1..]);
      var delta := Delta(block, build.bindings, ops[0], ops[1..]);
      BuildAppend(block, after, ops[1..]);
      BuildAppend(block, delta, ops[1..]);
    }
  }

  // ---------- bindings and the values that wait ----------

  /** A tree reads what the waiting value is said to read. */
  ghost predicate Waits(expr: Expr, waiting: Waiting, context: Context) {
    match waiting
    case Direct(storage) => expr.Source? && !expr.source.MemExpr? && StorageOf(expr.source) == storage
    case Nested(inside) =>
      !expr.Source? &&
      forall write: Storage :: ExprReads(expr, write, context) <==> exists read <- inside :: Hits(write, read, context)
  }

  /** The bound trees are the waiting values; constants do not wait. */
  ghost predicate Tracks(bindings: Bindings, pending: Pending, context: Context) {
    && (forall id :: id in pending <==> id in bindings && !IsConst(bindings[id]))
    && (forall id <- pending :: Waits(bindings[id], pending[id], context))
  }

  lemma SteadyIsUndisturbed(block: Instruction, bindings: Bindings, pending: Pending, op: Op, rest: seq<Op>)
    requires Tracks(bindings, pending, block.context) && DisturbsNothing(block, pending, op, rest)
    ensures Undisturbed(block, bindings, op, rest)
  {
    hide OpUses, CountUses, ExprReads, Hits, IsConst;
    if Target(op).Some? {
      forall id <- bindings - Consumed(op, bindings) | CountUses(rest, id) > 0 && !bindings[id].Source?
        ensures !ExprReads(bindings[id], Target(op).value, block.context)
      {
        if id in pending {
          assert Waits(bindings[id], pending[id], block.context);
        } else {
          ConstReadsNothing(bindings[id], Target(op).value, block.context);
        }
      }
    }
  }

  lemma ConstReadsNothing(expr: Expr, write: Storage, context: Context)
    ensures IsConst(expr) ==> !ExprReads(expr, write, context)
  {
  }

  /** What an operand's tree reads. */
  lemma OperandReads(value: Value, bindings: Bindings, pending: Pending, write: Storage, context: Context)
    requires Tracks(bindings, pending, context)
    ensures ExprReads(ExprFor(value, bindings), write, context) <==>
            exists read <- ReadsIn(value, pending) :: Hits(write, read, context)
  {
    if value.Var? && value.id in bindings {
      if value.id in pending {
        assert Waits(bindings[value.id], pending[value.id], context);
        if pending[value.id].Direct? {
          assert OfStorage(pending[value.id].storage) in ReadsIn(value, pending);
        }
      }
    }
  }

  lemma HitsEither(first: set<Read>, second: set<Read>, write: Storage, context: Context)
    ensures (exists read <- first + second :: Hits(write, read, context)) <==>
            (exists read <- first :: Hits(write, read, context)) || (exists read <- second :: Hits(write, read, context))
  {
    hide Hits;
  }

  lemma BinaryReads(op: Op, bindings: Bindings, pending: Pending, context: Context)
    requires op.ValueBinary? && Tracks(bindings, pending, context)
    ensures Waits(BinaryExpr(op.binary, ExprFor(op.a, bindings), ExprFor(op.b, bindings)), PutOff(op, pending), context)
  {
    hide Hits, ExprFor, Tracks, ReadsIn;
    var expr := BinaryExpr(op.binary, ExprFor(op.a, bindings), ExprFor(op.b, bindings));
    var first, second := ReadsIn(op.a, pending), ReadsIn(op.b, pending);
    forall write: Storage
      ensures ExprReads(expr, write, context) <==> exists read <- first + second :: Hits(write, read, context)
    {
      OperandReads(op.a, bindings, pending, write, context);
      OperandReads(op.b, bindings, pending, write, context);
      HitsEither(first, second, write, context);
    }
    assert PutOff(op, pending) == Nested(first + second);
  }

  lemma UnaryReads(op: Op, bindings: Bindings, pending: Pending, context: Context)
    requires op.ValueUnary? && Tracks(bindings, pending, context)
    ensures Waits(UnaryExpr(op.unary, ExprFor(op.a, bindings)), PutOff(op, pending), context)
  {
    hide Hits, ExprFor, Tracks, ReadsIn;
    var expr, inside := UnaryExpr(op.unary, ExprFor(op.a, bindings)), ReadsIn(op.a, pending);
    forall write: Storage
      ensures ExprReads(expr, write, context) <==> exists read <- inside :: Hits(write, read, context)
    {
      OperandReads(op.a, bindings, pending, write, context);
    }
    assert PutOff(op, pending) == Nested(inside);
  }

  lemma TracksLeft(bindings: Bindings, pending: Pending, op: Op, context: Context)
    requires Tracks(bindings, pending, context)
    ensures Tracks(bindings - Consumed(op, bindings), pending - UsedUp(op, pending), context)
  {
    hide OpUses, Waits, IsConst;
  }

  /** A new binding waits as the operation's value does; a let does not wait. */
  lemma TracksDefined(
      block: Instruction, bindings: Bindings, pending: Pending, op: Op, rest: seq<Op>, expr: Expr, inlineable: bool)
    requires Tracks(bindings, pending, block.context) && Dst(op).Some? && !op.ValueConst?
    requires Dst(op).value !in bindings && !expr.Ref?
    requires inlineable <==> !op.FlagsCondition? && (op.Get? ==>
               CanInlineGet(op.source, block.context) && !CrossesBarrier(op.dst, op.source, rest, block.context))
    requires inlineable ==> Waits(expr, PutOff(op, pending), block.context)
    ensures Tracks(DefineValue(block, Build(bindings - Consumed(op, bindings), []), Dst(op).value, expr, inlineable).bindings,
                   StillPending(block, pending, op, rest), block.context)
  {
    hide OpUses, CountUses, Waits, ConditionallyWritten, CrossesBarrier, CanInlineGet, PutOff, Consumed, UsedUp;
    TracksLeft(bindings, pending, op, block.context);
  }

  lemma {:induction false} InputsUsedUp(build: Build, inputs: InputRefs, names: seq<InputName>)
    requires forall id <- build.bindings :: build.bindings[id].Ref? ==> IsConst(build.bindings[id])
    ensures MaterializeInputs(build, inputs, names).0.bindings ==
            build.bindings - BoundInputs(inputs, names, build.bindings)
    decreases names
  {
    if names == [] {
      assert build.bindings - {} == build.bindings;
    } else if names[0] !in inputs {
      InputsUsedUp(build, inputs, names[1..]);
    } else {
      var value := inputs[names[0]];
      var here := Materialize(build, value).0;
      AfterUseOne(value, build.bindings);
      var gone := Bound(value, build.bindings);
      assert here.bindings == build.bindings - gone;
      InputsUsedUp(here, inputs, names[1..]);
      BoundInputsLater(inputs, names[1..], build.bindings, gone);
      assert build.bindings - gone - (BoundInputs(inputs, names[1..], build.bindings) - gone) ==
             build.bindings - (gone + BoundInputs(inputs, names[1..], build.bindings));
    }
  }

  lemma InputsDelta(block: Instruction, bindings: Bindings, op: Op, rest: seq<Op>)
    requires (op.FlagsSet? || op.ProducerCondition?) && BindingsOk(block, bindings, [op] + rest)
    ensures MaterializeInputs(Build(bindings, []), InputsOf(op), NamesOf(op)).0.bindings == bindings - Consumed(op, bindings)
  {
    hide OpUses, CountUses, CrossesBarrier, Movable, ConditionallyWritten, MaterializeInputs;
    InputsUsedUp(Build(bindings, []), InputsOf(op), NamesOf(op));
    ConsumedInputs(op, bindings);
  }

  /** Bindings and waiting values keep step through an operation that computes a value. */
  lemma TracksValue(block: Instruction, bindings: Bindings, pending: Pending, op: Op, rest: seq<Op>)
    requires Tracks(bindings, pending, block.context) && BindingsOk(block, bindings, [op] + rest)
    requires Dst(op).Some? && Dst(op).value !in bindings
    ensures Tracks(Delta(block, bindings, op, rest).bindings, StillPending(block, pending, op, rest), block.context)
  {
    hide BindingsOk, CountUses, CrossesBarrier, ConditionallyWritten, Tracks, DefineValue, MaterializeInputs, CanInlineGet,
      ExprFor, AfterUse, Waits, StillPending, PutOff;
    var context := block.context;
    match op
    case Get(dst, source, width, signed) =>
      AfterStorageConsumed(op, bindings);
      var expr := Source(StorageExprOf(source, bindings), width, signed);
      ReadWaits(op, expr, bindings, pending, context);
      TracksDefined(block, bindings, pending, op, rest, expr,
                    CanInlineGet(source, context) && !CrossesBarrier(dst, source, rest, context));
    case Address(_, operand) =>
      NoOperands(op, bindings);
      AddressWaits(op, pending, context);
      TracksDefined(block, bindings, pending, op, rest, AddressOf(operand), true);
    case ValueConst(dst, constant) => TracksConstant(block, bindings, pending, op, rest);
    case ValueBinary(_, operator, x, y) =>
      BinaryDelta(block, bindings, op, rest);
      BinaryReads(op, bindings, pending, context);
      TracksDefined(block, bindings, pending, op, rest, BinaryExpr(operator, ExprFor(x, bindings), ExprFor(y, bindings)), true);
    case ValueUnary(_, operator, x) =>
      AfterUseOne(x, bindings);
      assert bindings - Consumed(op, bindings) == bindings - Bound(x, bindings);
      UnaryReads(op, bindings, pending, context);
      TracksDefined(block, bindings, pending, op, rest, UnaryExpr(operator, ExprFor(x, bindings)), true);
    case FlagsCondition(_, cc) =>
      NoOperands(op, bindings);
      TracksDefined(block, bindings, pending, op, rest, FlagsTest(cc), false);
    case ProducerCondition(dst, cc, producer, width, inputs) =>
      InputsDelta(block, bindings, op, rest);
      var r := MaterializeInputs(Build(bindings, []), inputs, ConditionNames(op));
      var expr := ProducerTest(cc, producer, width, r.1);
      TestWaits(op, expr, pending, context);
      TracksDefined(block, bindings, pending, op, rest, expr, true);
      SameBindings(block, r.0, dst, expr);
  }

  lemma SameBindings(block: Instruction, build: Build, dst: VarId, expr: Expr)
    ensures DefineValue(block, build, dst, expr, true).bindings ==
            DefineValue(block, Build(build.bindings, []), dst, expr, true).bindings
  {
  }

  lemma NoOperands(op: Op, bindings: Bindings)
    requires op.Address? || op.FlagsCondition?
    ensures bindings - Consumed(op, bindings) == bindings
  {
  }

  lemma ReadWaits(op: Op, expr: Expr, bindings: Bindings, pending: Pending, context: Context)
    requires op.Get? && expr == Source(StorageExprOf(op.source, bindings), op.width, op.signed)
    ensures CanInlineGet(op.source, context) ==> Waits(expr, PutOff(op, pending), context)
  {
  }

  lemma AddressWaits(op: Op, pending: Pending, context: Context)
    requires op.Address?
    ensures Waits(AddressOf(op.operand), PutOff(op, pending), context)
  {
    assert OfAddress(op.operand) in {OfAddress(op.operand)};
  }

  lemma TestWaits(op: Op, expr: Expr, pending: Pending, context: Context)
    requires op.ProducerCondition? && expr.ProducerTest?
    ensures Waits(expr, PutOff(op, pending), context)
  {
  }

  lemma TracksConstant(block: Instruction, bindings: Bindings, pending: Pending, op: Op, rest: seq<Op>)
    requires op.ValueConst? && Tracks(bindings, pending, block.context) && op.dst !in bindings
    ensures Tracks(Delta(block, bindings, op, rest).bindings, StillPending(block, pending, op, rest), block.context)
  {
    hide Waits;
    assert UsedUp(op, pending) == {};
    assert pending - {} == pending;
  }

  /** And through an operation that only uses values. */
  lemma TracksEffect(block: Instruction, bindings: Bindings, pending: Pending, op: Op, rest: seq<Op>)
    requires Tracks(bindings, pending, block.context) && BindingsOk(block, bindings, [op] + rest)
    requires Dst(op).None? && !IsTerminator(op) && Inside(block, op, rest)
    requires op.SetIf? ==> !op.target.Mem?
    ensures Tracks(Delta(block, bindings, op, rest).bindings, StillPending(block, pending, op, rest), block.context)
  {
    hide BindingsOk, CountUses, CrossesBarrier, ConditionallyWritten, Tracks, MaterializeInputs, ExprFor, AfterUse, Inside, UsedUp,
      Consumed;
    TracksLeft(bindings, pending, op, block.context);
    match op
    case Set(_, _, _, _) => SetDelta(block, bindings, op, rest);
    case SetIf(_, _, _, _) => SetIfDelta(block, bindings, op, rest);
    case FlagsSet(_, _, _) => InputsDelta(block, bindings, op, rest);
    case FlagsMaterialize(_) => NoUses(op, bindings);
    case FlagsBoundary(_) => NoUses(op, bindings);
  }

  lemma NoUses(op: Op, bindings: Bindings)
    requires op.FlagsMaterialize? || op.FlagsBoundary?
    ensures bindings - Consumed(op, bindings) == bindings
  {
  }

  lemma NextKeys(op: Op, context: Context, m: Machine)
    requires Step(op, context, m).Running?
    ensures Step(op, context, m).m.vars.Keys == if Dst(op).Some? then m.vars.Keys + {Dst(op).value} else m.vars.Keys
  {
    hide Step;
    StepDefinesItsDst(op, context, m);
  }

  lemma {:induction false} Simulate(
      block: Instruction, done: seq<Op>, ops: seq<Op>, bindings: Bindings, pending: Pending, m: Machine, p: Machine)
    requires done + ops == block.ops && Related(block, bindings, ops, m, p)
    requires (forall op <- ops :: ValidOp(op, block.context)) && AssignsOnce(ops, m.vars.Keys)
    requires RealAliases(block.context) && Tracks(bindings, pending, block.context) && SteadyFrom(block, pending, ops)
    requires RunOps(ops, block.context, m) != Stuck
    ensures SameOutcome(RunOps(ops, block.context, m),
                        RunExprs(BuildFrom(block, Build(bindings, []), ops).ops, block.context, p))
    decreases ops
  {
    hide Related, Step, BuildOp, Undisturbed, RealAliases, ValidOp, Dst, Tracks, DisturbsNothing, StillPending;
    var op, rest := ops[0], ops[1..];
    assert ops == [op] + rest;
    assert op in ops;
    var delta := Delta(block, bindings, op, rest);
    SteadyIsUndisturbed(block, bindings, pending, op, rest);
    AnyOpCorrect(block, bindings, op, rest, m, p);
    BuildAppend(block, delta, rest);
    var more := BuildFrom(block, Build(delta.bindings, []), rest).ops;
    RunExprsAppend(delta.ops, more, block.context, p);
    var step := Step(op, block.context, m);
    if step.Running? {
      NextKeys(op, block.context, m);
      assert (done + [op]) + rest == block.ops;
      TracksNext(block, bindings, pending, op, rest, m, p);
      Simulate(block, done + [op], rest, delta.bindings, StillPending(block, pending, op, rest), step.m,
               RunExprSteps(delta.ops, block.context, p).m);
    }
  }

  lemma TracksNext(
      block: Instruction, bindings: Bindings, pending: Pending, op: Op, rest: seq<Op>, m: Machine, p: Machine)
    requires Related(block, bindings, [op] + rest, m, p) && Tracks(bindings, pending, block.context)
    requires Fresh(op, m.vars) && Inside(block, op, rest) && ValidOp(op, block.context)
    requires Step(op, block.context, m).Running?
    ensures Tracks(Delta(block, bindings, op, rest).bindings, StillPending(block, pending, op, rest), block.context)
  {
    hide HoldsAll, BindingsOk, Tracks, Step, Inside, Delta, StillPending;
    if Dst(op).Some? {
      TracksValue(block, bindings, pending, op, rest);
    } else {
      if IsTerminator(op) { Stops(op, block.context, m); }
      TracksEffect(block, bindings, pending, op, rest);
    }
  }

  lemma NothingBound(block: Instruction, m: Machine)
    requires m.vars == map[]
    ensures Related(block, map[], block.ops, m, m) && Tracks(map[], map[], block.context)
  {
  }

  /**
   Running the expression block gives the flat operations' outcome: the same accesses in the same order, the same
   fault or exit, the same registers and flags.
   */
  lemma ExpressionsPreserveRuns(block: Instruction, m: Machine)
    requires m.vars == map[] && RunOps(block.ops, block.context, m) != Stuck
    requires (forall op <- block.ops :: ValidOp(op, block.context)) && AssignsOnce(block.ops, {})
    requires RealAliases(block.context) && Steady(block)
    ensures SameOutcome(RunOps(block.ops, block.context, m),
                        RunExprs(BuildIrExpressionBlock(block), block.context, m))
  {
    NothingBound(block, m);
    assert m.vars.Keys == {};
    Simulate(block, [], block.ops, map[], map[], m, m);
  }
}
