/**
 Register value propagation preserves runs, under conditions on the block itself; and a write-back is right for all
 contents of the variables exactly when it reuses none that is out of date.
 */
module PropagationTheorem {
  import opened X86Types
  import opened Ir
  import opened RegisterValues
  import opened RegisterPropagation
  import opened PropagationSafety
  import opened PropagationProof
  import StaleReuse

  /**
   The propagated block makes the same accesses to guest memory in the same order, takes the same exit to the same
   target, and exposes the same registers and flags there, and at every fault the registers and flags its instruction
   began with.
   */
  lemma PropagationPreservesRuns(block: Block, m: Machine)
    requires forall instruction <- block :: Propagatable(instruction)
    requires FaultsSeeEntry(block, map[]) && ReusesNothingStale(block, map[]) && RunBlock(block, m) != Stuck
    ensures SameRun(RunBlock(block, m), RunBlock(PropagateBlock(block, map[]).0, m))
  {
    hide PropagateBlock, RunBlock, FaultsSeeEntry, ReusesNothingStale;
    DenotesItself(m.regs);
    StaleReuse.StaleReuseIsForeseen(block, map[]);
    BlockCorrect(block, map[], m, m);
  }

  /** Whether the propagated block does what the block does, on every machine. */
  ghost predicate AlwaysPreserved(block: Block) {
    forall m: Machine :: RunBlock(block, m) != Stuck ==>
      SameRun(RunBlock(block, m), RunBlock(PropagateBlock(block, map[]).0, m))
  }

  // ---------- instructions whose faults come first ----------

  /** The operations that can fault come before the register writes, as in every instruction the decoder produces. */
  predicate FaultsFirst(ops: seq<Op>, context: Context) {
    ops == [] || ((Writes(ops[0], context) == {} || !AnyFault(ops[1..], context)) && FaultsFirst(ops[1..], context))
  }

  lemma NothingTrackedStays(ops: seq<Op>, context: Context, last: bool, analysis: Analysis)
    requires ops != [] && analysis.values == map[]
    ensures
      var here := DecisionFor(ops, context, last, analysis);
      Writes(ops[0], context) == {} ==> here.1.values == map[] && WritesNothingBack(here.0.before)
  {
    hide MarkStale, RecordOp, ValueFor, ValueForAddress, Closure, RegsReadByAddress;
    NothingListed(Closure(map[], {}), REG_ORDER);
    NothingListed(Closure(map[], RegsReadByAddress(if ops[0].Address? then ops[0].operand else 0, context, map[])), REG_ORDER);
    var nothing: Values := map[];
    assert nothing.Keys == {} && Written([]) == {};
    assert forall regs: set<Reg> :: nothing - regs == nothing;
  }

  lemma {:induction false} FaultsFirstSeeEntry(
      ops: seq<Op>, context: Context, last: bool, analysis: Analysis, clean: bool)
    requires FaultsFirst(ops, context) && (AnyFault(ops, context) ==> analysis.values == map[] && clean)
    ensures FaultsSeeEntryFrom(ops, context, last, analysis, clean)
    decreases ops
  {
    hide DecisionFor, CanFault, Writes, WritesNothingBack;
    if ops != [] {
      var here := DecisionFor(ops, context, last, analysis);
      assert ops[0] in ops && forall op <- ops[1..] :: op in ops;
      if AnyFault(ops[1..], context) { NothingTrackedStays(ops, context, last, analysis); }
      FaultsFirstSeeEntry(ops[1..], context, last, here.1, clean && WritesNothingBack(here.0.before));
    }
  }

  /** Such instructions meet the condition on faults, whatever is tracked when they begin. */
  lemma {:induction false} FaultsFirstIsEnough(block: Block, values: Values)
    requires forall instruction <- block :: FaultsFirst(instruction.ops, instruction.context)
    ensures FaultsSeeEntry(block, values)
    decreases block
  {
    hide FaultsFirst, FaultsSeeEntryFrom, Flushed;
    if block != [] {
      assert block[0] in block && forall instruction <- block[1..] :: instruction in block;
      FlushedIsEmpty(Analysis(values, [], true));
      FaultsFirstSeeEntry(block[0].ops, block[0].context, |block| == 1, Entered(block[0], values), true);
      FaultsFirstIsEnough(block[1..], ValuesAfter(block[0], |block| == 1, values));
    }
  }

  // ---------- the exact condition for a write-back ----------

  ghost predicate Covers(tracker: Tracker, vars: map<VarId, Word>) {
    forall entry <- tracker :: entry.id in vars
  }

  predicate Distinct(tracker: Tracker) {
    forall i, j | 0 <= i < j < |tracker| :: tracker[i].id != tracker[j].id
  }

  /** Machines the tracker allows: variables that are not stale hold their trees' values, stale ones anything. */
  ghost predicate Allowed(rewrite: Rewrite, p: Machine) {
    TrackerOk(rewrite.tracker, p.vars, p.regs) && Covers(rewrite.tracker, p.vars) && Below(p.vars, rewrite.next)
  }

  /** A held tree, or a register or held tree moved by constants: nothing that goes in is lost on the way. */
  predicate Lossless(held: Held, tree: Tree) {
    tree in held ||
    match tree
    case RegTree(_) => true
    case BinaryTree(operator, a, b) => (operator == BinAdd || operator == BinSub) && b.ConstTree? && Lossless(held, a)
    case _ => false
  }

  /** What the emitted code really computes: held trees come from their first variable. */
  function Reused(tracker: Tracker, tree: Tree, vars: map<VarId, Word>, regs: Regs): Word
    requires Covers(tracker, vars)
  {
    FirstWithOk(tracker, tree);
    var found := FirstWith(tracker, tree);
    if tree.ConstTree? then tree.value
    else if found.Some? then vars[found.value.id]
    else
      match tree
      case ConstTree(value) => value
      case RegTree(reg) => regs[reg]
      case UnaryTree(operator, a) => EvalUnary(operator, Reused(tracker, a, vars, regs))
      case BinaryTree(operator, a, b) =>
        EvalBinary(operator, Reused(tracker, a, vars, regs), Reused(tracker, b, vars, regs))
  }

  /** A tree moved by a constant is computed from its first part alone. */
  lemma MovedByConstant(rewrite: Rewrite, held: Held, tree: Tree)
    requires tree.BinaryTree? && tree.b.ConstTree?
    ensures tree !in held ==> (Need(held, tree).ok <==> Need(held, tree.a).ok)
    ensures
      var dst := rewrite.next;
      var x := EmitRef(rewrite.(next := dst + 1), tree.a);
      var emission := EmitRef(rewrite, tree);
      FirstWith(rewrite.tracker, tree).None? ==>
        && emission.ops == x.ops + [ValueBinary(dst, tree.binary, x.ref, Const(tree.b.value))]
        && emission.ref == Var(dst) && emission.rewrite.next == x.rewrite.next
  {
    var x := EmitRef(rewrite.(next := rewrite.next + 1), tree.a);
    assert EmitRef(x.rewrite, tree.b) == Emission([], Const(tree.b.value), x.rewrite);
    assert x.ops + [] == x.ops;
    var a := Need(held, tree.a);
    assert Need(a.held, tree.b) == Walk(a.held, true);
    assert NeedParts(held, tree) == Walk(a.held, a.ok);
  }

  lemma ComputesRuns(ops: seq<Op>, context: Context, p: Machine, low: VarId, high: VarId)
    requires Computes(ops, context, p, low, high)
    ensures RunSteps(ops, context, p).Running? && RunSteps(ops, context, p).m.regs == p.regs
    ensures RunSteps(ops, context, p).m == p.(vars := RunSteps(ops, context, p).m.vars)
  {
  }

  lemma MoveStep(dst: VarId, tree: Tree, ref: Value, value: Word, context: Context, m: Machine)
    requires tree.BinaryTree? && tree.b.ConstTree? && Eval(ref, m.vars, context.nextEip) == Some(value)
    ensures Step(ValueBinary(dst, tree.binary, ref, Const(tree.b.value)), context, m) ==
            Bind(m, dst, EvalBinary(tree.binary, value, tree.b.value))
  {
    hide EvalBinary;
  }

  lemma ReusedMoved(tracker: Tracker, tree: Tree, vars: map<VarId, Word>, regs: Regs)
    requires Covers(tracker, vars) && tree.BinaryTree? && tree.b.ConstTree? && FirstWith(tracker, tree).None?
    ensures Reused(tracker, tree, vars, regs) ==
            EvalBinary(tree.binary, Reused(tracker, tree.a, vars, regs), tree.b.value)
  {
    hide EvalBinary;
    assert Reused(tracker, tree.b, vars, regs) == tree.b.value;
  }

  lemma {:induction false} ReusedRuns(rewrite: Rewrite, held: Held, tree: Tree, context: Context, p: Machine)
    requires StaleReuse.Describes(held, rewrite.tracker) && Lossless(held, tree)
    requires Covers(rewrite.tracker, p.vars) && Below(p.vars, rewrite.next)
    ensures
      var emission := EmitRef(rewrite, tree);
      && Computes(emission.ops, context, p, rewrite.next, emission.rewrite.next)
      && Eval(emission.ref, RunSteps(emission.ops, context, p).m.vars, context.nextEip) ==
         Some(Reused(rewrite.tracker, tree, p.vars, p.regs))
    decreases tree
  {
    hide RunSteps, Computes, Defines, EvalBinary, Step;
    ComputesNothing(context, p, rewrite.next);
    StaleReuse.HeldTree(held, rewrite.tracker, tree);
    FirstWithOk(rewrite.tracker, tree);
    if !tree.ConstTree? && tree !in held {
      var dst, start := rewrite.next, rewrite.(next := rewrite.next + 1);
      var value := Reused(rewrite.tracker, tree, p.vars, p.regs);
      if tree.RegTree? {
        var op := Get(dst, RegStorage(tree.reg), W32, false);
        ComputesNothing(context, p, start.next);
        ReadRegister(dst, tree.reg, context, p);
        DefineLast([], op, context, p, dst, start.next, start.next, value);
        assert [] + [op] == [op];
        DefinesComputes([op], context, p, dst, start.next, start.next);
      } else {
        var x := EmitRef(start, tree.a);
        MovedByConstant(rewrite, held, tree);
        ReusedMoved(rewrite.tracker, tree, p.vars, p.regs);
        ReusedRuns(start, held, tree.a, context, p);
        ComputesRuns(x.ops, context, p, start.next, x.rewrite.next);
        var middle := RunSteps(x.ops, context, p).m;
        var op := ValueBinary(dst, tree.binary, x.ref, Const(tree.b.value));
        MoveStep(dst, tree, x.ref, Reused(rewrite.tracker, tree.a, p.vars, p.regs), context, middle);
        DefineLast(x.ops, op, context, p, dst, start.next, x.rewrite.next, value);
        DefinesComputes(x.ops + [op], context, p, dst, start.next, x.rewrite.next);
      }
    }
  }

  lemma ReadRegister(dst: VarId, reg: Reg, context: Context, p: Machine)
    ensures Step(Get(dst, RegStorage(reg), W32, false), context, p) == Bind(p, dst, p.regs[reg])
  {
  }

  lemma AddingIsLossless(operator: BinaryOperator, x: Word, y: Word, c: Word)
    requires operator == BinAdd || operator == BinSub
    ensures EvalBinary(operator, x, c) == EvalBinary(operator, y, c) ==> x == y
  {
  }

  /** A stale variable that does not hold its tree's value makes the computed value wrong. */
  lemma {:induction false} StaleShows(tracker: Tracker, held: Held, tree: Tree, vars: map<VarId, Word>, regs: Regs)
    requires StaleReuse.Describes(held, tracker) && Lossless(held, tree) && !Need(held, tree).ok
    requires Covers(tracker, vars)
    requires forall entry <- tracker :: entry.stale ==> vars[entry.id] != EvalTree(entry.tree, regs)
    ensures Reused(tracker, tree, vars, regs) != EvalTree(tree, regs)
    decreases tree
  {
    hide EvalBinary;
    FirstWithOk(tracker, tree);
    StaleReuse.HeldTree(held, tracker, tree);
    if tree !in held {
      MovedByConstant(Rewrite(tracker, 0, true), held, tree);
      StaleShows(tracker, held, tree.a, vars, regs);
      AddingIsLossless(tree.binary, Reused(tracker, tree.a, vars, regs), EvalTree(tree.a, regs), tree.b.value);
    }
  }

  /** Right values in the variables that are not stale, wrong ones in the others. */
  function WrongWhereStale(tracker: Tracker, regs: Regs): map<VarId, Word> {
    if tracker == [] then map[]
    else
      var value := EvalTree(tracker[0].tree, regs);
      WrongWhereStale(tracker[1..], regs)[tracker[0].id := if tracker[0].stale then U32(value + 1) else value]
  }

  lemma {:induction false} WrongExactlyWhereStale(tracker: Tracker, regs: Regs, entry: Entry)
    requires Distinct(tracker) && entry in tracker
    ensures entry.id in WrongWhereStale(tracker, regs)
    ensures WrongWhereStale(tracker, regs)[entry.id] != EvalTree(entry.tree, regs) <==> entry.stale
    decreases tracker
  {
    hide EvalTree;
    if entry != tracker[0] {
      assert forall i, j | 0 <= i < j < |tracker[1..]| :: tracker[1..][i] == tracker[i + 1] && tracker[1..][j] == tracker[j + 1];
      WrongExactlyWhereStale(tracker[1..], regs, entry);
    }
  }

  lemma {:induction false} OnlyTheTrackersVariables(tracker: Tracker, regs: Regs, next: VarId)
    requires StaleReuse.Below(tracker, next)
    ensures Below(WrongWhereStale(tracker, regs), next)
    decreases tracker
  {
    hide EvalTree;
    if tracker != [] {
      assert tracker[0] in tracker && forall entry <- tracker[1..] :: entry in tracker;
      OnlyTheTrackersVariables(tracker[1..], regs, next);
    }
  }

  /** Writing one register back gives it its tree's value and changes no other. */
  ghost predicate WritesItsValue(rewrite: Rewrite, reg: Reg, tree: Tree, context: Context, p: Machine) {
    var end := RunSteps(EmitMaterialization(rewrite, [RegValue(reg, tree)]).0, context, p);
    end.Running? && end.m.regs == p.regs[reg := EvalTree(tree, p.regs)]
  }

  lemma OneRegister(rewrite: Rewrite, reg: Reg, tree: Tree)
    requires tree != RegTree(reg)
    ensures
      var emission := EmitRef(rewrite, tree);
      EmitMaterialization(rewrite, [RegValue(reg, tree)]).0 ==
      emission.ops + [Set(RegStorage(reg), emission.ref, W32, true)]
  {
    hide EmitRef;
    var emission := EmitRef(rewrite, tree);
    var list := [RegValue(reg, tree)];
    assert list[1..] == [] && emission.ops + [] == emission.ops;
    var sets := [Set(RegStorage(reg), emission.ref, W32, true)];
    assert sets + [] == sets;
    assert EmitRefs(rewrite, list) == (emission.ops, sets, emission.rewrite);
  }

  lemma WrittenValue(rewrite: Rewrite, held: Held, reg: Reg, tree: Tree, context: Context, p: Machine)
    requires StaleReuse.Describes(held, rewrite.tracker) && Lossless(held, tree) && tree != RegTree(reg)
    requires Covers(rewrite.tracker, p.vars) && Below(p.vars, rewrite.next)
    ensures WritesItsValue(rewrite, reg, tree, context, p) <==>
            Reused(rewrite.tracker, tree, p.vars, p.regs) == EvalTree(tree, p.regs)
  {
    hide RunSteps, EmitRef, EmitMaterialization, Reused, EvalTree;
    var emission := EmitRef(rewrite, tree);
    OneRegister(rewrite, reg, tree);
    ReusedRuns(rewrite, held, tree, context, p);
    ComputesRuns(emission.ops, context, p, rewrite.next, emission.rewrite.next);
    var middle := RunSteps(emission.ops, context, p).m;
    var op := Set(RegStorage(reg), emission.ref, W32, true);
    RunThen(emission.ops, op, context, p);
    var value := Reused(rewrite.tracker, tree, p.vars, p.regs);
    WriteRegister(op, reg, value, context, middle);
    assert p.regs[reg := value][reg] == value;
  }

  /**
   A write-back gives its register the right value, whatever the stale variables hold, exactly when it takes nothing
   from a variable computed before a write to a register of its tree.
   */
  lemma WriteBackIsRightIffCurrent(rewrite: Rewrite, held: Held, reg: Reg, tree: Tree, context: Context)
    requires StaleReuse.Describes(held, rewrite.tracker) && Lossless(held, tree) && tree != RegTree(reg)
    requires Distinct(rewrite.tracker) && StaleReuse.Below(rewrite.tracker, rewrite.next)
    ensures (forall p: Machine :: Allowed(rewrite, p) ==> WritesItsValue(rewrite, reg, tree, context, p)) <==>
            Need(held, tree).ok
  {
    hide WritesItsValue, Need, Lossless, EvalTree, RunSteps;
    if Need(held, tree).ok {
      forall p: Machine | Allowed(rewrite, p) ensures WritesItsValue(rewrite, reg, tree, context, p) {
        WrittenValue(rewrite, held, reg, tree, context, p);
        CurrentIsRight(rewrite.tracker, held, tree, p.vars, p.regs);
      }
    } else {
      var regs := ZeroRegs();
      var p := Machine(regs, regs, {}, {}, [], WrongWhereStale(rewrite.tracker, regs), []);
      forall entry <- rewrite.tracker ensures entry.id in p.vars && EntryOk(entry, p.vars, regs)
        ensures entry.stale ==> p.vars[entry.id] != EvalTree(entry.tree, regs)
      {
        WrongExactlyWhereStale(rewrite.tracker, regs, entry);
      }
      OnlyTheTrackersVariables(rewrite.tracker, regs, rewrite.next);
      assert Allowed(rewrite, p);
      WrittenValue(rewrite, held, reg, tree, context, p);
      StaleShows(rewrite.tracker, held, tree, p.vars, regs);
      assert !WritesItsValue(rewrite, reg, tree, context, p);
    }
  }

  lemma {:induction false} CurrentIsRight(tracker: Tracker, held: Held, tree: Tree, vars: map<VarId, Word>, regs: Regs)
    requires StaleReuse.Describes(held, tracker) && Lossless(held, tree) && Need(held, tree).ok
    requires Covers(tracker, vars) && TrackerOk(tracker, vars, regs)
    ensures Reused(tracker, tree, vars, regs) == EvalTree(tree, regs)
    decreases tree
  {
    hide EvalBinary;
    FirstWithOk(tracker, tree);
    StaleReuse.HeldTree(held, tracker, tree);
    if !tree.ConstTree? {
      if tree in held {
        assert EntryOk(FirstWith(tracker, tree).value, vars, regs);
      } else if tree.BinaryTree? {
        MovedByConstant(Rewrite(tracker, 0, true), held, tree);
        CurrentIsRight(tracker, held, tree.a, vars, regs);
      }
    }
  }

  function Difference(reg: Reg): Tree {
    BinaryTree(BinSub, RegTree(reg), RegTree(reg))
  }

  function OneStale(reg: Reg, next: VarId): Rewrite {
    Rewrite([Entry(0, RegTree(reg), true)], next, true)
  }

  lemma DifferenceEmitted(reg: Reg, next: VarId)
    ensures FirstWith(OneStale(reg, next).tracker, Difference(reg)).None?
    ensures FirstWith(OneStale(reg, next).tracker, RegTree(reg)) == Some(Entry(0, RegTree(reg), true))
    ensures EmitRef(OneStale(reg, next), Difference(reg)).ops == [ValueBinary(next, BinSub, Var(0), Var(0))]
    ensures EmitRef(OneStale(reg, next), Difference(reg)).ref == Var(next)
  {
    var tracker := OneStale(reg, next).tracker;
    assert tracker[1..] == [];
    assert FirstWith(tracker, RegTree(reg)) == Some(tracker[0]);
    var read := EmitRef(OneStale(reg, next + 1), RegTree(reg));
    assert read == Emission([], Var(0), OneStale(reg, next + 1).(ok := false));
    assert EmitRef(read.rewrite, RegTree(reg)) == read;
    var operations: seq<Op> := [];
    assert operations + operations + [ValueBinary(next, BinSub, Var(0), Var(0))] == [ValueBinary(next, BinSub, Var(0), Var(0))];
  }

  lemma DifferenceRefused(reg: Reg)
    ensures !Need(map[RegTree(reg) := true], Difference(reg)).ok
  {
    var held := map[RegTree(reg) := true];
    assert Need(held, RegTree(reg)) == Walk(held, false);
    assert !NeedParts(held, Difference(reg)).ok;
  }

  lemma OneStaleDescribed(reg: Reg, next: VarId)
    ensures StaleReuse.Describes(map[RegTree(reg) := true], OneStale(reg, next).tracker)
  {
    assert OneStale(reg, next).tracker[1..] == [];
  }

  /**
   Trees that lose what goes in are outside the equivalence: the difference of a stale variable and itself is right
   whatever the variable holds, so refusing it is cautious and not necessary.
   */
  lemma AHiddenStaleReadIsHarmless(source: Reg, target: Reg, next: VarId, context: Context, p: Machine)
    ensures
      var held, rewrite := map[RegTree(source) := true], OneStale(source, next);
      && StaleReuse.Describes(held, rewrite.tracker) && !Need(held, Difference(source)).ok
      && (Allowed(rewrite, p) ==> WritesItsValue(rewrite, target, Difference(source), context, p))
  {
    hide RunSteps, EmitMaterialization, EmitRef, Need, FirstWith;
    DifferenceRefused(source);
    OneStaleDescribed(source, next);
    if Allowed(OneStale(source, next), p) {
      DifferenceEmitted(source, next);
      OneRegister(OneStale(source, next), target, Difference(source));
      var subtraction, op := ValueBinary(next, BinSub, Var(0), Var(0)), Set(RegStorage(target), Var(next), W32, true);
      assert OneStale(source, next).tracker[0] in OneStale(source, next).tracker;
      assert Step(subtraction, context, p) == Running(p.(vars := p.vars[next := 0]));
      RunOne(subtraction, context, p);
      RunThen([subtraction], op, context, p);
      WriteRegister(op, target, 0, context, p.(vars := p.vars[next := 0]));
    }
  }
}
