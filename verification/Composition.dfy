/**
 Propagation followed by expression building. The two compose on every block whose propagated instructions are
 steady. What propagation writes back need not be, even where the block it is given is.
 */
module Composition {
  import opened X86Types
  import opened Ir
  import opened RegisterValues
  import opened RegisterPropagation
  import opened PropagationSafety
  import opened Expressions
  import opened ExpressionSafety
  import ExpressionProof
  import PropagationProof
  import PropagationScope
  import PropagationTheorem

  // ---------- whole blocks of expressions ----------

  /** Build each instruction's expressions and run them. */
  function RunBuilt(block: Block, m: Machine): (outcome: Outcome)
    ensures !outcome.Running?
  {
    if block == [] then Completed(m)
    else
      var outcome := RunExprs(BuildIrExpressionBlock(block[0]), block[0].context, Begin(m));
      if outcome.Completed? then RunBuilt(block[1..], outcome.m) else outcome
  }

  /** What the builder is given: validated operations over the registers x86 names. */
  ghost predicate Buildable(instruction: Instruction) {
    && PropagationScope.AllValid(instruction.ops, instruction.context) && AssignsOnce(instruction.ops, {})
    && ExpressionProof.RealAliases(instruction.context)
  }

  lemma InstructionBuilt(instruction: Instruction, m: Machine)
    requires Buildable(instruction) && Steady(instruction)
    requires RunOps(instruction.ops, instruction.context, Begin(m)) != Stuck
    ensures SameOutcome(RunOps(instruction.ops, instruction.context, Begin(m)),
                        RunExprs(BuildIrExpressionBlock(instruction), instruction.context, Begin(m)))
  {
    hide RunOps, RunExprs, Steady, BuildIrExpressionBlock, ExpressionProof.ValidOp;
    ExpressionProof.ExpressionsPreserveRuns(instruction, Begin(m));
  }

  lemma BeginAgain(m: Machine, vars: map<VarId, Word>)
    ensures Begin(m.(vars := vars)) == Begin(m)
  {
  }

  lemma {:induction false} SameFrom(block: Block, m: Machine, vars: map<VarId, Word>)
    ensures SameOutcome(RunBlock(block, m), RunBlock(block, m.(vars := vars)))
  {
    hide RunOps;
    BeginAgain(m, vars);
  }

  lemma {:induction false} ExpressionsPreserveBlocks(block: Block, m: Machine)
    requires (forall instruction <- block :: Buildable(instruction) && Steady(instruction)) && RunBlock(block, m) != Stuck
    ensures SameOutcome(RunBlock(block, m), RunBuilt(block, m))
    decreases block
  {
    hide RunOps, RunExprs, Steady, BuildIrExpressionBlock, Buildable, Begin;
    if block != [] {
      assert block[0] in block && forall instruction <- block[1..] :: instruction in block;
      InstructionBuilt(block[0], m);
      var o := RunOps(block[0].ops, block[0].context, Begin(m));
      if o.Completed? {
        var q := RunExprs(BuildIrExpressionBlock(block[0]), block[0].context, Begin(m));
        SameFrom(block[1..], o.m, q.m.vars);
        ExpressionsPreserveBlocks(block[1..], q.m);
      }
    }
  }

  // ---------- the composition ----------

  lemma {:induction false} PropagatedIsBuildable(block: Block, values: Values)
    requires forall instruction <- block :: Buildable(instruction)
    ensures forall instruction <- PropagateBlock(block, values).0 :: Buildable(instruction)
    decreases block
  {
    hide AssignsOnce, ExpressionProof.ValidOp, AnalyzeOps, EmitOps, EmitMaterialization, Entered, EntryWriteBack,
      PropagationScope.AllValid;
    if block != [] {
      assert block[0] in block && forall instruction <- block[1..] :: instruction in block;
      var last := |block| == 1;
      PropagationScope.PropagatedAssignsOnce(block[0], last, values);
      PropagationScope.PropagatedIsValid(block[0], last, values);
      PropagatedIsBuildable(block[1..], PropagateInstruction(block[0], last, values).values);
    }
  }

  /**
   Propagating a block and building expressions of the result gives the block's own outcome: the same accesses to
   guest memory, the same fault or exit with the same registers and flags.
   */
  lemma PassesCompose(block: Block, m: Machine)
    requires forall instruction <- block :: PropagationProof.Propagatable(instruction) && Buildable(instruction)
    requires FaultsSeeEntry(block, map[]) && ReusesNothingStale(block, map[])
    requires forall instruction <- PropagateBlock(block, map[]).0 :: Steady(instruction)
    requires RunBlock(block, m) != Stuck
    ensures PropagationProof.SameRun(RunBlock(block, m), RunBuilt(PropagateBlock(block, map[]).0, m))
  {
    hide RunBlock, PropagateBlock, Buildable, Steady, FaultsSeeEntry, ReusesNothingStale, PropagationProof.Propagatable,
      RunBuilt;
    var code := PropagateBlock(block, map[]).0;
    PropagationTheorem.PropagationPreservesRuns(block, m);
    PropagatedIsBuildable(block, map[]);
    ExpressionsPreserveBlocks(code, m);
  }
}
