/** Removing operations whose result nobody reads, in one backward walk over each instruction. */
module LocalDce {
  import opened X86Types
  import opened Ir

  /** An unused result may be dropped unless computing it can fault. */
  predicate Droppable(op: Op, live: set<VarId>, operands: seq<Binding>) {
    Dst(op).Some? && Dst(op).value !in live && !CanFault(op, operands)
  }

  function LiveBefore(op: Op, live: set<VarId>): set<VarId> {
    (if Dst(op).Some? then live - {Dst(op).value} else live) + Uses(op)
  }

  /** The variables live before a list of operations, counting only the uses of operations that are kept. */
  function Live(ops: seq<Op>, operands: seq<Binding>): set<VarId> {
    if ops == [] then {}
    else
      var live := Live(ops[1..], operands);
      if Droppable(ops[0], live, operands) then live else LiveBefore(ops[0], live)
  }

  function Pruned(ops: seq<Op>, operands: seq<Binding>): seq<Op> {
    if ops == [] then []
    else
      var rest := Pruned(ops[1..], operands);
      if Droppable(ops[0], Live(ops[1..], operands), operands) then rest else [ops[0]] + rest
  }

  function PrunedBlock(block: Block): Block {
    seq(|block|, i requires 0 <= i < |block| => block[i].(ops := Pruned(block[i].ops, block[i].context.operands)))
  }

  method PruneInstructionDeadLocalValues(instruction: Instruction) returns (pruned: Instruction, removed: nat)
    ensures pruned == instruction.(ops := Pruned(instruction.ops, instruction.context.operands))
    ensures removed == |instruction.ops| - |pruned.ops|
    ensures NothingIdle(pruned.ops, instruction.context.operands)
    ensures Thinned(instruction.ops, pruned.ops, instruction.context.operands)
  {
    PruningLeavesNothingIdle(instruction.ops, instruction.context.operands);
    hide NothingIdle, Thinned;
    var liveVars: set<VarId> := {};
    var reversed: seq<Op> := [];
    removed := 0;
    var j := |instruction.ops|;
    while j > 0
      invariant 0 <= j <= |instruction.ops|
      invariant liveVars == Live(instruction.ops[j..], instruction.context.operands)
      invariant Reversed(reversed) == Pruned(instruction.ops[j..], instruction.context.operands)
      invariant removed == |instruction.ops| - j - |reversed|
    {
      j := j - 1;
      var op := instruction.ops[j];
      assert instruction.ops[j..][1..] == instruction.ops[j + 1..];
      if Droppable(op, liveVars, instruction.context.operands) {
        removed := removed + 1;
      } else {
        if Dst(op).Some? {
          liveVars := liveVars - {Dst(op).value};
        }
        liveVars := liveVars + Uses(op);
        reversed := reversed + [op];
      }
    }
    assert instruction.ops[0..] == instruction.ops;
    pruned := instruction.(ops := Reversed(reversed));
  }

  function Reversed(ops: seq<Op>): (r: seq<Op>)
    ensures |r| == |ops|
  {
    if ops == [] then [] else [ops[|ops| - 1]] + Reversed(ops[..|ops| - 1])
  }

  method PruneDeadJitLocalValues(block: Block) returns (pruned: Block, removed: nat)
    ensures pruned == PrunedBlock(block)
    ensures removed == 0 <==> pruned == block
    ensures removed == OpCount(block) - OpCount(pruned)
    ensures |pruned| == |block| && forall i | 0 <= i < |block| ::
              && pruned[i].context == block[i].context
              && NothingIdle(pruned[i].ops, block[i].context.operands)
              && Thinned(block[i].ops, pruned[i].ops, block[i].context.operands)
  {
    hide NothingIdle, Thinned, Pruned;
    pruned, removed := [], 0;
    for i := 0 to |block|
      invariant |pruned| == i && removed == OpCount(block[..i]) - OpCount(pruned)
      invariant forall k | 0 <= k < i ::
                  && NothingIdle(pruned[k].ops, block[k].context.operands)
                  && Thinned(block[k].ops, pruned[k].ops, block[k].context.operands)
      invariant pruned == PrunedBlock(block)[..i]
      invariant removed == 0 <==> pruned == block[..i]
    {
      var instruction, count := PruneInstructionDeadLocalValues(block[i]);
      SamePrunedSize(block[i].ops, block[i].context.operands);
      assert block[..i + 1][..i] == block[..i] && (pruned + [instruction])[..i] == pruned;
      pruned := pruned + [instruction];
      removed := removed + count;
    }
    assert block[..|block|] == block;
  }

  function OpCount(block: Block): nat {
    if block == [] then 0 else OpCount(block[..|block| - 1]) + |block[|block| - 1].ops|
  }

  lemma {:induction false} SamePrunedSize(ops: seq<Op>, operands: seq<Binding>)
    ensures |Pruned(ops, operands)| <= |ops|
    ensures |Pruned(ops, operands)| == |ops| <==> Pruned(ops, operands) == ops
  {
    if ops != [] { SamePrunedSize(ops[1..], operands); }
  }

  // ---------- what pruning preserves ----------

  /** A droppable operation only defines its variable. */
  lemma DroppedStep(op: Op, context: Context, m: Machine, live: set<VarId>)
    requires Droppable(op, live, context.operands) && Step(op, context, m) != Stuck
    ensures Step(op, context, m).Running?
    ensures Step(op, context, m).m == m.(vars := Step(op, context, m).m.vars)
  {
    hide StepWrite, PureResult, Extended, ReadAlias, ReadMemory, Mask32;
  }

  lemma {:induction false} PrunedRun(ops: seq<Op>, context: Context, m: Machine, vars: map<VarId, Word>)
    requires AgreeOn(m.vars, vars, Live(ops, context.operands)) && RunOps(ops, context, m) != Stuck
    ensures SameOutcome(RunOps(ops, context, m),
                        RunOps(Pruned(ops, context.operands), context, m.(vars := vars)))
    decreases ops
  {
    hide Step, Uses, CanFault;
    var op, rest := ops[0], ops[1..];
    var live := Live(rest, context.operands);
    var step := Step(op, context, m);
    if step.Running? { StepDefinesItsDst(op, context, m); }
    if Droppable(op, live, context.operands) {
      DroppedStep(op, context, m, live);
      PrunedRun(rest, context, step.m, vars);
    } else {
      StepReadsItsUses(op, context, m, vars);
      assert ([op] + Pruned(rest, context.operands))[1..] == Pruned(rest, context.operands);
      if step.Running? {
        var other := Step(op, context, m.(vars := vars)).m;
        PrunedRun(rest, context, step.m, other.vars);
      }
    }
  }

  /** Every effect, fault, exit and exposed register or flag of a run that does not get stuck survives pruning. */
  lemma {:induction false} PruningPreservesRuns(block: Block, m: Machine)
    requires RunBlock(block, m) != Stuck
    ensures SameOutcome(RunBlock(block, m), RunBlock(PrunedBlock(block), m))
    decreases |block|
  {
    hide Live, Pruned;
    if block != [] {
      var first, rest := block[0], block[1..];
      assert PrunedBlock(block)[1..] == PrunedBlock(rest);
      PrunedRun(first.ops, first.context, Begin(m), map[]);
      var outcome := RunOps(first.ops, first.context, Begin(m));
      if outcome.Completed? {
        PruningPreservesRuns(rest, outcome.m);
        var other := RunOps(Pruned(first.ops, first.context.operands), first.context, Begin(m)).m;
        VariablesAreLocal(PrunedBlock(rest), outcome.m, other.vars);
      }
    }
  }

  /** Variables do not outlive their instruction. */
  lemma VariablesAreLocal(block: Block, m: Machine, vars: map<VarId, Word>)
    ensures SameOutcome(RunBlock(block, m), RunBlock(block, m.(vars := vars)))
  {
    assert Begin(m.(vars := vars)) == Begin(m);
  }

  // ---------- one pass is enough ----------

  lemma {:induction false} PrunedAgain(ops: seq<Op>, operands: seq<Binding>)
    ensures Live(Pruned(ops, operands), operands) == Live(ops, operands)
    ensures Pruned(Pruned(ops, operands), operands) == Pruned(ops, operands)
  {
    hide Uses, CanFault;
    if ops != [] {
      PrunedAgain(ops[1..], operands);
      var rest := Pruned(ops[1..], operands);
      assert ([ops[0]] + rest)[1..] == rest;
    }
  }

  /** Running the pass on its own output removes nothing. */
  lemma OnePassIsComplete(block: Block)
    ensures PrunedBlock(PrunedBlock(block)) == PrunedBlock(block)
  {
    forall i | 0 <= i < |block| {
      PrunedAgain(block[i].ops, block[i].context.operands);
    }
  }

  // ---------- what is left, and what is gone ----------

  /** A later operation reads the variable that an operation defines, before anything defines it again. */
  ghost predicate ReadLater(ops: seq<Op>, j: nat)
    requires j < |ops|
  {
    exists k: nat :: ReadAt(ops, j, k)
  }

  predicate ReadAt(ops: seq<Op>, j: nat, k: nat)
    requires j < |ops|
  {
    && j < k < |ops| && Dst(ops[j]).Some? && Dst(ops[j]).value in Uses(ops[k])
    && forall i | j < i < k :: Dst(ops[i]) != Dst(ops[j])
  }

  /** An operation that does nothing but define a variable. */
  predicate OnlyDefines(op: Op, operands: seq<Binding>) {
    Dst(op).Some? && !CanFault(op, operands)
  }

  /** No operation computes a value that nobody reads. */
  ghost predicate NothingIdle(ops: seq<Op>, operands: seq<Binding>) {
    forall j: nat | j < |ops| && OnlyDefines(ops[j], operands) :: ReadLater(ops, j)
  }

  /** The second list is the first without some operations that do nothing but define a variable. */
  predicate Thinned(ops: seq<Op>, left: seq<Op>, operands: seq<Binding>)
    decreases ops
  {
    if ops == [] then left == []
    else
      || (left != [] && left[0] == ops[0] && Thinned(ops[1..], left[1..], operands))
      || (OnlyDefines(ops[0], operands) && Thinned(ops[1..], left, operands))
  }

  /** A variable is live exactly when it is read before it is defined again. */
  lemma {:induction false} LiveMeansRead(ops: seq<Op>, operands: seq<Binding>, id: VarId)
    requires id in Live(ops, operands)
    ensures exists k: nat :: ReadFirst(Pruned(ops, operands), id, k)
    decreases ops
  {
    hide Uses, CanFault;
    var rest := Pruned(ops[1..], operands);
    if Droppable(ops[0], Live(ops[1..], operands), operands) {
      LiveMeansRead(ops[1..], operands, id);
      assert Pruned(ops, operands) == rest;
    } else {
      var left := [ops[0]] + rest;
      assert Pruned(ops, operands) == left && left[1..] == rest;
      if id in Uses(ops[0]) {
        assert ReadFirst(left, id, 0);
      } else {
        LiveMeansRead(ops[1..], operands, id);
        var k: nat :| ReadFirst(rest, id, k);
        assert Dst(ops[0]) != Some(id) && left[k + 1] == rest[k];
        assert forall i | 0 <= i < k + 1 :: i > 0 ==> left[i] == rest[i - 1];
        assert ReadFirst(left, id, k + 1);
      }
    }
  }

  predicate ReadFirst(ops: seq<Op>, id: VarId, k: nat) {
    k < |ops| && id in Uses(ops[k]) && forall i | 0 <= i < k :: Dst(ops[i]) != Some(id)
  }

  /** What the pass leaves is needed by what it leaves, and what it takes away did nothing but define a variable. */
  lemma {:induction false} PruningLeavesNothingIdle(ops: seq<Op>, operands: seq<Binding>)
    ensures NothingIdle(Pruned(ops, operands), operands)
    ensures Thinned(ops, Pruned(ops, operands), operands)
    decreases ops
  {
    hide Uses, CanFault;
    if ops != [] {
      PruningLeavesNothingIdle(ops[1..], operands);
      var rest, left := Pruned(ops[1..], operands), Pruned(ops, operands);
      if left == [ops[0]] + rest {
        assert left[1..] == rest;
        forall j: nat | j < |left| && OnlyDefines(left[j], operands) ensures ReadLater(left, j) {
          if j > 0 {
            var k: nat :| ReadAt(rest, j - 1, k);
            assert ReadAt(left, j, k + 1);
          } else {
            LiveMeansRead(ops[1..], operands, Dst(ops[0]).value);
            var k: nat :| ReadFirst(rest, Dst(ops[0]).value, k);
            assert ReadAt(left, 0, k + 1);
          }
        }
      }
    }
  }
}
