/**
 Removing flag producers whose flags nobody sees. A backward analysis finds the live flags; an operation that can
 fault makes every flag live at the entry of its instruction, because that is what the fault exposes.
 */
module FlagDce {
  import opened X86Types
  import opened Flags
  import opened Conditions
  import opened Ir

  function FlagReads(op: Op, context: Context): Mask {
    match op
    case FlagsCondition(_, cc) => ConditionReads(cc)
    case FlagsMaterialize(mask) => mask
    case FlagsBoundary(mask) => mask
    case _ => if IsExit(op, context) then ALL_FLAGS else {}
  }

  predicate Keeps(op: Op, liveAfter: Mask) {
    op.FlagsSet? ==> liveAfter * (WrittenMask(op.producer) + UndefMask(op.producer)) != {}
  }

  lemma KeepsOthers(op: Op, liveAfter: Mask)
    ensures !Keeps(op, liveAfter) ==> op.FlagsSet?
  {
  }

  function LiveBefore(op: Op, context: Context, liveAfter: Mask): Mask {
    var live := liveAfter + FlagReads(op, context);
    if op.FlagsSet? && Keeps(op, live) then live - WrittenMask(op.producer) else live
  }

  function LiveFlags(ops: seq<Op>, context: Context, liveOut: Mask): Mask {
    if ops == [] then liveOut else LiveBefore(ops[0], context, LiveFlags(ops[1..], context, liveOut))
  }

  function LiveIn(block: Block): Mask {
    if block == [] then {}
    else
      LiveFlags(block[0].ops, block[0].context, LiveIn(block[1..])) +
      (if AnyFault(block[0].ops, block[0].context) then ALL_FLAGS else {})
  }

  function Kept(ops: seq<Op>, context: Context, liveOut: Mask): (kept: seq<bool>)
    ensures |kept| == |ops|
  {
    if ops == [] then []
    else [Keeps(ops[0], LiveFlags(ops[1..], context, liveOut))] + Kept(ops[1..], context, liveOut)
  }

  function Filter(ops: seq<Op>, kept: seq<bool>): seq<Op>
    requires |kept| == |ops|
  {
    if ops == [] then [] else (if kept[0] then [ops[0]] else []) + Filter(ops[1..], kept[1..])
  }

  function PrunedInstruction(instruction: Instruction, liveOut: Mask): Instruction {
    instruction.(ops := Filter(instruction.ops, Kept(instruction.ops, instruction.context, liveOut)))
  }

  function PrunedBlock(block: Block): Block {
    if block == [] then [] else [PrunedInstruction(block[0], LiveIn(block[1..]))] + PrunedBlock(block[1..])
  }

  /** One instruction's backward walk. */
  method AnalyzeInstruction(instruction: Instruction, liveOut: Mask) returns (liveIn: Mask, kept: seq<bool>)
    ensures liveIn == LiveFlags(instruction.ops, instruction.context, liveOut) +
                      (if AnyFault(instruction.ops, instruction.context) then ALL_FLAGS else {})
    ensures kept == Kept(instruction.ops, instruction.context, liveOut)
    ensures forall after: seq<Point> | AreSeen(liveOut, after) ::
              AreSeen(liveIn, [Start(instruction)] + (OpPoints(instruction.ops, instruction.context) + after))
  {
    forall after: seq<Point> | AreSeen(liveOut, after)
      ensures AreSeen(LiveFlags(instruction.ops, instruction.context, liveOut) +
                      (if AnyFault(instruction.ops, instruction.context) then ALL_FLAGS else {}),
                      [Start(instruction)] + (OpPoints(instruction.ops, instruction.context) + after))
    {
      EntryIsSeen(instruction, liveOut, after);
    }
    hide AreSeen;
    var ops, context := instruction.ops, instruction.context;
    var live, entryRead: Mask := liveOut, {};
    kept := [];
    var j := |ops|;
    while j > 0
      invariant 0 <= j <= |ops|
      invariant live == LiveFlags(ops[j..], context, liveOut)
      invariant kept == Kept(ops[j..], context, liveOut)
      invariant entryRead == if AnyFault(ops[j..], context) then ALL_FLAGS else {}
    {
      hide Keeps, FlagReads, CanFault, IsExit, ConditionReads;
      j := j - 1;
      var op := ops[j];
      assert ops[j..] == [op] + ops[j + 1..] && ops[j..][1..] == ops[j + 1..];
      if CanFault(op, context.operands) {
        entryRead := entryRead + ALL_FLAGS;
      }
      kept := [Keeps(op, live)] + kept;
      live := LiveBefore(op, context, live);
    }
    assert ops[0..] == ops;
    liveIn := live + entryRead;
  }

  function KeptBlock(block: Block): (kept: seq<seq<bool>>)
    ensures |kept| == |block|
    ensures block != [] ==> |kept[0]| == |block[0].ops|
  {
    if block == [] then []
    else [Kept(block[0].ops, block[0].context, LiveIn(block[1..]))] + KeptBlock(block[1..])
  }

  method AnalyzeJitFlagLiveness(block: Block) returns (kept: seq<seq<bool>>)
    ensures kept == KeptBlock(block)
    ensures KeepsTheNeeded(block, kept)
  {
    KeptAreNeeded(block);
    hide LiveFlags, Kept, AnyFault, KeepsTheNeeded;
    var live: Mask := {};
    kept := [];
    var i := |block|;
    while i > 0
      invariant 0 <= i <= |block|
      invariant live == LiveIn(block[i..])
      invariant kept == KeptBlock(block[i..])
    {
      i := i - 1;
      assert block[i..][1..] == block[i + 1..];
      var keptHere;
      live, keptHere := AnalyzeInstruction(block[i], live);
      kept := [keptHere] + kept;
    }
    assert block[0..] == block;
  }

  method PruneInstruction(instruction: Instruction, kept: seq<bool>) returns (pruned: Instruction)
    requires |kept| == |instruction.ops|
    ensures pruned == instruction.(ops := Filter(instruction.ops, kept))
  {
    var ops: seq<Op> := [];
    for j := 0 to |instruction.ops|
      invariant ops + Filter(instruction.ops[j..], kept[j..]) == Filter(instruction.ops, kept)
    {
      assert instruction.ops[j..][1..] == instruction.ops[j + 1..] && kept[j..][1..] == kept[j + 1..];
      if kept[j] {
        ops := ops + [instruction.ops[j]];
      }
    }
    pruned := instruction.(ops := ops);
  }

  method PruneDeadJitFlagSets(block: Block) returns (pruned: Block)
    ensures pruned == PrunedBlock(block)
    ensures AllNeeded(pruned)
  {
    PrunedSetsAreNeeded(block);
    hide LiveFlags, Kept, Filter, AllNeeded;
    var kept := AnalyzeJitFlagLiveness(block);
    pruned := [];
    for i := 0 to |block|
      invariant kept[i..] == KeptBlock(block[i..])
      invariant pruned + PrunedBlock(block[i..]) == PrunedBlock(block)
    {
      assert block[i..][1..] == block[i + 1..] && kept[i..][1..] == kept[i + 1..];
      assert kept[i] == kept[i..][0];
      var instruction := PruneInstruction(block[i], kept[i]);
      pruned := pruned + [instruction];
    }
  }

  // ---------- what pruning preserves ----------

  ghost predicate AgreeOnFlags(first: Mask, second: Mask, mask: Mask) {
    forall flag <- mask :: flag in first <==> flag in second
  }

  /** The same machine with other flags, and possibly other flags at instruction entry. */
  function Reflag(m: Machine, flags: Mask, entry: Mask): Machine {
    m.(flags := flags, entryFlags := entry)
  }

  /** The same step on a machine with other flags. */
  ghost predicate SameStep(op: Op, step: Outcome, other: Outcome, flags: Mask, entry: Mask, context: Context) {
    match step
    case Running(n) =>
      if op.FlagsSet? then other.Running? && other.m == Reflag(n, other.m.flags, entry)
      else other == Running(Reflag(n, flags, entry))
    case Completed(n) => other == Completed(Reflag(n, flags, entry))
    case _ => other == step
  }

  lemma SameGet(op: Op, context: Context, m: Machine, flags: Mask, entry: Mask)
    requires op.Get? && (CanFault(op, context.operands) ==> entry == m.entryFlags)
    ensures SameStep(op, StepGet(op, context, m), StepGet(op, context, Reflag(m, flags, entry)), flags, entry, context)
  {
    hide Extended, ReadMemory, ReadAlias, Mask32;
  }

  lemma SameWrite(
      op: Op, value: Word, role: bool, context: Context, m: Machine, flags: Mask, entry: Mask)
    requires op.Set? || op.SetIf?
    requires IsMemory(op.target, context.operands) ==> entry == m.entryFlags
    ensures SameStep(op, StepWrite(op.target, value, op.width, role, context, m),
                     StepWrite(op.target, value, op.width, role, context, Reflag(m, flags, entry)), flags, entry, context)
  {
    hide WriteMemory, WriteAlias, Mask32;
  }

  lemma SamePure(op: Op, context: Context, m: Machine, flags: Mask, entry: Mask)
    requires AgreeOnFlags(m.flags, flags, FlagReads(op, context))
    ensures PureResult(op, context, Reflag(m, flags, entry)) == PureResult(op, context, m)
  {
    hide EvalInputs, Condition, DirectConditions.ConditionKind, DirectConditions.Decide;
    if op.FlagsCondition? { ReadsSuffice(op.cc, m.flags, flags); }
  }

  lemma SameControl(op: Op, context: Context, m: Machine, flags: Mask, entry: Mask)
    requires op.Next? || op.Jump? || op.ConditionalJump? || op.HostTrap?
    requires AgreeOnFlags(m.flags, flags, FlagReads(op, context))
    ensures SameStep(op, StepControl(op, context, m), StepControl(op, context, Reflag(m, flags, entry)), flags, entry, context)
  {
    AllFlagsListed(m.flags + flags);
    assert IsExit(op, context) ==> m.flags == flags;
  }

  lemma AllFlagsListed(mask: Mask)
    ensures mask <= ALL_FLAGS
  {
    forall flag <- mask ensures flag in ALL_FLAGS {
      match flag case CF => case PF => case AF => case ZF => case SF => case OF =>
    }
  }

  /** A step depends only on the flags it reads. */
  lemma StepReadsItsFlags(op: Op, context: Context, m: Machine, flags: Mask, entry: Mask)
    requires AgreeOnFlags(m.flags, flags, FlagReads(op, context))
    requires CanFault(op, context.operands) ==> entry == m.entryFlags
    requires op.SetIf? ==> !IsMemory(op.target, context.operands)
    ensures SameStep(op, Step(op, context, m), Step(op, context, Reflag(m, flags, entry)), flags, entry, context)
  {
    hide StepGet, StepWrite, StepControl, PureResult, EvalInputs, SetFlags, FlagReads;
    match op
    case Get(_, _, _, _) => SameGet(op, context, m, flags, entry);
    case Set(target, value, width, role) =>
      if Eval(value, m.vars, context.nextEip).Some? {
        SameWrite(op, Eval(value, m.vars, context.nextEip).value, role, context, m, flags, entry);
      }
    case SetIf(_, target, value, width) =>
      if Eval(value, m.vars, context.nextEip).Some? {
        SameWrite(op, Eval(value, m.vars, context.nextEip).value, false, context, m, flags, entry);
      }
    case FlagsSet(_, _, _) =>
    case FlagsMaterialize(_) =>
    case FlagsBoundary(_) =>
    case Next => SameControl(op, context, m, flags, entry);
    case Jump(_) => SameControl(op, context, m, flags, entry);
    case ConditionalJump(_, _, _) => SameControl(op, context, m, flags, entry);
    case HostTrap(_) => SameControl(op, context, m, flags, entry);
    case _ => SamePure(op, context, m, flags, entry);
  }

  /** The same outcome; a completed instruction may leave other flags, except the live ones. */
  ghost predicate SameOutcome(first: Outcome, second: Outcome, live: Mask) {
    if first.Completed? then
      second.Completed? && second.m == Reflag(first.m, second.m.flags, second.m.entryFlags) &&
      AgreeOnFlags(first.m.flags, second.m.flags, live)
    else second == first
  }

  /** A retained producer makes the flags it writes agree; a removed one writes no live flag. */
  lemma ProducerStep(op: Op, context: Context, m: Machine, flags: Mask, entry: Mask, liveAfter: Mask)
    requires op.FlagsSet? && AgreeOnFlags(m.flags, flags, LiveBefore(op, context, liveAfter))
    requires Step(op, context, m).Running?
    ensures
      var n := Step(op, context, m).m;
      if Keeps(op, liveAfter) then
        var other := Step(op, context, Reflag(m, flags, entry));
        other.Running? && AgreeOnFlags(n.flags, other.m.flags, liveAfter)
      else n == Reflag(m, n.flags, m.entryFlags) && AgreeOnFlags(n.flags, flags, liveAfter)
  {
    hide Produces, EvalInputs;
    ProducersWriteTheirUndefined(op.producer);
  }

  lemma CompletionIsLast(op: Op, rest: seq<Op>, context: Context, m: Machine)
    requires Step(op, context, m).Completed? && (rest != [] ==> !IsTerminator(op))
    ensures rest == [] && op.Next? && Step(op, context, m).m == m
  {
    hide Extended, ReadMemory, ReadAlias, Mask32, PureResult, WriteAlias, WriteMemory, EvalInputs, SetFlags;
  }

  lemma ReadsAreLive(op: Op, context: Context, liveAfter: Mask)
    ensures FlagReads(op, context) <= LiveBefore(op, context, liveAfter)
    ensures !op.FlagsSet? ==> liveAfter <= LiveBefore(op, context, liveAfter)
  {
  }

  lemma ProducerRuns(op: Op, context: Context, m: Machine)
    requires op.FlagsSet?
    ensures Step(op, context, m) == Stuck || Step(op, context, m).Running?
  {
  }

  lemma StepKeepsEntryFlags(op: Op, context: Context, m: Machine)
    ensures Step(op, context, m).Running? ==>
              Step(op, context, m).m.entryFlags == m.entryFlags &&
              (!op.FlagsSet? ==> Step(op, context, m).m.flags == m.flags)
  {
    hide Extended, ReadMemory, ReadAlias, Mask32, PureResult, WriteAlias, WriteMemory, EvalInputs, SetFlags;
  }

  lemma ProducersWriteTheirUndefined(producer: Producer)
    ensures UndefMask(producer) <= WrittenMask(producer)
  {
  }

  lemma FaultsRemain(ops: seq<Op>, context: Context)
    requires ops != []
    ensures AnyFault(ops, context) <==> CanFault(ops[0], context.operands) || AnyFault(ops[1..], context)
  {
    if AnyFault(ops, context) {
      var op :| op in ops && CanFault(op, context.operands);
      assert op == ops[0] || op in ops[1..];
    }
  }

  lemma {:induction false} PrunedRun(
      ops: seq<Op>, context: Context, m: Machine, flags: Mask, entry: Mask, liveOut: Mask)
    requires NoMemorySetIf(ops, context) && TerminatorIsLast(ops) && RunOps(ops, context, m) != Stuck
    requires AgreeOnFlags(m.flags, flags, LiveFlags(ops, context, liveOut))
    requires AnyFault(ops, context) ==> entry == m.entryFlags
    ensures SameOutcome(RunOps(ops, context, m),
                        RunOps(Filter(ops, Kept(ops, context, liveOut)), context, Reflag(m, flags, entry)), liveOut)
    decreases ops
  {
    hide Step, FlagReads, CanFault, Keeps, AnyFault;
    var op, rest := ops[0], ops[1..];
    var kept, live := Kept(ops, context, liveOut), LiveFlags(rest, context, liveOut);
    assert kept[1..] == Kept(rest, context, liveOut);
    var pruned := Filter(rest, kept[1..]);
    var step := Step(op, context, m);
    assert op in ops;
    FaultsRemain(ops, context);
    ReadsAreLive(op, context, live);
    StepReadsItsFlags(op, context, m, flags, entry);
    if step.Running? && op.FlagsSet? { ProducerStep(op, context, m, flags, entry, live); }
    if kept[0] {
      assert ([op] + pruned)[1..] == pruned;
      var other := Step(op, context, Reflag(m, flags, entry));
      if step.Running? {
        StepKeepsEntryFlags(op, context, m);
        PrunedRun(rest, context, step.m, other.m.flags, entry, liveOut);
      } else if step.Completed? {
        CompletionIsLast(op, rest, context, m);
      }
    } else {
      KeepsOthers(op, live);
      ProducerRuns(op, context, m);
      assert Filter(ops, kept) == pruned;
      assert Reflag(step.m, flags, entry) == Reflag(m, flags, entry);
      StepKeepsEntryFlags(op, context, m);
      PrunedRun(rest, context, step.m, flags, entry, liveOut);
    }
  }

  /**
   Every access, fault, exit and exposed register or flag of a run that does not get stuck survives. Only the dead
   flags may differ when the last instruction merely completes instead of leaving the block.
   */
  lemma {:induction false} PruningPreservesRuns(block: Block, m: Machine, flags: Mask)
    requires Supported(block) && RunBlock(block, m) != Stuck
    requires AgreeOnFlags(m.flags, flags, LiveIn(block))
    ensures SameOutcome(RunBlock(block, m), RunBlock(PrunedBlock(block), Reflag(m, flags, m.entryFlags)), {})
    decreases |block|
  {
    hide LiveFlags, Kept, Filter, AnyFault, TerminatorIsLast, NoMemorySetIf;
    if block != [] {
      var first, rest := block[0], block[1..];
      var begun, start := Begin(m), Begin(Reflag(m, flags, m.entryFlags));
      var pruned := PrunedInstruction(first, LiveIn(rest));
      assert PrunedBlock(block)[1..] == PrunedBlock(rest);
      assert start == Reflag(begun, flags, flags);
      AllFlagsListed(m.flags + flags);
      PrunedRun(first.ops, first.context, begun, flags, flags, LiveIn(rest));
      var outcome := RunOps(first.ops, first.context, begun);
      var other := RunOps(pruned.ops, pruned.context, start);
      if outcome.Completed? {
        PruningPreservesRuns(rest, outcome.m, other.m.flags);
        EntryFlagsAreLocal(PrunedBlock(rest), outcome.m, other.m.flags, other.m.entryFlags);
      }
    }
  }

  /** Each instruction captures its own entry flags. */
  lemma EntryFlagsAreLocal(block: Block, m: Machine, flags: Mask, entry: Mask)
    ensures SameOutcome(RunBlock(block, Reflag(m, flags, m.entryFlags)), RunBlock(block, Reflag(m, flags, entry)),
                        ALL_FLAGS)
  {
    assert Begin(Reflag(m, flags, entry)) == Begin(Reflag(m, flags, m.entryFlags));
  }

  // ---------- what is kept, and what is not ----------

  // The places of a block in running order: where an instruction starts, and its operations.
  datatype Point = Start(instruction: Instruction) | At(op: Op, context: Context)

  function OpPoints(ops: seq<Op>, context: Context): (points: seq<Point>)
    ensures |points| == |ops|
  {
    seq(|ops|, i requires 0 <= i < |ops| => At(ops[i], context))
  }

  function Points(block: Block): seq<Point> {
    if block == [] then []
    else [Start(block[0])] + (OpPoints(block[0].ops, block[0].context) + Points(block[1..]))
  }

  /** A flag can be seen: a fault would expose it as it was there, or the operation reads it or leaves the block. */
  predicate Shows(point: Point, flag: Flag) {
    match point
    case Start(instruction) => AnyFault(instruction.ops, instruction.context)
    case At(op, context) =>
      || (op.FlagsCondition? && flag in FlagsIn(ConditionExpr(op.cc)))
      || ((op.FlagsMaterialize? || op.FlagsBoundary?) && flag in op.mask)
      || IsExit(op, context)
  }

  predicate Rewrites(point: Point, flag: Flag) {
    point.At? && point.op.FlagsSet? && flag in WrittenMask(point.op.producer)
  }

  predicate SeenAt(points: seq<Point>, flag: Flag, n: nat) {
    n < |points| && Shows(points[n], flag) && forall i | 0 <= i < n :: !Rewrites(points[i], flag)
  }

  /** The flag is seen before it is written again. */
  ghost predicate Seen(points: seq<Point>, flag: Flag) {
    exists n: nat :: SeenAt(points, flag, n)
  }

  /** The flags that are seen before they are written again. */
  ghost predicate AreSeen(live: Mask, points: seq<Point>) {
    forall flag: Flag :: flag in live <==> Seen(points, flag)
  }

  /** What comes after an operation of the block. */
  function After(block: Block, i: nat, j: nat): seq<Point>
    requires i < |block| && j < |block[i].ops|
  {
    OpPoints(block[i].ops[j + 1..], block[i].context) + Points(block[i + 1..])
  }

  /** One of the flags that the flag set writes or leaves undefined is seen before it is written again. */
  ghost predicate Needed(block: Block, i: nat, j: nat)
    requires i < |block| && j < |block[i].ops| && block[i].ops[j].FlagsSet?
  {
    var producer := block[i].ops[j].producer;
    exists flag <- WrittenMask(producer) + UndefMask(producer) :: Seen(After(block, i, j), flag)
  }

  ghost predicate AllNeeded(block: Block) {
    forall i: nat, j: nat | i < |block| && j < |block[i].ops| && block[i].ops[j].FlagsSet? :: Needed(block, i, j)
  }

  lemma SeenFirst(point: Point, rest: seq<Point>, flag: Flag)
    ensures Seen([point] + rest, flag) <==> Shows(point, flag) || (!Rewrites(point, flag) && Seen(rest, flag))
  {
    hide Shows, Rewrites;
    var points := [point] + rest;
    if Shows(point, flag) {
      assert SeenAt(points, flag, 0);
    } else if Seen(points, flag) {
      var n: nat :| SeenAt(points, flag, n);
      assert !Rewrites(points[0], flag) && forall i | 0 <= i < n - 1 :: rest[i] == points[i + 1];
      assert SeenAt(rest, flag, n - 1);
    }
    if !Rewrites(point, flag) && Seen(rest, flag) {
      var n: nat :| SeenAt(rest, flag, n);
      assert forall i | 0 <= i < n + 1 :: i > 0 ==> points[i] == rest[i - 1];
      assert SeenAt(points, flag, n + 1);
    }
  }

  lemma LiveBeforeMeans(op: Op, context: Context, liveAfter: Mask, flag: Flag)
    ensures flag in LiveBefore(op, context, liveAfter) <==>
            Shows(At(op, context), flag) || (!Rewrites(At(op, context), flag) && flag in liveAfter)
  {
    AllFlagsListed({flag});
    if op.FlagsCondition? { ReadsAreTheFlagsNamed(op.cc); }
    hide ConditionReads, ConditionExpr, FlagsIn;
  }

  /** The flags found live are those that are seen before they are written again. */
  lemma {:induction false} LiveIsSeen(ops: seq<Op>, context: Context, liveOut: Mask, after: seq<Point>, flag: Flag)
    requires flag in liveOut <==> Seen(after, flag)
    ensures flag in LiveFlags(ops, context, liveOut) <==> Seen(OpPoints(ops, context) + after, flag)
    decreases ops
  {
    hide LiveBefore, Shows, Rewrites, Seen;
    if ops == [] {
      assert OpPoints(ops, context) + after == after;
    } else {
      LiveIsSeen(ops[1..], context, liveOut, after, flag);
      var rest := OpPoints(ops[1..], context) + after;
      assert OpPoints(ops, context) + after == [At(ops[0], context)] + rest;
      SeenFirst(At(ops[0], context), rest, flag);
      LiveBeforeMeans(ops[0], context, LiveFlags(ops[1..], context, liveOut), flag);
    }
  }

  lemma EntryIsSeen(instruction: Instruction, liveOut: Mask, after: seq<Point>)
    requires AreSeen(liveOut, after)
    ensures AreSeen(LiveFlags(instruction.ops, instruction.context, liveOut) +
                    (if AnyFault(instruction.ops, instruction.context) then ALL_FLAGS else {}),
                    [Start(instruction)] + (OpPoints(instruction.ops, instruction.context) + after))
  {
    hide LiveFlags, Seen;
    var live := LiveFlags(instruction.ops, instruction.context, liveOut) +
                (if AnyFault(instruction.ops, instruction.context) then ALL_FLAGS else {});
    var points := [Start(instruction)] + (OpPoints(instruction.ops, instruction.context) + after);
    forall flag: Flag ensures flag in live <==> Seen(points, flag) {
      LiveIsSeen(instruction.ops, instruction.context, liveOut, after, flag);
      SeenFirst(Start(instruction), OpPoints(instruction.ops, instruction.context) + after, flag);
      AllFlagsListed({flag});
    }
  }

  lemma {:induction false} LiveInIsSeen(block: Block)
    ensures AreSeen(LiveIn(block), Points(block))
    decreases |block|
  {
    hide LiveFlags, Seen;
    if block == [] {
      forall flag: Flag ensures !Seen([], flag) { NothingSeen(flag); }
    } else {
      LiveInIsSeen(block[1..]);
      EntryIsSeen(block[0], LiveIn(block[1..]), Points(block[1..]));
    }
  }

  lemma NothingSeen(flag: Flag)
    ensures !Seen([], flag)
  {
  }

  /** An operation is kept exactly when it sets no flags or one of its flags is needed. */
  lemma KeptIffNeeded(block: Block, i: nat, j: nat)
    requires i < |block| && j < |block[i].ops|
    ensures i < |KeptBlock(block)| && j < |KeptBlock(block)[i]|
    ensures KeptBlock(block)[i][j] <==> (block[i].ops[j].FlagsSet? ==> Needed(block, i, j))
  {
    var op, context, after := block[i].ops[j], block[i].context, LiveIn(block[i + 1..]);
    var live := LiveFlags(block[i].ops[j + 1..], context, after);
    KeptAt(block, i);
    KeptHere(block[i].ops, context, after, j);
    forall flag: Flag ensures flag in live <==> Seen(After(block, i, j), flag) {
      LiveInIsSeen(block[i + 1..]);
      LiveIsSeen(block[i].ops[j + 1..], context, after, Points(block[i + 1..]), flag);
    }
    hide Seen, LiveFlags, LiveIn, Kept, KeptBlock, WrittenMask, UndefMask, After;
  }

  ghost predicate RightlyKept(block: Block, kept: seq<seq<bool>>, i: nat, j: nat)
    requires i < |block| && j < |block[i].ops|
  {
    && i < |kept| && j < |kept[i]|
    && (kept[i][j] <==> (block[i].ops[j].FlagsSet? ==> Needed(block, i, j)))
  }

  /** Everything is kept but the flag sets that nothing needs. */
  ghost predicate KeepsTheNeeded(block: Block, kept: seq<seq<bool>>) {
    |kept| == |block| &&
    forall i: nat, j: nat | i < |block| && j < |block[i].ops| :: RightlyKept(block, kept, i, j)
  }

  lemma KeptAreNeeded(block: Block)
    ensures KeepsTheNeeded(block, KeptBlock(block))
  {
    hide Needed, KeptBlock;
    forall i: nat, j: nat | i < |block| && j < |block[i].ops| ensures RightlyKept(block, KeptBlock(block), i, j) {
      KeptIffNeeded(block, i, j);
    }
  }

  lemma {:induction false} KeptAt(block: Block, i: nat)
    requires i < |block|
    ensures KeptBlock(block)[i] == Kept(block[i].ops, block[i].context, LiveIn(block[i + 1..]))
  {
    hide Kept, LiveIn;
    if i > 0 {
      KeptAt(block[1..], i - 1);
      assert block[1..][i..] == block[i + 1..];
    }
  }

  lemma {:induction false} KeptHere(ops: seq<Op>, context: Context, liveOut: Mask, j: nat)
    requires j < |ops|
    ensures Kept(ops, context, liveOut)[j] == Keeps(ops[j], LiveFlags(ops[j + 1..], context, liveOut))
  {
    hide Keeps, LiveFlags;
    if j > 0 {
      KeptHere(ops[1..], context, liveOut, j - 1);
      assert ops[1..][j..] == ops[j + 1..];
    }
  }

  // ---------- nothing superfluous is left ----------

  lemma {:induction false} PrunedLives(ops: seq<Op>, context: Context, liveOut: Mask)
    ensures LiveFlags(Filter(ops, Kept(ops, context, liveOut)), context, liveOut) == LiveFlags(ops, context, liveOut)
    decreases ops
  {
    hide Keeps;
    if ops != [] {
      PrunedLives(ops[1..], context, liveOut);
      var kept, live := Kept(ops, context, liveOut), LiveFlags(ops[1..], context, liveOut);
      var rest := Filter(ops[1..], kept[1..]);
      assert ([ops[0]] + rest)[1..] == rest && [] + rest == rest;
      if !kept[0] { DeadChangesNothing(ops[0], context, live); }
    }
  }

  lemma DeadChangesNothing(op: Op, context: Context, live: Mask)
    requires !Keeps(op, live)
    ensures LiveBefore(op, context, live) == live
  {
  }

  lemma {:induction false} FilteredIsKept(ops: seq<Op>, context: Context, liveOut: Mask, j: nat)
    requires j < |Filter(ops, Kept(ops, context, liveOut))|
    ensures
      var left := Filter(ops, Kept(ops, context, liveOut));
      Keeps(left[j], LiveFlags(left[j + 1..], context, liveOut))
    decreases ops
  {
    hide Keeps, LiveFlags;
    var left, kept := Filter(ops, Kept(ops, context, liveOut)), Kept(ops, context, liveOut);
    var rest := Filter(ops[1..], kept[1..]);
    if !kept[0] {
      assert left == rest;
      FilteredIsKept(ops[1..], context, liveOut, j);
    } else {
      assert left[1..] == rest;
      if j > 0 {
        FilteredIsKept(ops[1..], context, liveOut, j - 1);
        assert left[j + 1..] == rest[j..];
      } else {
        PrunedLives(ops[1..], context, liveOut);
      }
    }
  }

  lemma {:induction false} PrunedLiveIn(block: Block)
    ensures LiveIn(PrunedBlock(block)) == LiveIn(block)
    decreases |block|
  {
    hide LiveFlags, Filter, Kept, AnyFault;
    if block != [] {
      PrunedLiveIn(block[1..]);
      var first, live := block[0], LiveIn(block[1..]);
      assert PrunedBlock(block)[1..] == PrunedBlock(block[1..]);
      PrunedLives(first.ops, first.context, live);
      SameFaults(first.ops, first.context, Kept(first.ops, first.context, live), live);
    }
  }

  lemma {:induction false} SameFaults(ops: seq<Op>, context: Context, kept: seq<bool>, liveOut: Mask)
    requires kept == Kept(ops, context, liveOut)
    ensures AnyFault(Filter(ops, kept), context) == AnyFault(ops, context)
    decreases ops
  {
    hide Keeps, AnyFault, LiveFlags;
    if ops != [] {
      SameFaults(ops[1..], context, kept[1..], liveOut);
      FaultsRemain(ops, context);
      var rest := Filter(ops[1..], kept[1..]);
      if kept[0] {
        assert ([ops[0]] + rest)[1..] == rest;
        FaultsRemain([ops[0]] + rest, context);
      } else {
        KeepsOthers(ops[0], LiveFlags(ops[1..], context, liveOut));
        assert [] + rest == rest;
      }
    }
  }

  lemma {:induction false} PrunedAt(block: Block, i: nat)
    requires i < |block|
    ensures |PrunedBlock(block)| == |block|
    ensures PrunedBlock(block)[i] == PrunedInstruction(block[i], LiveIn(block[i + 1..]))
    ensures PrunedBlock(block)[i + 1..] == PrunedBlock(block[i + 1..])
    decreases |block|
  {
    hide PrunedInstruction, LiveIn;
    PrunedSize(block);
    if i > 0 {
      PrunedAt(block[1..], i - 1);
      assert PrunedBlock(block)[1..] == PrunedBlock(block[1..]);
      assert block[1..][i..] == block[i + 1..];
      assert PrunedBlock(block)[1..][i..] == PrunedBlock(block)[i + 1..];
    }
  }

  lemma {:induction false} PrunedSize(block: Block)
    ensures |PrunedBlock(block)| == |block|
    decreases |block|
  {
    hide PrunedInstruction, LiveIn;
    if block != [] { PrunedSize(block[1..]); }
  }

  /** Every flag set in the result is needed by the result: one of its flags is seen before another one writes it. */
  lemma PrunedSetsAreNeeded(block: Block)
    ensures AllNeeded(PrunedBlock(block))
  {
    hide Needed, PrunedInstruction, LiveIn, LiveFlags, Kept, Filter, Keeps;
    var pruned := PrunedBlock(block);
    PrunedSize(block);
    forall i: nat, j: nat | i < |pruned| && j < |pruned[i].ops| && pruned[i].ops[j].FlagsSet? ensures Needed(pruned, i, j) {
      PrunedAt(block, i);
      PrunedLiveIn(block[i + 1..]);
      StillKept(block[i], LiveIn(block[i + 1..]), j);
      KeptAt(pruned, i);
      KeptHere(pruned[i].ops, pruned[i].context, LiveIn(pruned[i + 1..]), j);
      KeptIffNeeded(pruned, i, j);
    }
  }

  lemma StillKept(instruction: Instruction, liveOut: Mask, j: nat)
    requires j < |PrunedInstruction(instruction, liveOut).ops|
    ensures
      var ops := PrunedInstruction(instruction, liveOut).ops;
      && PrunedInstruction(instruction, liveOut).context == instruction.context
      && Keeps(ops[j], LiveFlags(ops[j + 1..], instruction.context, liveOut))
  {
    hide Keeps, LiveFlags, Kept, Filter;
    FilteredIsKept(instruction.ops, instruction.context, liveOut, j);
  }
}
