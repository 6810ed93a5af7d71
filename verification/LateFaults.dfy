/**
 Why a fault must see what the instruction's entry left. A memory access after a held-back register write computes
 its address from the registers really written; and a write-back in the middle of an instruction is exposed by a
 later fault of the same instruction.
 */
module LateFaults {
  import opened X86Types
  import opened Ir
  import opened RegisterValues
  import opened RegisterPropagation
  import opened PropagationSafety
  import PropagationProof
  import PropagationTheorem
  import StaleReuse
  import StaleValue

  // ---------- the two instructions ----------

  function Copied(target: Reg, source: Reg): Values {
    map[target := RegTree(source)]
  }

  function SourceRead(source: Reg): Tracker {
    [Entry(0, RegTree(source), false)]
  }

  /** Copy one register to another, and read memory through the copy. */
  function ReadThrough(target: Reg, source: Reg): Instruction {
    Instruction(Context([MemBinding(MemOperand(Some(target), None, 1, 0))], 0, true),
                [Get(0, RegStorage(source), W32, false),
                 Set(RegStorage(target), Var(0), W32, false),
                 Get(1, Operand(0), W32, false),
                 Next])
  }

  /** Copy one register to another, have that written back by a conditional write, and then read memory. */
  function ReadAfter(target: Reg, source: Reg): Instruction {
    Instruction(Context([], 0, true),
                [Get(0, RegStorage(source), W32, false),
                 Set(RegStorage(target), Var(0), W32, false),
                 SetIf(Const(0), RegStorage(target), Var(0), W32),
                 Get(1, Mem(Const(0)), W32, false),
                 Next])
  }

  // ---------- their analysis ----------

  lemma {:induction false} ListedCopy(target: Reg, source: Reg, order: seq<Reg>)
    requires forall i, j | 0 <= i < j < |order| :: order[i] != order[j]
    ensures Listed(Copied(target, source), {target}, order) ==
            if target in order then [RegValue(target, RegTree(source))] else []
  {
    if order != [] {
      forall i, j | 0 <= i < j < |order[1..]| ensures order[1..][i] != order[1..][j] {
        assert order[i + 1] != order[j + 1];
      }
      assert order[0] !in order[1..];
      ListedCopy(target, source, order[1..]);
    }
  }

  lemma CopyWrittenBack(target: Reg, source: Reg)
    ensures Closure(Copied(target, source), {target}) == {target}
    ensures ListOf(Copied(target, source), {target}) == [RegValue(target, RegTree(source))]
    ensures Written(ListOf(Copied(target, source), {target})) == if target == source then {} else {target}
    ensures Copied(target, source) - {target} == map[]
  {
    assert Round(Copied(target, source), {target}) == {target};
    PropagationProof.EveryRegisterOrdered();
    ListedCopy(target, source, REG_ORDER);
  }

  lemma NothingWrittenBack(regs: set<Reg>)
    ensures ListOf(map[], regs) == [] && Written([]) == {} && Closure(map[], {}) == {}
  {
    PropagationProof.NothingListed(Closure(map[], regs), REG_ORDER);
    assert Round(map[], {}) == {};
  }

  lemma ReadSource(source: Reg, context: Context)
    ensures
      AnalyzeOp(Analysis(map[], [], true), Get(0, RegStorage(source), W32, false), context, false, false) ==
      (Just(Copy), Analysis(map[], SourceRead(source), true))
  {
    StaleValue.LookupOne(SourceRead(source)[0], 0);
    assert [] + SourceRead(source) == SourceRead(source);
    assert ValueForGet(Get(0, RegStorage(source), W32, false), context, map[]) == Known(RegTree(source), false);
  }

  lemma CopyHeldBack(target: Reg, source: Reg, context: Context)
    ensures
      var read := Analysis(map[], SourceRead(source), true);
      AnalyzeOp(read, Set(RegStorage(target), Var(0), W32, false), context, false, false) ==
      (Just(Drop), Analysis(Copied(target, source), SourceRead(source), true))
  {
    hide Dependents, ListOf;
    StaleValue.LookupOne(SourceRead(source)[0], 0);
    var start: Values := map[];
    assert start[target := RegTree(source)] == Copied(target, source);
  }

  // ---------- reading through a held-back register ----------

  /** The analysis of ReadThrough before operation number `k`. */
  function ThroughState(target: Reg, source: Reg, k: nat): Analysis {
    if k == 0 then Analysis(map[], [], true)
    else if k == 1 then Analysis(map[], SourceRead(source), true)
    else Analysis(Copied(target, source), SourceRead(source), true)
  }

  function ThroughDecisions(target: Reg, source: Reg): seq<Decision> {
    [Just(Copy), Just(Drop), Just(Copy), Decision([], Copy, [RegValue(target, RegTree(source))])]
  }

  lemma AccessCopied(op: Op, context: Context, values: Values, source: Reg)
    requires op.Get? && op.dst == 1 && RegisterOf(op.source, context).None? && CanFault(op, context.operands)
    ensures
      var held := Analysis(values, SourceRead(source), true);
      AnalyzeOp(held, op, context, true, false) == (Just(Copy), held)
  {
    StaleValue.LookupOne(SourceRead(source)[0], 1);
    PropagationProof.MemoryRecords(op, context, SourceRead(source), values);
  }

  lemma CopyLeaves(target: Reg, source: Reg, context: Context)
    requires context.exitMode
    ensures AnalyzeOp(Analysis(Copied(target, source), SourceRead(source), true), Next, context, false, false).0 ==
            Decision([], Copy, [RegValue(target, RegTree(source))])
  {
    hide ListOf, Closure, Written;
    CopyWrittenBack(target, source);
    assert Copied(target, source).Keys == {target};
  }

  lemma ThroughDecision(target: Reg, source: Reg, k: nat)
    requires k < 4
    ensures
      var instruction := ReadThrough(target, source);
      var here := DecisionFor(instruction.ops[k..], instruction.context, true, ThroughState(target, source, k));
      && here.0 == ThroughDecisions(target, source)[k]
      && (k < 3 ==> here.1 == ThroughState(target, source, k + 1))
  {
    hide AnalyzeOp;
    var instruction := ReadThrough(target, source);
    var ops, context := instruction.ops, instruction.context;
    assert ops[k..][0] == ops[k] && (k < 3 ==> ops[k..][1] == ops[k + 1]);
    ReadSource(source, context);
    CopyHeldBack(target, source, context);
    AccessCopied(ops[2], context, Copied(target, source), source);
    CopyLeaves(target, source, context);
  }

  lemma EnteredEmpty(instruction: Instruction)
    ensures Entered(instruction, map[]) == Analysis(map[], [], true) && EntryWriteBack(instruction, map[]) == []
  {
    StaleValue.NothingToFlush();
  }

  lemma ThroughAddress(target: Reg, source: Reg)
    ensures
      var instruction := ReadThrough(target, source);
      AddressUntracked(instruction.ops[2], instruction.context, ThroughState(target, source, 2).values) <==>
      target == source
  {
    var instruction := ReadThrough(target, source);
    assert AddressRegs(instruction.ops[2], instruction.context) == {target};
  }

  /** The last operation leaves, and no fault is left. */
  lemma LeavingSeesEntry(context: Context, analysis: Analysis, clean: bool)
    ensures FaultsSeeEntryFrom([Next], context, true, analysis, clean)
  {
    hide DecisionFor, WritesNothingBack;
    assert [Next][1..] == [];
  }

  /** The only access reads through the target, whose held-back value is the source's. */
  lemma {:induction false} ThroughSeesEntryFrom(target: Reg, source: Reg, k: nat)
    requires k < 4
    ensures
      var instruction := ReadThrough(target, source);
      FaultsSeeEntryFrom(instruction.ops[k..], instruction.context, true, ThroughState(target, source, k), true) <==>
      (k <= 2 ==> target == source)
    decreases 4 - k
  {
    hide DecisionFor, FaultsSeeEntryFrom, CarryOp, WritesNothingBack, ReusesNothingStaleFrom, AddressUntracked, ThroughState;
    var instruction := ReadThrough(target, source);
    var ops, context := instruction.ops, instruction.context;
    assert ops[k..][0] == ops[k];
    if k == 3 {
      assert ops[k..] == [Next];
      LeavingSeesEntry(context, ThroughState(target, source, 3), true);
    } else {
      assert ops[k..][1..] == ops[k + 1..];
      ThroughDecision(target, source, k);
      JustWritesNothingBack();
      StaleValue.WalkHead(ops[k..], context, true, ThroughState(target, source, k), map[], true);
      ThroughSeesEntryFrom(target, source, k + 1);
      ThroughAddress(target, source);
    }
  }

  lemma ThroughSeesEntryIffSame(target: Reg, source: Reg)
    ensures FaultsSeeEntry([ReadThrough(target, source)], map[]) <==> target == source
  {
    hide FaultsSeeEntryFrom, FaultsSeeEntry, Entered;
    var instruction := ReadThrough(target, source);
    EnteredEmpty(instruction);
    ThroughSeesEntryFrom(target, source, 0);
    OneInstruction(instruction);
    assert instruction.ops[0..] == instruction.ops;
  }

  lemma JustWritesNothingBack()
    ensures forall action: Action :: WritesNothingBack(Just(action).before)
  {
  }

  lemma OneInstruction(instruction: Instruction)
    ensures FaultsSeeEntry([instruction], map[]) <==>
            FaultsSeeEntryFrom(instruction.ops, instruction.context, true, Entered(instruction, map[]), true)
    ensures EntryWriteBack(instruction, map[]) == [] ==>
              (ReusesNothingStale([instruction], map[]) <==>
               ReusesNothingStaleFrom(instruction.ops, instruction.context, true, Entered(instruction, map[]), map[]))
  {
    hide FaultsSeeEntryFrom, ReusesNothingStaleFrom, Entered, EntryWriteBack, ValuesAfter, WriteBack;
    StaleReuse.WriteBackNothing(map[]);
    assert [instruction][1..] == [];
  }

  function HeldRead(source: Reg, k: nat): Held {
    if k == 0 then map[] else map[RegTree(source) := false]
  }

  lemma CarryRead(source: Reg, context: Context)
    ensures CarryOp(map[], Just(Copy), Get(0, RegStorage(source), W32, false), context, Analysis(map[], [], true)) ==
            Walk(HeldRead(source, 1), true)
  {
    StaleReuse.WriteBackNothing(map[]);
    StaleReuse.WriteBackNothing(HeldRead(source, 1));
  }

  lemma CarryDrop(target: Reg, source: Reg, context: Context)
    ensures CarryOp(HeldRead(source, 1), Just(Drop), Set(RegStorage(target), Var(0), W32, false), context,
                    Analysis(map[], SourceRead(source), true)) == Walk(HeldRead(source, 1), true)
  {
    StaleReuse.WriteBackNothing(HeldRead(source, 1));
    StaleValue.LookupOne(SourceRead(source)[0], 0);
  }

  lemma CarryAccess(held: Held, op: Op, context: Context, analysis: Analysis)
    requires op.Get? && RegisterOf(op.source, context).None? && CanFault(op, context.operands)
    ensures CarryOp(held, Just(Copy), op, context, analysis) == Walk(held, true)
  {
    StaleReuse.WriteBackNothing(held);
    PropagationProof.WritesNothing(op, context);
  }

  lemma CarryLeave(held: Held, target: Reg, source: Reg, context: Context, analysis: Analysis)
    requires RegTree(source) in held && !held[RegTree(source)]
    ensures CarryOp(held, Decision([], Copy, [RegValue(target, RegTree(source))]), Next, context, analysis).ok
  {
    StaleReuse.WriteBackNothing(held);
    var list := [RegValue(target, RegTree(source))];
    assert list[1..] == [];
    assert NeedAll(held, list).ok;
  }

  lemma {:induction false} ThroughReusesNothing(target: Reg, source: Reg, k: nat)
    requires k < 4
    ensures
      var instruction := ReadThrough(target, source);
      ReusesNothingStaleFrom(instruction.ops[k..], instruction.context, true, ThroughState(target, source, k), HeldRead(source, k))
    decreases 4 - k
  {
    hide DecisionFor, FaultsSeeEntryFrom, CarryOp, WritesNothingBack;
    var instruction := ReadThrough(target, source);
    var ops, context := instruction.ops, instruction.context;
    assert ops[k..][0] == ops[k] && ops[k..][1..] == ops[k + 1..];
    ThroughDecision(target, source, k);
    CarryRead(source, context);
    CarryDrop(target, source, context);
    CarryAccess(HeldRead(source, 1), ops[2], context, ThroughState(target, source, 2));
    CarryLeave(HeldRead(source, 1), target, source, context, ThroughState(target, source, 3));
    if k < 3 { ThroughReusesNothing(target, source, k + 1); }
  }

  lemma ThroughScoped(target: Reg, source: Reg)
    ensures AssignsOnce(ReadThrough(target, source).ops, {}) && DefinesBeforeUse(ReadThrough(target, source).ops, {})
  {
    var ops := ReadThrough(target, source).ops;
    assert ops[1..][1..] == ops[2..] && ops[2..][1..] == ops[3..] && ops[3..][1..] == [];
    assert {0} + {1} == {0, 1} && {} + {0} == {0};
    assert AssignsOnce(ops[3..], {0, 1}) && DefinesBeforeUse(ops[3..], {0, 1});
    assert AssignsOnce(ops[2..], {0}) && DefinesBeforeUse(ops[2..], {0});
    assert AssignsOnce(ops[1..], {0}) && DefinesBeforeUse(ops[1..], {0});
  }

  lemma ThroughIsPropagatable(target: Reg, source: Reg)
    ensures PropagationProof.Propagatable(ReadThrough(target, source))
  {
    hide AssignsOnce, DefinesBeforeUse;
    ThroughScoped(target, source);
    var ops := ReadThrough(target, source).ops;
    assert forall j | 0 <= j < 3 :: !IsTerminator(ops[j]);
  }

  // ---------- what becomes of it ----------

  /** The rewritten code, when the registers differ: the copy is written after the access. */
  function ThroughCode(target: Reg, source: Reg): seq<Op> {
    var ops := ReadThrough(target, source).ops;
    [ops[0], ops[2], Set(RegStorage(target), Var(0), W32, true), Next]
  }

  lemma EmitRead(source: Reg, next: VarId, context: Context)
    ensures EmitOp(Rewrite([], next, true), Just(Copy), Get(0, RegStorage(source), W32, false), context) ==
            ([Get(0, RegStorage(source), W32, false)], Rewrite(SourceRead(source), next, true))
  {
    StaleValue.EmitCopy(Rewrite([], next, true), Get(0, RegStorage(source), W32, false), context);
    StaleValue.LookupOne(SourceRead(source)[0], 0);
    assert [] + SourceRead(source) == SourceRead(source);
  }

  lemma EmitAccess(rewrite: Rewrite, op: Op, context: Context)
    requires op.Get? && RegisterOf(op.source, context).None? && CanFault(op, context.operands)
    requires StaleReuse.Absent(rewrite.tracker, op.dst)
    ensures EmitOp(rewrite, Just(Copy), op, context) == ([op], rewrite)
  {
    StaleValue.EmitCopy(rewrite, op, context);
    PropagationProof.MemoryRecords(op, context, rewrite.tracker, map[]);
    StaleReuse.ForgetAbsent(rewrite.tracker, op.dst);
  }

  lemma EmitDropped(rewrite: Rewrite, op: Op, context: Context)
    ensures EmitOp(rewrite, Just(Drop), op, context) == ([], rewrite)
  {
    PropagationProof.JustEmits(rewrite, Drop, op, context);
  }

  /** Writing the copy back takes the source's value from the variable that read it. */
  lemma EmitCopyBack(target: Reg, source: Reg, next: VarId)
    requires target != source
    ensures
      var rewrite := Rewrite(SourceRead(source), next, true);
      EmitMaterialization(rewrite, [RegValue(target, RegTree(source))]) ==
      ([Set(RegStorage(target), Var(0), W32, true)], rewrite)
  {
    var rewrite := Rewrite(SourceRead(source), next, true);
    var list := [RegValue(target, RegTree(source))];
    assert list[1..] == [];
    assert EmitRef(rewrite, RegTree(source)) == Emission([], Var(0), rewrite);
    var set0 := [Set(RegStorage(target), Var(0), W32, true)];
    assert EmitRefs(rewrite, list) == ([], set0, rewrite) by {
      assert set0 + [] == set0 && [] + EmitRefs(rewrite, []).0 == [];
    }
    assert [] + set0 == set0;
    assert Written(list) == {target};
    assert MarkStale(SourceRead(source), {target}) == SourceRead(source);
  }

  lemma EmitLeave(target: Reg, source: Reg, next: VarId, context: Context)
    requires target != source
    ensures EmitOp(Rewrite(SourceRead(source), next, true), Decision([], Copy, [RegValue(target, RegTree(source))]), Next, context).0 ==
            [Set(RegStorage(target), Var(0), W32, true), Next]
  {
    hide EmitMaterialization;
    var rewrite := Rewrite(SourceRead(source), next, true);
    PropagationProof.TerminatorEmits(rewrite, [RegValue(target, RegTree(source))], Next, context);
    EmitCopyBack(target, source, next);
    assert [Set(RegStorage(target), Var(0), W32, true)] + [Next] == [Set(RegStorage(target), Var(0), W32, true), Next];
  }

  /** The decisions from some operation on, given the first of them. */
  lemma AnalyzeOne(ops: seq<Op>, context: Context, analysis: Analysis)
    requires ops != []
    ensures
      var here := DecisionFor(ops, context, true, analysis);
      AnalyzeOps(ops, context, true, analysis).0 == [here.0] + AnalyzeOps(ops[1..], context, true, here.1).0
  {
    hide AnalyzeOp;
  }

  lemma {:induction false} AnalyzeThrough(target: Reg, source: Reg, k: nat)
    requires k < 4
    ensures
      var instruction := ReadThrough(target, source);
      AnalyzeOps(instruction.ops[k..], instruction.context, true, ThroughState(target, source, k)).0 ==
      ThroughDecisions(target, source)[k..]
    decreases 4 - k
  {
    hide DecisionFor, ThroughState;
    var instruction := ReadThrough(target, source);
    var ops, context, d := instruction.ops, instruction.context, ThroughDecisions(target, source);
    assert ops[k..][1..] == ops[k + 1..] && d[k..] == [d[k]] + d[k + 1..];
    ThroughDecision(target, source, k);
    AnalyzeOne(ops[k..], context, ThroughState(target, source, k));
    if k < 3 { AnalyzeThrough(target, source, k + 1); } else { assert ops[4..] == [] && d[4..] == []; }
  }

  lemma EmitThrough(target: Reg, source: Reg, next: VarId)
    requires target != source
    ensures
      var instruction := ReadThrough(target, source);
      EmitOps(Rewrite([], next, true), ThroughDecisions(target, source), instruction.ops, instruction.context).0 ==
      ThroughCode(target, source)
  {
    hide EmitOp, EmitOps;
    var instruction := ReadThrough(target, source);
    var ops, context, d := instruction.ops, instruction.context, ThroughDecisions(target, source);
    var start, read := Rewrite([], next, true), Rewrite(SourceRead(source), next, true);
    assert ops[1..][1..] == ops[2..] && ops[2..][1..] == ops[3..] && ops[3..][1..] == [];
    assert d[1..][1..] == d[2..] && d[2..][1..] == d[3..] && d[3..][1..] == [];
    EmitRead(source, next, context);
    EmitDropped(read, ops[1], context);
    EmitAccess(read, ops[2], context);
    EmitLeave(target, source, next, context);
    var end := EmitOp(read, d[3], Next, context);
    StaleValue.EmitHead(read, d[3..], ops[3..], context);
    EmitNothingMore(end.1, context);
    assert end.0 + [] == end.0;
    StaleValue.EmitRest(read, read, d[2..], ops[2..], context, [ops[2]], end.0, end.1);
    StaleValue.EmitRest(read, read, d[1..], ops[1..], context, [], [ops[2]] + end.0, end.1);
    StaleValue.EmitRest(start, read, d, ops, context, [ops[0]], [] + ([ops[2]] + end.0), end.1);
    assert [ops[0]] + ([] + ([ops[2]] + end.0)) == ThroughCode(target, source);
  }

  lemma EmitNothingMore(rewrite: Rewrite, context: Context)
    ensures EmitOps(rewrite, [], [], context) == ([], rewrite)
  {
  }

  lemma PropagatesThrough(target: Reg, source: Reg)
    requires target != source
    ensures
      var instruction := ReadThrough(target, source);
      PropagateBlock([instruction], map[]).0 == [instruction.(ops := ThroughCode(target, source))]
  {
    hide EmitOps, AnalyzeOps, Entered, EntryWriteBack, EmitMaterialization, ThroughCode;
    var instruction := ReadThrough(target, source);
    EnteredEmpty(instruction);
    AnalyzeThrough(target, source, 0);
    assert instruction.ops[0..] == instruction.ops;
    assert ThroughDecisions(target, source)[0..] == ThroughDecisions(target, source);
    var next := NextVarId(instruction.ops);
    EmitThrough(target, source, next);
    StaleValue.EmitsNothing(Rewrite([], next, true));
    assert [] + ThroughCode(target, source) == ThroughCode(target, source);
    OnePropagated(instruction);
  }

  lemma OnePropagated(instruction: Instruction)
    ensures PropagateBlock([instruction], map[]).0 == [PropagateInstruction(instruction, true, map[]).instruction]
  {
    hide PropagateInstruction;
    var block := [instruction];
    assert block[1..] == [];
    var here := PropagateInstruction(instruction, true, map[]);
    assert [here.instruction] + [] == [here.instruction];
  }

  // ---------- the two runs ----------

  /** All registers zero but one, and four bytes of memory. */
  function OneSet(source: Reg, value: Word, memory: seq<Byte>): Machine {
    Machine(ZeroRegs()[source := value], ZeroRegs()[source := value], {}, {}, memory, map[], [])
  }

  lemma RunsAlone(instruction: Instruction, m: Machine)
    ensures
      var outcome := RunOps(instruction.ops, instruction.context, Begin(m));
      !outcome.Completed? ==> RunBlock([instruction], m) == outcome
  {
    hide RunOps;
  }

  lemma ReadStep(source: Reg, context: Context, m: Machine)
    ensures Step(Get(0, RegStorage(source), W32, false), context, m) == Running(m.(vars := m.vars[0 := m.regs[source]]))
  {
  }

  lemma CopyStep(target: Reg, role: bool, context: Context, m: Machine)
    requires 0 in m.vars
    ensures
      Step(Set(RegStorage(target), Var(0), W32, role), context, m) ==
      Running(m.(regs := m.regs[target := m.vars[0]],
              committed := if role then m.committed[target := m.vars[0]] else m.committed))
  {
  }

  /** Originally the access goes to the copied address, which is out of bounds. */
  lemma ThroughOriginally(target: Reg, source: Reg)
    ensures RunBlock([ReadThrough(target, source)], OneSet(source, 0xFFFF_FFFF, [0, 0, 0, 0])).Fault?
  {
    hide Step, RunOps;
    var instruction, m := ReadThrough(target, source), Begin(OneSet(source, 0xFFFF_FFFF, [0, 0, 0, 0]));
    var ops, context := instruction.ops, instruction.context;
    ReadStep(source, context, m);
    var m1 := m.(vars := m.vars[0 := m.regs[source]]);
    CopyStep(target, false, context, m1);
    var m2 := m1.(regs := m1.regs[target := m1.vars[0]]);
    StaleValue.RunHead(ops, context, m, m1);
    StaleValue.RunHead(ops[1..], context, m1, m2);
    assert ops[1..][1..] == ops[2..] && ops[2..][0] == ops[2];
    ThroughFaults(target, source, m2);
    FaultEnds(ops[2..], context, m2);
    RunsAlone(instruction, OneSet(source, 0xFFFF_FFFF, [0, 0, 0, 0]));
  }

  lemma ThroughFaults(target: Reg, source: Reg, m: Machine)
    requires m.regs[target] == 0xFFFF_FFFF && |m.memory| == 4
    ensures
      var instruction := ReadThrough(target, source);
      Step(instruction.ops[2], instruction.context, m) == FaultAt(m, ReadAccess(0xFFFF_FFFF, W32))
  {
  }

  lemma FaultEnds(ops: seq<Op>, context: Context, m: Machine)
    requires ops != [] && Step(ops[0], context, m).Fault?
    ensures RunOps(ops, context, m) == Step(ops[0], context, m)
  {
    hide Step;
  }

  /** After propagation it goes to the address the target register held before. */
  lemma ThroughPropagated(target: Reg, source: Reg)
    requires target != source
    ensures RunBlock(PropagateBlock([ReadThrough(target, source)], map[]).0, OneSet(source, 0xFFFF_FFFF, [0, 0, 0, 0])).Exit?
  {
    hide Step, RunOps, PropagateBlock;
    PropagatesThrough(target, source);
    var instruction, start := ReadThrough(target, source), OneSet(source, 0xFFFF_FFFF, [0, 0, 0, 0]);
    var ops, context, m := ThroughCode(target, source), instruction.context, Begin(start);
    ReadStep(source, context, m);
    var m1 := m.(vars := m.vars[0 := m.regs[source]]);
    ThroughReads(target, source, m1);
    var m2 := Step(ops[1], context, m1).m;
    CopyStep(target, true, context, m2);
    var m3 := Step(ops[2], context, m2).m;
    StaleValue.RunHead(ops, context, m, m1);
    StaleValue.RunHead(ops[1..], context, m1, m2);
    StaleValue.RunHead(ops[2..], context, m2, m3);
    assert ops[1..][1..] == ops[2..] && ops[2..][1..] == [Next];
    LeaveRuns(context, m3);
    RunsAlone(instruction.(ops := ops), start);
  }

  lemma ThroughReads(target: Reg, source: Reg, m: Machine)
    requires m.regs[target] == 0 && |m.memory| == 4 && 0 in m.vars
    ensures
      var instruction := ReadThrough(target, source);
      var step := Step(instruction.ops[2], instruction.context, m);
      step.Running? && 0 in step.m.vars
  {
    hide ReadMemory;
  }

  lemma LeaveRuns(context: Context, m: Machine)
    requires context.exitMode
    ensures RunOps([Next], context, m).Exit?
  {
  }

  /**
   Copying a register and reading memory through the copy survives propagation on every machine exactly when the two
   registers are the same, which is exactly when the walk over the faults accepts it.
   */
  lemma ReadingThroughIsPreservedIffAccepted(target: Reg, source: Reg)
    ensures PropagationTheorem.AlwaysPreserved([ReadThrough(target, source)]) <==>
            FaultsSeeEntry([ReadThrough(target, source)], map[])
    ensures FaultsSeeEntry([ReadThrough(target, source)], map[]) <==> target == source
  {
    hide RunBlock, PropagateBlock, FaultsSeeEntry, ReadThrough, ReusesNothingStale, ReusesNothingStaleFrom,
      PropagationTheorem.AlwaysPreserved, PropagationProof.Propagatable;
    var instruction := ReadThrough(target, source);
    ThroughSeesEntryIffSame(target, source);
    if target == source {
      ThroughIsPropagatable(target, source);
      EnteredEmpty(instruction);
      OneInstruction(instruction);
      ThroughReusesNothing(target, source, 0);
      WholeThrough(target, source);
      AcceptedIsPreserved(instruction);
    } else {
      ThroughOriginally(target, source);
      ThroughPropagated(target, source);
      NotPreserved([instruction], OneSet(source, 0xFFFF_FFFF, [0, 0, 0, 0]));
    }
  }

  lemma WholeThrough(target: Reg, source: Reg)
    ensures ReadThrough(target, source).ops[0..] == ReadThrough(target, source).ops
    ensures Analysis(map[], [], true) == ThroughState(target, source, 0) && HeldRead(source, 0) == map[]
  {
  }

  // ---------- reading after a write-back ----------

  function WrittenCopy(target: Reg, source: Reg): Tracker {
    [Entry(0, RegTree(source), target == source)]
  }

  /** The analysis of ReadAfter before operation number `k`. */
  function AfterState(target: Reg, source: Reg, k: nat): Analysis {
    if k <= 2 then ThroughState(target, source, k) else Analysis(map[], WrittenCopy(target, source), true)
  }

  function AfterDecisions(target: Reg, source: Reg): seq<Decision> {
    [Just(Copy), Just(Drop), Decision([[RegValue(target, RegTree(source))], []], Copy, []), Just(Copy), Decision([], Copy, [])]
  }

  /** The conditional write has the copy written back first. */
  lemma ConditionalWriteBack(target: Reg, source: Reg, context: Context)
    ensures
      var op := SetIf(Const(0), RegStorage(target), Var(0), W32);
      AnalyzeOp(AfterState(target, source, 2), op, context, false, false) ==
      (AfterDecisions(target, source)[2], AfterState(target, source, 3))
  {
    hide ListOf, Closure, Written;
    CopyWrittenBack(target, source);
    NothingWrittenBack({});
    var nothing: Values := map[];
    assert Dependents(nothing, target) == {};
    assert nothing - {} == nothing && nothing - {target} == nothing;
    var written := if target == source then {} else {target};
    assert MarkStale(MarkStale(MarkStale(SourceRead(source), written), {}), {target}) == WrittenCopy(target, source);
  }

  lemma SecondAccessCopied(target: Reg, source: Reg, op: Op, context: Context)
    requires op.Get? && op.dst == 1 && RegisterOf(op.source, context).None? && CanFault(op, context.operands)
    ensures AnalyzeOp(AfterState(target, source, 3), op, context, true, false) == (Just(Copy), AfterState(target, source, 3))
  {
    StaleValue.LookupOne(WrittenCopy(target, source)[0], 1);
    PropagationProof.MemoryRecords(op, context, WrittenCopy(target, source), map[]);
  }

  lemma NothingLeaves(target: Reg, source: Reg, context: Context)
    requires context.exitMode
    ensures AnalyzeOp(AfterState(target, source, 4), Next, context, false, false).0 == Decision([], Copy, [])
  {
    NothingWrittenBack({});
    var nothing: Values := map[];
    assert nothing.Keys == {};
  }

  lemma AfterDecision(target: Reg, source: Reg, k: nat)
    requires k < 5
    ensures
      var instruction := ReadAfter(target, source);
      var here := DecisionFor(instruction.ops[k..], instruction.context, true, AfterState(target, source, k));
      here.0 == AfterDecisions(target, source)[k] && (k < 4 ==> here.1 == AfterState(target, source, k + 1))
  {
    hide AnalyzeOp;
    var instruction := ReadAfter(target, source);
    var ops, context := instruction.ops, instruction.context;
    assert ops[k..][0] == ops[k] && (k < 4 ==> ops[k..][1] == ops[k + 1]);
    ReadSource(source, context);
    CopyHeldBack(target, source, context);
    ConditionalWriteBack(target, source, context);
    SecondAccessCopied(target, source, ops[3], context);
    NothingLeaves(target, source, context);
  }

  /** The access finds the copy written back, unless the copy writes nothing. */
  lemma {:induction false} AfterSeesEntryFrom(target: Reg, source: Reg, k: nat)
    requires k < 5
    ensures
      var instruction := ReadAfter(target, source);
      var clean := k <= 2 || target == source;
      FaultsSeeEntryFrom(instruction.ops[k..], instruction.context, true, AfterState(target, source, k), clean) <==>
      (k <= 3 ==> target == source)
    decreases 5 - k
  {
    hide DecisionFor, FaultsSeeEntryFrom, CarryOp, ReusesNothingStaleFrom, AddressUntracked, AfterState;
    var instruction := ReadAfter(target, source);
    var ops, context, clean := instruction.ops, instruction.context, k <= 2 || target == source;
    assert ops[k..][0] == ops[k];
    if k == 4 {
      assert ops[k..] == [Next];
      LeavingSeesEntry(context, AfterState(target, source, 4), clean);
    } else {
      assert ops[k..][1..] == ops[k + 1..];
      AfterDecision(target, source, k);
      StaleValue.WalkHead(ops[k..], context, true, AfterState(target, source, k), map[], clean);
      AfterSeesEntryFrom(target, source, k + 1);
      CleanIffSame(target, source);
      NoAddressRegs(ops[3], context, AfterState(target, source, 3).values);
    }
  }

  lemma CleanIffSame(target: Reg, source: Reg)
    ensures
      var d := AfterDecisions(target, source);
      && WritesNothingBack(d[0].before) && WritesNothingBack(d[1].before) && WritesNothingBack(d[3].before)
      && (WritesNothingBack(d[2].before) <==> target == source)
  {
    var list := [RegValue(target, RegTree(source))];
    assert list in AfterDecisions(target, source)[2].before;
    assert Written(list) == if target == source then {} else {target};
    assert Written([]) == {};
  }

  lemma NoAddressRegs(op: Op, context: Context, values: Values)
    requires op.Get? && op.source.Mem?
    ensures AddressUntracked(op, context, values)
  {
  }

  lemma AfterSeesEntryIffSame(target: Reg, source: Reg)
    ensures FaultsSeeEntry([ReadAfter(target, source)], map[]) <==> target == source
  {
    hide FaultsSeeEntryFrom, FaultsSeeEntry, Entered;
    var instruction := ReadAfter(target, source);
    EnteredEmpty(instruction);
    AfterSeesEntryFrom(target, source, 0);
    OneInstruction(instruction);
    assert instruction.ops[0..] == instruction.ops;
  }

  function HeldAfter(source: Reg, k: nat): Held {
    if k <= 2 then HeldRead(source, k) else map[RegTree(source) := true]
  }

  lemma CarryConditional(reg: Reg, context: Context)
    ensures CarryOp(HeldRead(reg, 1), AfterDecisions(reg, reg)[2], SetIf(Const(0), RegStorage(reg), Var(0), W32), context,
                    AfterState(reg, reg, 2)) == Walk(HeldAfter(reg, 3), true)
  {
    var held, list := HeldRead(reg, 1), [RegValue(reg, RegTree(reg))];
    StaleReuse.WriteBackTwo(held, list, []);
    StaleReuse.WriteBackNothing(held);
    assert list[1..] == [] && NeedAll(held, list) == Walk(held, true) && Written(list) == {};
    assert WriteBack(held, list) == Walk(held, true);
    assert AfterWriting(held, {reg}) == HeldAfter(reg, 3);
  }

  lemma CarryEnd(held: Held, context: Context, analysis: Analysis)
    ensures CarryOp(held, Decision([], Copy, []), Next, context, analysis) == Walk(held, true)
  {
    StaleReuse.WriteBackNothing(held);
  }

  lemma {:induction false} AfterReusesNothing(reg: Reg, k: nat)
    requires k < 5
    ensures
      var instruction := ReadAfter(reg, reg);
      ReusesNothingStaleFrom(instruction.ops[k..], instruction.context, true, AfterState(reg, reg, k), HeldAfter(reg, k))
    decreases 5 - k
  {
    hide DecisionFor, FaultsSeeEntryFrom, CarryOp, WritesNothingBack;
    var instruction := ReadAfter(reg, reg);
    var ops, context := instruction.ops, instruction.context;
    assert ops[k..][0] == ops[k] && ops[k..][1..] == ops[k + 1..];
    AfterDecision(reg, reg, k);
    CarryRead(reg, context);
    CarryDrop(reg, reg, context);
    CarryConditional(reg, context);
    CarryAccess(HeldAfter(reg, 3), ops[3], context, AfterState(reg, reg, 3));
    CarryEnd(HeldAfter(reg, 3), context, AfterState(reg, reg, 4));
    if k < 4 { AfterReusesNothing(reg, k + 1); }
  }

  lemma AfterScoped(target: Reg, source: Reg)
    ensures AssignsOnce(ReadAfter(target, source).ops, {}) && DefinesBeforeUse(ReadAfter(target, source).ops, {})
  {
    var ops := ReadAfter(target, source).ops;
    assert ops[1..][1..] == ops[2..] && ops[2..][1..] == ops[3..] && ops[3..][1..] == ops[4..] && ops[4..][1..] == [];
    assert {0} + {1} == {0, 1} && {} + {0} == {0};
    assert AssignsOnce(ops[4..], {0, 1}) && DefinesBeforeUse(ops[4..], {0, 1});
    assert AssignsOnce(ops[3..], {0}) && DefinesBeforeUse(ops[3..], {0});
    assert AssignsOnce(ops[2..], {0}) && DefinesBeforeUse(ops[2..], {0});
    assert AssignsOnce(ops[1..], {0}) && DefinesBeforeUse(ops[1..], {0});
  }

  lemma AfterIsPropagatable(target: Reg, source: Reg)
    ensures PropagationProof.Propagatable(ReadAfter(target, source))
  {
    hide AssignsOnce, DefinesBeforeUse;
    AfterScoped(target, source);
    var ops := ReadAfter(target, source).ops;
    assert forall op <- ops :: op == ops[0] || op == ops[1] || op == ops[2] || op == ops[3] || op == ops[4];
    assert forall j | 0 <= j < 4 :: !IsTerminator(ops[j]);
  }

  // ---------- what becomes of it ----------

  function AfterCode(target: Reg, source: Reg): seq<Op> {
    var ops := ReadAfter(target, source).ops;
    [ops[0], Set(RegStorage(target), Var(0), W32, true), ops[2], ops[3], Next]
  }

  lemma {:induction false} AnalyzeAfter(target: Reg, source: Reg, k: nat)
    requires k < 5
    ensures
      var instruction := ReadAfter(target, source);
      AnalyzeOps(instruction.ops[k..], instruction.context, true, AfterState(target, source, k)).0 ==
      AfterDecisions(target, source)[k..]
    decreases 5 - k
  {
    hide DecisionFor, AfterState;
    var instruction := ReadAfter(target, source);
    var ops, context, d := instruction.ops, instruction.context, AfterDecisions(target, source);
    assert ops[k..][1..] == ops[k + 1..] && d[k..] == [d[k]] + d[k + 1..];
    AfterDecision(target, source, k);
    AnalyzeOne(ops[k..], context, AfterState(target, source, k));
    if k < 4 { AnalyzeAfter(target, source, k + 1); } else { assert ops[5..] == [] && d[5..] == []; }
  }

  lemma EmitConditional(target: Reg, source: Reg, next: VarId, context: Context)
    requires target != source
    ensures
      var rewrite, op := Rewrite(SourceRead(source), next, true), SetIf(Const(0), RegStorage(target), Var(0), W32);
      EmitOp(rewrite, AfterDecisions(target, source)[2], op, context) ==
      ([Set(RegStorage(target), Var(0), W32, true), op], rewrite)
  {
    hide EmitMaterialization;
    var rewrite, op := Rewrite(SourceRead(source), next, true), SetIf(Const(0), RegStorage(target), Var(0), W32);
    PropagationProof.TwoListsEmit(rewrite, [RegValue(target, RegTree(source))], [], op, context);
    EmitCopyBack(target, source, next);
    StaleValue.EmitsNothing(rewrite);
    var set0 := [Set(RegStorage(target), Var(0), W32, true)];
    assert set0 + [] + [op] == [Set(RegStorage(target), Var(0), W32, true), op];
    PropagationProof.CopyWriteEmits(op, target, context, rewrite);
    assert MarkStale(SourceRead(source), {target}) == SourceRead(source);
  }

  lemma EmitAfter(target: Reg, source: Reg, next: VarId)
    requires target != source
    ensures
      var instruction := ReadAfter(target, source);
      EmitOps(Rewrite([], next, true), AfterDecisions(target, source), instruction.ops, instruction.context).0 ==
      AfterCode(target, source)
  {
    hide EmitOp, EmitOps;
    var instruction := ReadAfter(target, source);
    var ops, context, d := instruction.ops, instruction.context, AfterDecisions(target, source);
    var start, read := Rewrite([], next, true), Rewrite(SourceRead(source), next, true);
    assert ops[1..][1..] == ops[2..] && ops[2..][1..] == ops[3..] && ops[3..][1..] == ops[4..] && ops[4..][1..] == [];
    assert d[1..][1..] == d[2..] && d[2..][1..] == d[3..] && d[3..][1..] == d[4..] && d[4..][1..] == [];
    EmitRead(source, next, context);
    EmitDropped(read, ops[1], context);
    EmitConditional(target, source, next, context);
    EmitAccess(read, ops[3], context);
    StaleValue.EmitContinue(read, context);
    EmitNothingMore(read, context);
    var write := Set(RegStorage(target), Var(0), W32, true);
    StaleValue.EmitRest(read, read, d[4..], ops[4..], context, [Next], [], read);
    StaleValue.EmitRest(read, read, d[3..], ops[3..], context, [ops[3]], [Next] + [], read);
    StaleValue.EmitRest(read, read, d[2..], ops[2..], context, [write, ops[2]], [ops[3]] + ([Next] + []), read);
    var rest := [write, ops[2]] + ([ops[3]] + ([Next] + []));
    StaleValue.EmitRest(read, read, d[1..], ops[1..], context, [], rest, read);
    StaleValue.EmitRest(start, read, d, ops, context, [ops[0]], [] + rest, read);
    assert [ops[0]] + ([] + rest) == AfterCode(target, source);
  }

  lemma PropagatesAfter(target: Reg, source: Reg)
    requires target != source
    ensures
      var instruction := ReadAfter(target, source);
      PropagateBlock([instruction], map[]).0 == [instruction.(ops := AfterCode(target, source))]
  {
    hide EmitOps, AnalyzeOps, Entered, EntryWriteBack, EmitMaterialization, AfterCode;
    var instruction := ReadAfter(target, source);
    EnteredEmpty(instruction);
    AnalyzeAfter(target, source, 0);
    assert instruction.ops[0..] == instruction.ops;
    assert AfterDecisions(target, source)[0..] == AfterDecisions(target, source);
    var next := NextVarId(instruction.ops);
    EmitAfter(target, source, next);
    StaleValue.EmitsNothing(Rewrite([], next, true));
    assert [] + AfterCode(target, source) == AfterCode(target, source);
    OnePropagated(instruction);
  }

  // ---------- the two runs ----------

  lemma ConditionFails(target: Reg, context: Context, m: Machine)
    requires 0 in m.vars
    ensures Step(SetIf(Const(0), RegStorage(target), Var(0), W32), context, m) == Running(m)
  {
  }

  lemma NoMemory(context: Context, m: Machine)
    requires m.memory == []
    ensures Step(Get(1, Mem(Const(0)), W32, false), context, m) == FaultAt(m, ReadAccess(0, W32))
  {
  }

  /** Either program faults at the access; what it exposes depends on whether the write was a write-back. */
  lemma AfterRuns(ops: seq<Op>, target: Reg, source: Reg, role: bool)
    requires ops == [ReadAfter(target, source).ops[0], Set(RegStorage(target), Var(0), W32, role)] + ReadAfter(target, source).ops[2..]
    ensures
      var start, context := OneSet(source, 1, []), ReadAfter(target, source).context;
      var outcome := RunBlock([Instruction(context, ops)], start);
      outcome.Fault? && outcome.regs == if role then start.regs[target := 1] else start.regs
  {
    hide Step, RunOps;
    var start, context := OneSet(source, 1, []), ReadAfter(target, source).context;
    var m := Begin(start);
    ReadStep(source, context, m);
    var m1 := m.(vars := m.vars[0 := m.regs[source]]);
    CopyStep(target, role, context, m1);
    var m2 := Step(ops[1], context, m1).m;
    ConditionFails(target, context, m2);
    NoMemory(context, m2);
    StaleValue.RunHead(ops, context, m, m1);
    StaleValue.RunHead(ops[1..], context, m1, m2);
    StaleValue.RunHead(ops[2..], context, m2, m2);
    assert ops[1..][1..] == ops[2..] && ops[2..][1..] == ops[3..];
    FaultEnds(ops[3..], context, m2);
    RunsAlone(Instruction(context, ops), start);
  }

  /** With different registers a fault shows the copy that was written back. */
  lemma AfterExposesTheCopy(target: Reg, source: Reg)
    requires target != source
    ensures !PropagationTheorem.AlwaysPreserved([ReadAfter(target, source)])
  {
    hide RunBlock, PropagateBlock, PropagationTheorem.AlwaysPreserved;
    var instruction, m := ReadAfter(target, source), OneSet(source, 1, []);
    PropagatesAfter(target, source);
    AfterRuns(instruction.ops, target, source, false);
    AfterRuns(AfterCode(target, source), target, source, true);
    assert m.regs[target] == 0;
    NotPreserved([instruction], m);
  }

  lemma NotPreserved(block: Block, m: Machine)
    requires RunBlock(block, m) != Stuck
    requires !PropagationProof.SameRun(RunBlock(block, m), RunBlock(PropagateBlock(block, map[]).0, m))
    ensures !PropagationTheorem.AlwaysPreserved(block)
  {
    hide RunBlock, PropagateBlock, PropagationProof.SameRun;
  }

  lemma AcceptedIsPreserved(instruction: Instruction)
    requires PropagationProof.Propagatable(instruction)
    requires FaultsSeeEntry([instruction], map[]) && ReusesNothingStale([instruction], map[])
    ensures PropagationTheorem.AlwaysPreserved([instruction])
  {
    hide RunBlock, PropagateBlock, PropagationProof.SameRun, FaultsSeeEntry, ReusesNothingStale, PropagationProof.Propagatable;
    var block := [instruction];
    forall m: Machine | RunBlock(block, m) != Stuck
      ensures PropagationProof.SameRun(RunBlock(block, m), RunBlock(PropagateBlock(block, map[]).0, m))
    {
      PropagationTheorem.PropagationPreservesRuns(block, m);
    }
  }

  /**
   Copying a register, having the copy written back, and then reading memory survives propagation on every machine
   exactly when the two registers are the same, which is exactly when the walk over the faults accepts it.
   */
  lemma ReadingAfterIsPreservedIffAccepted(target: Reg, source: Reg)
    ensures PropagationTheorem.AlwaysPreserved([ReadAfter(target, source)]) <==>
            FaultsSeeEntry([ReadAfter(target, source)], map[])
    ensures FaultsSeeEntry([ReadAfter(target, source)], map[]) <==> target == source
  {
    hide FaultsSeeEntry, ReusesNothingStale, ReusesNothingStaleFrom, PropagationTheorem.AlwaysPreserved,
      PropagationProof.Propagatable, EntryWriteBack, Entered;
    var instruction := ReadAfter(target, source);
    AfterSeesEntryIffSame(target, source);
    if target == source {
      AfterIsPropagatable(target, source);
      EnteredEmpty(instruction);
      OneInstruction(instruction);
      AfterReusesNothing(target, 0);
      assert instruction.ops[0..] == instruction.ops;
      AcceptedIsPreserved(instruction);
    } else {
      AfterExposesTheCopy(target, source);
    }
  }
}
