/**
 A block on which each pass alone is right and the two together are not: `lea ecx,[eax+1]`, `mov eax,ebx`, and a load.
 Propagation holds both writes back and writes them back before the load; the builder then moves the read of eax past
 the write of eax.
 */
module PassOrder {
  import opened X86Types
  import opened Ir
  import opened RegisterValues
  import opened RegisterPropagation
  import opened PropagationSafety
  import opened Expressions
  import opened WriteBackPair
  import Composition
  import PropagationProof
  import PropagationTheorem
  import StaleReuse
  import StaleValue

  // ---------- the block ----------

  const ThePair: Pair := Pair(EAX, EBX, ECX, EAX, 1)

  const EaxPlusOne: Tree := BinaryTree(BinAdd, RegTree(EAX), ConstTree(1))

  function Bound32(reg: Reg): Binding {
    RegBinding(Alias(reg, 0, W32))
  }

  function Lea(): Instruction {
    Instruction(Context([Bound32(ECX), MemBinding(MemOperand(Some(EAX), None, 1, 1))], 0, false),
                [Address(0, 1), Set(Operand(0), Var(0), W32, false), Next])
  }

  function Mov(): Instruction {
    Instruction(Context([Bound32(EAX), Bound32(EBX)], 0, false),
                [Get(0, Operand(1), W32, false), Set(Operand(0), Var(0), W32, false), Next])
  }

  function Load(): Instruction {
    Instruction(Context([Bound32(EDX), MemBinding(MemOperand(None, None, 1, 0))], 0, true),
                [Get(0, Operand(1), W32, false), Set(Operand(0), Var(0), W32, false), Next])
  }

  function Code(): Block {
    [Lea(), Mov(), Load()]
  }

  // ---------- every hypothesis about the block holds ----------

  lemma ThreeScoped(ops: seq<Op>)
    requires |ops| == 3 && Dst(ops[0]) == Some(0) && Dst(ops[1]).None? && Dst(ops[2]).None?
    requires Uses(ops[0]) == {} && Uses(ops[1]) == {0} && Uses(ops[2]) == {}
    ensures AssignsOnce(ops, {}) && DefinesBeforeUse(ops, {})
  {
    assert ops[1..][0] == ops[1] && ops[1..][1..] == ops[2..] && ops[2..][0] == ops[2] && ops[2..][1..] == [];
    assert {} + {0} == {0};
    assert AssignsOnce(ops[2..], {0}) && DefinesBeforeUse(ops[2..], {0});
    assert AssignsOnce(ops[1..], {0}) && DefinesBeforeUse(ops[1..], {0});
  }

  predicate OneOfThem(instruction: Instruction) {
    instruction == Lea() || instruction == Mov() || instruction == Load()
  }

  lemma Scoped(instruction: Instruction)
    requires OneOfThem(instruction)
    ensures StaleReuse.WellScoped(instruction)
  {
    ThreeScoped(instruction.ops);
  }

  lemma Propagatable(instruction: Instruction)
    requires OneOfThem(instruction)
    ensures PropagationProof.Propagatable(instruction)
  {
    hide AssignsOnce, DefinesBeforeUse;
    Scoped(instruction);
    var ops := instruction.ops;
    assert forall op <- ops :: op == ops[0] || op == ops[1] || op == ops[2];
  }

  lemma Buildable(instruction: Instruction)
    requires OneOfThem(instruction)
    ensures Composition.Buildable(instruction)
  {
    hide AssignsOnce, DefinesBeforeUse;
    Scoped(instruction);
    var operands := instruction.context.operands;
    assert forall binding <- operands :: binding == operands[0] || binding == operands[1];
  }

  lemma FaultsComeFirst(instruction: Instruction)
    requires OneOfThem(instruction)
    ensures PropagationTheorem.FaultsFirst(instruction.ops, instruction.context)
  {
    var ops, context := instruction.ops, instruction.context;
    assert ops[1..][1..] == ops[2..] && ops[2..][1..] == [] && ops[1..][0] == ops[1] && ops[2..][0] == ops[2];
    assert forall op <- ops[1..] :: op == ops[1] || op == ops[2];
    assert !AnyFault(ops[1..], context) && !AnyFault(ops[2..], context);
    assert PropagationTheorem.FaultsFirst(ops[2..], context);
    assert PropagationTheorem.FaultsFirst(ops[1..], context);
  }

  // ---------- what propagation makes of it ----------

  function HeldLea(): Values {
    map[ECX := EaxPlusOne]
  }

  function HeldBoth(): Values {
    map[ECX := EaxPlusOne, EAX := RegTree(EBX)]
  }

  /** The analysis of three operations, the last of which ends the instruction. */
  lemma AnalyzeThree(ops: seq<Op>, context: Context, last: bool, a0: Analysis, a1: Analysis, a2: Analysis, d0: Decision,
                     d1: Decision, end: (Decision, Analysis))
    requires |ops| == 3
    requires DecisionFor(ops, context, last, a0) == (d0, a1)
    requires DecisionFor(ops[1..], context, last, a1) == (d1, a2)
    requires DecisionFor(ops[2..], context, last, a2) == end
    ensures AnalyzeOps(ops, context, last, a0) == ([d0, d1, end.0], end.1)
  {
    hide AnalyzeOp;
    assert ops[1..][1..] == ops[2..] && ops[2..][1..] == [];
    assert AnalyzeOps([], context, last, end.1) == ([], end.1);
    assert AnalyzeOps(ops[2..], context, last, a2) == ([end.0] + [], end.1);
    assert [end.0] + [] == [end.0] && [d1] + [end.0] == [d1, end.0] && [d0] + [d1, end.0] == [d0, d1, end.0];
    assert AnalyzeOps(ops[1..], context, last, a1) == ([d1, end.0], end.1);
  }

  lemma ContinueDecision(context: Context, analysis: Analysis)
    requires !context.exitMode
    ensures DecisionFor([Next], context, false, analysis) == (Just(Copy), analysis)
  {
  }

  lemma LeaAnalyzed()
    ensures AnalyzeOps(Lea().ops, Lea().context, false, Analysis(map[], [], true)) ==
            ([Just(Assign(EaxPlusOne)), Just(Drop), Just(Copy)], Analysis(HeldLea(), [Entry(0, EaxPlusOne, false)], true))
  {
    var ops, context := Lea().ops, Lea().context;
    var start, read := Analysis(map[], [], true), Analysis(map[], [Entry(0, EaxPlusOne, false)], true);
    LeaAddress();
    assert ops[1..][0] == ops[1] && ops[1..][1] == ops[2] && ops[2..] == [Next];
    assert DecisionFor(ops, context, false, start) == (Just(Assign(EaxPlusOne)), read) by {
      StaleValue.LookupOne(Entry(0, EaxPlusOne, false), 0);
      assert [] + [Entry(0, EaxPlusOne, false)] == [Entry(0, EaxPlusOne, false)];
    }
    HeldBack(ops[1..], context, map[], ECX, EaxPlusOne);
    assert map[][ECX := EaxPlusOne] == HeldLea();
    ContinueDecision(context, Analysis(HeldLea(), [Entry(0, EaxPlusOne, false)], true));
    AnalyzeThree(ops, context, false, start, read, Analysis(HeldLea(), [Entry(0, EaxPlusOne, false)], true),
                 Just(Assign(EaxPlusOne)), Just(Drop), (Just(Copy), Analysis(HeldLea(), [Entry(0, EaxPlusOne, false)], true)));
  }

  lemma LeaAddress()
    ensures ValueForAddress(1, Lea().context, map[]) == Known(EaxPlusOne, false)
  {
    var ea := Lea().context.operands[1].ea;
    assert AddressTerms(ea, map[]) == [RegTree(EAX), ConstTree(1)];
    assert [RegTree(EAX), ConstTree(1)][..1] == [RegTree(EAX)];
    assert Sum([RegTree(EAX)]) == RegTree(EAX);
  }

  /** A write of the first variable's tree is held back. */
  lemma HeldBack(ops: seq<Op>, context: Context, values: Values, reg: Reg, tree: Tree)
    requires |ops| == 2 && ops[0] == Set(Operand(0), Var(0), W32, false) && ops[1] == Next && !context.exitMode
    requires |context.operands| > 0 && context.operands[0] == Bound32(reg)
    ensures DecisionFor(ops, context, false, Analysis(values, [Entry(0, tree, false)], true)) ==
            (Just(Drop), Analysis(values[reg := tree], [Entry(0, tree, false)], true))
  {
    hide Dependents, ListOf;
    StaleValue.LookupOne(Entry(0, tree, false), 0);
    assert ValueFor([Entry(0, tree, false)], Var(0)) == Known(tree, false);
  }

  lemma MovAnalyzed()
    ensures AnalyzeOps(Mov().ops, Mov().context, false, Analysis(HeldLea(), [], true)) ==
            ([Just(Copy), Just(Drop), Just(Copy)], Analysis(HeldBoth(), [Entry(0, RegTree(EBX), false)], true))
  {
    var ops, context, entry := Mov().ops, Mov().context, Entry(0, RegTree(EBX), false);
    assert ops[1..][0] == ops[1] && ops[1..][1] == ops[2] && ops[2..] == [Next];
    assert DecisionFor(ops, context, false, Analysis(HeldLea(), [], true)) == (Just(Copy), Analysis(HeldLea(), [entry], true)) by {
      StaleValue.LookupOne(entry, 0);
      assert [] + [entry] == [entry];
    }
    HeldBack(ops[1..], context, HeldLea(), EAX, RegTree(EBX));
    assert HeldLea()[EAX := RegTree(EBX)] == HeldBoth();
    ContinueDecision(context, Analysis(HeldBoth(), [entry], true));
    AnalyzeThree(ops, context, false, Analysis(HeldLea(), [], true), Analysis(HeldLea(), [entry], true),
                 Analysis(HeldBoth(), [entry], true), Just(Copy), Just(Drop), (Just(Copy), Analysis(HeldBoth(), [entry], true)));
  }

  lemma LoadAnalyzed()
    ensures
      var analyzed := AnalyzeOps(Load().ops, Load().context, true, Analysis(map[], [], true));
      analyzed.0 == [Just(Copy), Decision([[]], Copy, []), Decision([], Copy, [])] && analyzed.1.ok
  {
    hide ListOf, Closure, Written;
    var ops, context, nothing := Load().ops, Load().context, Analysis(map[], [], true);
    assert ops[1..][0] == ops[1] && ops[1..][1] == ops[2] && ops[2..] == [Next];
    StaleValue.NothingToFlush();
    assert DecisionFor(ops, context, true, nothing) == (Just(Copy), nothing) by { assert Forget([], 0) == []; }
    LoadWrites(ops[1..], context);
    var end := DecisionFor(ops[2..], context, true, nothing);
    assert end == (Decision([], Copy, []), nothing);
    AnalyzeThree(ops, context, true, nothing, nothing, nothing, Just(Copy), Decision([[]], Copy, []), end);
  }

  lemma LoadWrites(ops: seq<Op>, context: Context)
    requires |ops| == 2 && ops[0] == Set(Operand(0), Var(0), W32, false) && ops[1] == Next && context.exitMode
    requires |context.operands| > 0 && context.operands[0] == Bound32(EDX)
    ensures DecisionFor(ops, context, true, Analysis(map[], [], true)) ==
            (Decision([[]], Copy, []), Analysis(map[], [], true))
  {
    var nothing: Values := map[];
    PropagationProof.NothingListed(Closure(nothing, {}), REG_ORDER);
    assert Dependents(nothing, EDX) == {};
    assert Written([]) == {} && Round(nothing, {}) == {};
    assert nothing - {} == nothing && nothing - {EDX} == nothing;
    assert ListOf(nothing, {}) == [];
    assert MarkStale([], {}) == [] && MarkStale([], {EDX}) == [];
  }

  function LeaCode(): Instruction {
    Lea().(ops := [Get(1, RegStorage(EAX), W32, false), ValueBinary(0, BinAdd, Var(1), Const(1)), Next])
  }

  function MovCode(): Instruction {
    Mov().(ops := [Get(0, Operand(1), W32, false), Next])
  }

  function LoadCode(): Instruction {
    Load().(ops := ThePair.Code(1) + Load().ops)
  }

  /** Three rewritten operations after each other. */
  lemma EmitThree(ops: seq<Op>, d: seq<Decision>, context: Context, r0: Rewrite, r1: Rewrite, r2: Rewrite, r3: Rewrite,
                  c0: seq<Op>, c1: seq<Op>, c2: seq<Op>)
    requires |ops| == 3 && |d| == 3
    requires EmitOp(r0, d[0], ops[0], context) == (c0, r1)
    requires EmitOp(r1, d[1], ops[1], context) == (c1, r2)
    requires EmitOp(r2, d[2], ops[2], context) == (c2, r3)
    ensures EmitOps(r0, d, ops, context) == (c0 + (c1 + c2), r3)
  {
    hide EmitOp;
    assert ops[1..][1..] == ops[2..] && ops[2..][1..] == [] && d[1..][1..] == d[2..] && d[2..][1..] == [];
    assert EmitOps(r3, [], [], context) == ([], r3);
    assert EmitOps(r2, d[2..], ops[2..], context) == (c2 + [], r3);
    assert c2 + [] == c2;
    assert EmitOps(r1, d[1..], ops[1..], context) == (c1 + c2, r3);
  }

  lemma ThreeVariables(ops: seq<Op>)
    requires |ops| == 3 && Dst(ops[0]) == Some(0) && Dst(ops[1]).None? && Dst(ops[2]).None?
    ensures NextVarId(ops) == 1
  {
    assert ops[1..][1..] == ops[2..] && ops[2..][1..] == [];
    assert NextVarId(ops[2..]) == 0 && NextVarId(ops[1..]) == 0;
  }

  lemma LeaPropagates()
    ensures PropagateInstruction(Lea(), false, map[]) == Propagated(LeaCode(), HeldLea(), true)
  {
    hide AnalyzeOps, EmitOps, EmitMaterialization, EmitOp;
    var ops, context, start := Lea().ops, Lea().context, Rewrite([], 1, true);
    NoFaults(Lea());
    LeaAnalyzed();
    ThreeVariables(ops);
    StaleValue.EmitsNothing(start);
    LeaEmits();
    var emitted := Rewrite([Entry(1, RegTree(EAX), false), Entry(0, EaxPlusOne, false)], 2, true);
    PropagationProof.JustEmits(emitted, Drop, ops[1], context);
    StaleValue.EmitContinue(emitted, context);
    var d := [Just(Assign(EaxPlusOne)), Just(Drop), Just(Copy)];
    EmitThree(ops, d, context, start, emitted, emitted, emitted, LeaCode().ops[..2], [], [Next]);
    assert LeaCode().ops[..2] + ([] + [Next]) == LeaCode().ops && [] + LeaCode().ops == LeaCode().ops;
  }

  lemma NoFaults(instruction: Instruction)
    requires instruction == Lea() || instruction == Mov()
    ensures !AnyFault(instruction.ops, instruction.context)
  {
    var ops := instruction.ops;
    assert forall op <- ops :: op == ops[0] || op == ops[1] || op == ops[2];
  }

  lemma LeaEmits()
    ensures
      EmitOp(Rewrite([], 1, true), Just(Assign(EaxPlusOne)), Lea().ops[0], Lea().context) ==
      (LeaCode().ops[..2], Rewrite([Entry(1, RegTree(EAX), false), Entry(0, EaxPlusOne, false)], 2, true))
  {
    hide EmitRef;
    var start, read := Rewrite([], 1, true), Rewrite([Entry(1, RegTree(EAX), false)], 2, true);
    PropagationProof.JustEmits(start, Assign(EaxPlusOne), Lea().ops[0], Lea().context);
    EmitOne(1, EAX);
    ConstIsFree(read, 1);
    var code := LeaCode().ops[..2];
    assert [Get(1, RegStorage(EAX), W32, false)] + [] + [ValueBinary(0, BinAdd, Var(1), Const(1))] == code;
    assert EmitInto(start, 0, EaxPlusOne) == (code, read);
    RecordAfter(Entry(1, RegTree(EAX), false), Entry(0, EaxPlusOne, false));
  }

  lemma ConstIsFree(rewrite: Rewrite, value: Word)
    ensures EmitRef(rewrite, ConstTree(value)) == Emission([], Const(value), rewrite)
  {
  }

  lemma MovPropagates()
    ensures PropagateInstruction(Mov(), false, HeldLea()) == Propagated(MovCode(), HeldBoth(), true)
  {
    hide AnalyzeOps, EmitOps, EmitMaterialization, EmitOp;
    var ops, context, start := Mov().ops, Mov().context, Rewrite([], 1, true);
    var read := Rewrite([Entry(0, RegTree(EBX), false)], 1, true);
    NoFaults(Mov());
    MovAnalyzed();
    ThreeVariables(ops);
    StaleValue.EmitsNothing(start);
    StaleValue.EmitCopy(start, ops[0], context);
    assert RecordOp([], ops[0], context, map[]) == [Entry(0, RegTree(EBX), false)] by {
      assert Forget([], 0) == [] && [] + [Entry(0, RegTree(EBX), false)] == [Entry(0, RegTree(EBX), false)];
    }
    PropagationProof.JustEmits(read, Drop, ops[1], context);
    StaleValue.EmitContinue(read, context);
    EmitThree(ops, [Just(Copy), Just(Drop), Just(Copy)], context, start, read, read, read, [ops[0]], [], [Next]);
    assert [ops[0]] + ([] + [Next]) == MovCode().ops && [] + MovCode().ops == MovCode().ops;
  }

  lemma {:induction false} ListedElsewhere(values: Values, regs: set<Reg>, order: seq<Reg>)
    requires forall reg <- order :: reg !in values
    ensures Listed(values, regs, order) == []
  {
    if order != [] {
      assert order[0] in order && forall reg <- order[1..] :: reg in order;
      ListedElsewhere(values, regs, order[1..]);
    }
  }

  /** Both held-back writes are written back before the load, in the order of the registers. */
  lemma LoadEntry()
    ensures EntryWriteBack(Load(), HeldBoth()) == ThePair.List()
    ensures Entered(Load(), HeldBoth()) == Analysis(map[], [], true)
  {
    hide MarkStale, Listed;
    assert Load().ops[0] in Load().ops && CanFault(Load().ops[0], Load().context.operands);
    var values, regs := HeldBoth(), {EAX, ECX};
    assert values.Keys == regs;
    assert Closure(values, regs) == regs by { assert Round(values, regs) == regs; }
    ListBoth();
    assert values - regs == map[];
    assert MarkStale([], RegisterPropagation.Written(ListOf(values, regs))) == [] by { MarkEmpty(RegisterPropagation.Written(ListOf(values, regs))); }
  }

  lemma MarkEmpty(regs: set<Reg>)
    ensures MarkStale([], regs) == []
  {
  }

  lemma ListedHead(values: Values, regs: set<Reg>, order: seq<Reg>)
    requires order != [] && order[0] in regs && order[0] in values
    ensures Listed(values, regs, order) == [RegValue(order[0], values[order[0]])] + Listed(values, regs, order[1..])
  {
  }

  lemma RegistersInOrder()
    ensures |REG_ORDER| == 8 && REG_ORDER[0] == EAX && REG_ORDER[1..][0] == ECX
    ensures REG_ORDER[1..][1..] == [EDX, EBX, ESP, EBP, ESI, EDI]
  {
  }

  lemma ListBoth()
    ensures Listed(HeldBoth(), {EAX, ECX}, REG_ORDER) == ThePair.List()
  {
    hide Listed, REG_ORDER;
    var values, regs, rest := HeldBoth(), {EAX, ECX}, [EDX, EBX, ESP, EBP, ESI, EDI];
    RegistersInOrder();
    ListedElsewhere(values, regs, rest);
    ListedHead(values, regs, REG_ORDER[1..]);
    ListedHead(values, regs, REG_ORDER);
    assert [RegValue(ECX, EaxPlusOne)] + [] == [RegValue(ECX, EaxPlusOne)];
    assert [RegValue(EAX, RegTree(EBX))] + [RegValue(ECX, EaxPlusOne)] == ThePair.List();
  }

  /** The load itself is copied. */
  lemma LoadEmits(rewrite: Rewrite)
    requires rewrite.ok
    ensures
      var d := [Just(Copy), Decision([[]], Copy, []), Decision([], Copy, [])];
      var code := EmitOps(rewrite, d, Load().ops, Load().context);
      code.0 == Load().ops && code.1.ok
  {
    hide EmitOp, EmitOps, EmitMaterialization;
    var ops, context := Load().ops, Load().context;
    var d := [Just(Copy), Decision([[]], Copy, []), Decision([], Copy, [])];
    PropagationProof.JustEmits(rewrite, Copy, ops[0], context);
    var r1 := EmitOp(rewrite, d[0], ops[0], context).1;
    assert EmitOp(rewrite, d[0], ops[0], context) == ([ops[0]], r1) && r1.ok;
    PropagationProof.OneListEmits(r1, [], ops[1], context);
    PropagationProof.EmitNothing(r1);
    var r2 := EmitOp(r1, d[1], ops[1], context).1;
    assert [] + [ops[1]] == [ops[1]];
    assert EmitOp(r1, d[1], ops[1], context) == ([ops[1]], r2) && r2.ok;
    StaleValue.EmitContinue(r2, context);
    EmitThree(ops, d, context, rewrite, r1, r2, r2, [ops[0]], [ops[1]], [Next]);
    assert [ops[0]] + ([ops[1]] + [Next]) == ops;
  }

  lemma LoadPropagates()
    ensures
      var after := PropagateInstruction(Load(), true, HeldBoth());
      after.instruction == LoadCode() && after.ok
  {
    hide AnalyzeOps, EmitOps, EmitMaterialization, Entered, EntryWriteBack;
    LoadEntry();
    LoadAnalyzed();
    ThreeVariables(Load().ops);
    PairEmitted(ThePair, 1);
    LoadEmits(EmitMaterialization(Rewrite([], 1, true), ThePair.List()).1);
  }

  lemma CodePropagates()
    ensures PropagateBlock(Code(), map[]) == ([LeaCode(), MovCode(), LoadCode()], true)
  {
    hide PropagateInstruction, LeaCode, MovCode, LoadCode, Lea, Mov, Load;
    LeaPropagates();
    MovPropagates();
    LoadPropagates();
    var block := Code();
    assert block[1..] == [Mov(), Load()] && block[1..][1..] == [Load()] && block[1..][1..][1..] == [];
    assert PropagateBlock([], PropagateInstruction(Load(), true, HeldBoth()).values) == ([], true);
    assert PropagateBlock([Load()], HeldBoth()) == ([LoadCode()] + [], true) by { assert [Load()][1..] == []; }
    assert [LoadCode()] + [] == [LoadCode()] && [MovCode()] + [LoadCode()] == [MovCode(), LoadCode()];
    assert PropagateBlock([Mov(), Load()], HeldLea()) == ([MovCode(), LoadCode()], true) by {
      assert [Mov(), Load()][1..] == [Load()];
    }
    assert [LeaCode()] + [MovCode(), LoadCode()] == [LeaCode(), MovCode(), LoadCode()];
  }

  // ---------- what the builder makes of that ----------

  lemma CountThree(ops: seq<Op>, id: VarId)
    requires |ops| == 3
    ensures CountUses(ops, id) == OpUses(ops[0], id) + OpUses(ops[1], id) + OpUses(ops[2], id)
    ensures CountUses(ops[1..], id) == OpUses(ops[1], id) + OpUses(ops[2], id)
  {
    hide OpUses;
    assert ops[1..][1..] == ops[2..] && ops[2..][1..] == [] && ops[1..][0] == ops[1];
    assert CountUses(ops[2..], id) == OpUses(ops[2], id);
  }

  /** Nothing uses the held-back values any more, so only the end is left. */
  lemma LeaBuilt()
    ensures BuildIrExpressionBlock(LeaCode()) == [PlainOp(Next)]
  {
    hide CountUses, CrossesBarrier, BuildFrom, ConditionallyWritten;
    var block, ops := LeaCode(), LeaCode().ops;
    LeaVariables();
    assert ops[1..][0] == ops[1] && ops[1..][1..] == ops[2..] && ops[2..] == [Next] && [Next][1..] == [];
    WriteBackPair.ReadWaits(1, EAX, ops[1..], 0, block.context);
    var read: Bindings := map[1 := Source(RegExpr(EAX), W32, false)];
    var sum: Bindings := map[0 := BinaryExpr(BinAdd, Source(RegExpr(EAX), W32, false), Ref(Const(1)))];
    WriteBackPair.BuildHead(block, Build(map[], []), ops);
    assert BuildOp(block, Build(map[], []), ops[0], ops[1..]) == Build(read, []);
    WriteBackPair.BuildHead(block, Build(read, []), ops[1..]);
    assert AfterUse(Var(1), read) == map[];
    assert BuildOp(block, Build(read, []), ops[1], ops[2..]) == Build(sum, []);
    EndBuilt(block, Build(sum, []));
  }

  lemma LeaVariables()
    ensures CountUses(LeaCode().ops, 0) == 0 && CountUses(LeaCode().ops, 1) == 1
    ensures !ConditionallyWritten(LeaCode().ops, 0) && !ConditionallyWritten(LeaCode().ops, 1)
  {
    hide CountUses;
    var ops := [Get(1, RegStorage(EAX), W32, false), ValueBinary(0, BinAdd, Var(1), Const(1)), Next];
    assert LeaCode().ops == ops;
    hide LeaCode;
    LeaCounted(ops, 0);
    LeaCounted(ops, 1);
    assert forall op <- ops :: op == ops[0] || op == ops[1] || op == ops[2];
  }

  lemma LeaCounted(ops: seq<Op>, id: VarId)
    requires ops == [Get(1, RegStorage(EAX), W32, false), ValueBinary(0, BinAdd, Var(1), Const(1)), Next]
    ensures CountUses(ops, id) == if id == 1 then 1 else 0
  {
    CountThree(ops, id);
  }

  lemma EndBuilt(block: Instruction, build: Build)
    ensures BuildFrom(block, build, [Next]).ops == build.ops + [PlainOp(Next)]
  {
    assert [Next][1..] == [];
  }

  lemma MovBuilt()
    ensures BuildIrExpressionBlock(MovCode()) == [PlainOp(Next)]
  {
    hide CountUses;
    var block, ops := MovCode(), MovCode().ops;
    assert ops[1..] == [Next] && [Next][1..] == [];
    WriteBackPair.CountAppend([ops[0]], [Next], 0);
    WriteBackPair.CountOne(ops[0], 0);
    WriteBackPair.CountOne(Next, 0);
    assert [ops[0]] + [Next] == ops;
    var read: Bindings := map[0 := Source(OperandExpr(1), W32, false)];
    WriteBackPair.BuildHead(block, Build(map[], []), ops);
    assert BuildOp(block, Build(map[], []), ops[0], ops[1..]) == Build(read, []);
    WriteBackPair.BuildHead(block, Build(read, []), ops[1..]);
  }

  function LoadTail(): seq<ExprOp> {
    [Let(0, Source(OperandExpr(1), W32, false)), SetExpr(OperandExpr(0), Ref(Var(0)), W32, false), PlainOp(Next)]
  }

  lemma LoadBuilt()
    ensures BuildIrExpressionBlock(LoadCode()) == Built(ThePair, 1) + LoadTail()
  {
    hide BuildFrom, CountUses;
    var block, ops := LoadCode(), Load().ops;
    forall id | 1 <= id <= 3 ensures CountUses(ops, id) == 0 {
      CountThree(ops, id);
    }
    PairBuilt(block, ThePair, 1, ops);
    var t := LoadTail();
    WriteBackPair.BuildHead(block, Build(map[], []), ops);
    assert BuildOp(block, Build(map[], []), ops[0], ops[1..]) == Build(map[], [t[0]]);
    WriteBackPair.BuildHead(block, Build(map[], [t[0]]), ops[1..]);
    assert ops[1..][0] == ops[1] && ops[1..][1..] == ops[2..] && ops[2..][0] == Next && ops[2..][1..] == [];
    assert BuildOp(block, Build(map[], [t[0]]), ops[1], ops[2..]) == Build(map[], [t[0], t[1]]);
    WriteBackPair.BuildHead(block, Build(map[], [t[0], t[1]]), ops[2..]);
    assert BuildOp(block, Build(map[], [t[0], t[1]]), Next, []) == Build(map[], t);
    BuiltAll(block, Build(map[], t));
  }

  lemma BuiltAll(block: Instruction, build: Build)
    ensures BuildFrom(block, build, []) == build
  {
  }

  // ---------- the two runs ----------

  function Start(): Machine {
    Machine(ZeroRegs()[EBX := 5], ZeroRegs()[EBX := 5], {}, {}, [0, 0, 0, 0], map[], [])
  }

  /** A machine that differs from another in registers, committed registers, variables and the log at most. */
  predicate Moved(m: Machine, n: Machine) {
    n == m.(regs := n.regs, committed := n.committed, vars := n.vars, log := n.log, entryFlags := n.entryFlags)
  }

  lemma RunThree(ops: seq<Op>, context: Context, m: Machine, m1: Machine, m2: Machine)
    requires |ops| == 3 && Step(ops[0], context, m) == Running(m1) && Step(ops[1], context, m1) == Running(m2)
    requires ops[2] == Next
    ensures RunOps(ops, context, m) == Step(Next, context, m2)
  {
    hide Step;
    assert ops[1..][0] == ops[1] && ops[1..][1..] == ops[2..] && ops[2..][0] == Next;
    WriteBackPair.RunHead(ops, context, m, m1);
    WriteBackPair.RunHead(ops[1..], context, m1, m2);
    LeavesOrEnds(ops[2..], context, m2);
  }

  lemma LeavesOrEnds(ops: seq<Op>, context: Context, m: Machine)
    requires ops != [] && ops[0] == Next
    ensures RunOps(ops, context, m) == Step(Next, context, m) && !Step(Next, context, m).Running?
  {
  }

  lemma WriteOperand(reg: Reg, context: Context, m: Machine)
    requires |context.operands| > 0 && context.operands[0] == Bound32(reg) && 0 in m.vars
    ensures
      var step := Step(Set(Operand(0), Var(0), W32, false), context, m);
      step.Running? && step.m == m.(regs := m.regs[reg := m.vars[0]])
  {
    hide WriteField;
  }

  function OnePast(value: Word): Word {
    var x: int := value;
    U32(x + 1)
  }

  lemma LeaRuns(m: Machine)
    ensures
      var outcome := RunOps(Lea().ops, Lea().context, m);
      && outcome.Completed? && Moved(m, outcome.m) && outcome.m.regs == m.regs[ECX := OnePast(m.regs[EAX])]
  {
    hide Step, OnePast;
    var context := Lea().context;
    AddressOnePast(m);
    var m1 := m.(vars := m.vars[0 := OnePast(m.regs[EAX])]);
    WriteOperand(ECX, context, m1);
    var m2 := Step(Lea().ops[1], context, m1).m;
    RunThree(Lea().ops, context, m, m1, m2);
    Continues(context, m2);
  }

  lemma AddressOnePast(m: Machine)
    ensures Step(Address(0, 1), Lea().context, m) == Running(m.(vars := m.vars[0 := OnePast(m.regs[EAX])]))
  {
  }

  lemma Continues(context: Context, m: Machine)
    requires !context.exitMode
    ensures Step(Next, context, m) == Completed(m)
  {
  }

  lemma MovRuns(m: Machine)
    ensures
      var outcome := RunOps(Mov().ops, Mov().context, m);
      && outcome.Completed? && Moved(m, outcome.m) && outcome.m.regs == m.regs[EAX := m.regs[EBX]]
  {
    hide Step;
    var context := Mov().context;
    ReadOperand(m);
    var m1 := m.(vars := m.vars[0 := m.regs[EBX]]);
    WriteOperand(EAX, context, m1);
    var m2 := Step(Mov().ops[1], context, m1).m;
    RunThree(Mov().ops, context, m, m1, m2);
    Continues(context, m2);
  }

  lemma ReadOperand(m: Machine)
    ensures Step(Get(0, Operand(1), W32, false), Mov().context, m) == Running(m.(vars := m.vars[0 := m.regs[EBX]]))
  {
    hide ReadField;
  }

  lemma LoadReads(m: Machine)
    requires |m.memory| == 4
    ensures
      var step := Step(Get(0, Operand(1), W32, false), Load().context, m);
      step.Running? && 0 in step.m.vars && Moved(m, step.m) && step.m.regs == m.regs
  {
    hide ReadMemory;
  }

  lemma Leaves(context: Context, m: Machine)
    requires context.exitMode
    ensures Step(Next, context, m) == ExitAt(m, Fallthrough, context.nextEip)
  {
  }

  lemma LoadRuns(m: Machine)
    requires |m.memory| == 4
    ensures
      var outcome := RunOps(Load().ops, Load().context, m);
      outcome.Exit? && outcome.regs[ECX] == m.regs[ECX]
  {
    hide Step;
    var context := Load().context;
    LoadReads(m);
    var m1 := Step(Load().ops[0], context, m).m;
    WriteOperand(EDX, context, m1);
    var m2 := Step(Load().ops[1], context, m1).m;
    RunThree(Load().ops, context, m, m1, m2);
    Leaves(context, m2);
  }

  lemma CodeRuns()
    ensures RunBlock(Code(), Start()).Exit? && RunBlock(Code(), Start()).regs[ECX] == 1
  {
    hide RunOps, Lea, Mov, Load, OnePast;
    var m := Start();
    LeaRuns(Begin(m));
    var m1 := RunOps(Lea().ops, Lea().context, Begin(m)).m;
    MovRuns(Begin(m1));
    var m2 := RunOps(Mov().ops, Mov().context, Begin(m1)).m;
    LoadRuns(Begin(m2));
    var block := Code();
    assert block[1..] == [Mov(), Load()] && block[1..][1..] == [Load()];
    assert RunBlock(block, m) == RunBlock(block[1..], m1);
    assert RunBlock(block[1..], m1) == RunBlock(block[1..][1..], m2);
    Small();
  }

  lemma Small()
    ensures OnePast(0) == 1 && U32(5 + 1) == 6
  {
  }

  lemma TailRuns(m: Machine)
    requires |m.memory| == 4
    ensures
      var outcome := RunExprs(LoadTail(), Load().context, m);
      outcome.Exit? && outcome.regs[ECX] == m.regs[ECX]
  {
    hide Step;
    var t, context := LoadTail(), Load().context;
    LoadReads(m);
    var m1 := Step(Get(0, Operand(1), W32, false), context, m).m;
    assert StepExpr(t[0], context, m) == Running(m1);
    WriteOperand(EDX, context, m1);
    StoreFromVar(context, m1);
    var m2 := Step(Set(Operand(0), Var(0), W32, false), context, m1).m;
    WriteBackPair.RunExprHead(t, context, m, m1);
    WriteBackPair.RunExprHead(t[1..], context, m1, m2);
    assert t[1..][0] == t[1] && t[1..][1..] == [PlainOp(Next)];
    WriteBackPair.LeavesExpr(context, m2);
  }

  lemma StoreFromVar(context: Context, m: Machine)
    requires 0 in m.vars
    ensures StepExpr(SetExpr(OperandExpr(0), Ref(Var(0)), W32, false), context, m) ==
            Step(Set(Operand(0), Var(0), W32, false), context, m)
  {
    hide StepWrite;
  }

  lemma LoadBuiltRuns(m: Machine)
    requires |m.memory| == 4 && m.regs[EBX] == 5
    ensures
      var outcome := RunExprs(BuildIrExpressionBlock(LoadCode()), Load().context, m);
      outcome.Exit? && outcome.regs[ECX] == 6
  {
    hide RunExprs, BuildIrExpressionBlock, Built, BothWritten, LoadTail, Load, U32;
    LoadBuilt();
    var end := RunSeparate(ThePair, 1, LoadTail(), Load().context, m);
    TailRuns(end);
    WrittenSecond(m.regs, ThePair, m.regs[EAX := m.regs[EBX]][EAX]);
    Small();
  }

  lemma EndRuns(context: Context, m: Machine)
    requires !context.exitMode
    ensures RunExprs([PlainOp(Next)], context, m) == Completed(m)
  {
  }

  lemma BuiltRuns()
    ensures
      var built := Composition.RunBuilt([LeaCode(), MovCode(), LoadCode()], Start());
      built.Exit? && built.regs[ECX] == 6
  {
    hide RunExprs, BuildIrExpressionBlock, LoadCode;
    var m, block := Start(), [LeaCode(), MovCode(), LoadCode()];
    LeaBuilt();
    MovBuilt();
    EndRuns(Lea().context, Begin(m));
    EndRuns(Mov().context, Begin(Begin(m)));
    LoadBuiltRuns(Begin(Begin(Begin(m))));
    LoadContext();
    assert block[1..] == [MovCode(), LoadCode()] && block[1..][1..] == [LoadCode()];
    assert Composition.RunBuilt(block, m) == Composition.RunBuilt(block[1..], Begin(m));
    assert Composition.RunBuilt(block[1..], Begin(m)) == Composition.RunBuilt(block[1..][1..], Begin(Begin(m)));
  }

  lemma LoadContext()
    ensures LoadCode().context == Load().context
  {
  }

  /**
   The block meets everything asked for each pass. Propagation alone preserves it; but built from what propagation
   writes back, ecx gets ebx plus one instead of the old eax plus one.
   */
  lemma PassesDoNotAlwaysCompose()
    ensures forall instruction <- Code() :: PropagationProof.Propagatable(instruction) && Composition.Buildable(instruction)
    ensures FaultsSeeEntry(Code(), map[]) && ReusesNothingStale(Code(), map[])
    ensures PropagationTheorem.AlwaysPreserved(Code())
    ensures RunBlock(Code(), Start()).Exit? && RunBlock(Code(), Start()).regs[ECX] == 1
    ensures
      var built := Composition.RunBuilt(PropagateBlock(Code(), map[]).0, Start());
      built.Exit? && built.regs[ECX] == 6
  {
    hide RunBlock, PropagateBlock, FaultsSeeEntry, ReusesNothingStale, Lea, Mov, Load, LeaCode, MovCode, LoadCode, Start,
      PropagationProof.Propagatable, Composition.Buildable, Composition.RunBuilt, StaleReuse.WellScoped,
      PropagationTheorem.FaultsFirst;
    forall instruction <- Code()
      ensures PropagationProof.Propagatable(instruction) && Composition.Buildable(instruction)
      ensures StaleReuse.WellScoped(instruction)
      ensures PropagationTheorem.FaultsFirst(instruction.ops, instruction.context)
    {
      Propagatable(instruction);
      Buildable(instruction);
      Scoped(instruction);
      FaultsComeFirst(instruction);
    }
    PropagationTheorem.FaultsFirstIsEnough(Code(), map[]);
    CodePropagates();
    StaleReuse.StaleReuseIsForeseen(Code(), map[]);
    AloneIsRight();
    CodeRuns();
    BuiltRuns();
  }

  lemma AloneIsRight()
    requires forall instruction <- Code() :: PropagationProof.Propagatable(instruction)
    requires FaultsSeeEntry(Code(), map[]) && ReusesNothingStale(Code(), map[])
    ensures PropagationTheorem.AlwaysPreserved(Code())
  {
    hide RunBlock, PropagateBlock, FaultsSeeEntry, ReusesNothingStale, Code, PropagationProof.Propagatable,
      PropagationProof.SameRun;
    forall m: Machine | RunBlock(Code(), m) != Stuck
      ensures PropagationProof.SameRun(RunBlock(Code(), m), RunBlock(PropagateBlock(Code(), map[]).0, m))
    {
      PropagationTheorem.PropagationPreservesRuns(Code(), m);
    }
  }
}
