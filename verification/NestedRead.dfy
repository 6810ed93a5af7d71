/**
 Why the expression builder needs its hypothesis. A register read is checked against writes only up to its first use;
 once that use is itself put off, a write in between changes what is read.
 */
module NestedRead {
  import opened X86Types
  import opened Ir
  import opened Expressions

  function Ops(): seq<Op> {
    [Get(0, RegStorage(EAX), W32, false), ValueUnary(1, Extend8S, Var(0)),
     Set(RegStorage(EAX), Const(5), W32, false), Set(RegStorage(EBX), Var(1), W32, false), Next]
  }

  function Code(): Instruction {
    Instruction(Context([], 0, true), Ops())
  }

  function Moved(): Expr {
    UnaryExpr(Extend8S, Source(RegExpr(EAX), W32, false))
  }

  lemma Uses(id: VarId)
    ensures CountUses(Ops(), id) == if id == 0 || id == 1 then 1 else 0
    ensures !ConditionallyWritten(Ops(), id)
  {
    var ops := Ops();
    assert ops[4..][1..] == [] && ops[3..][1..] == ops[4..] && ops[2..][1..] == ops[3..] && ops[1..][1..] == ops[2..];
    assert CountUses(ops[4..], id) == 0 && CountUses(ops[3..], id) == OpUses(ops[3], id);
    assert CountUses(ops[2..], id) == OpUses(ops[3], id) && CountUses(ops[1..], id) == OpUses(ops[1], id) + OpUses(ops[3], id);
  }

  lemma BuildHead(build: Build, ops: seq<Op>)
    requires ops != []
    ensures BuildFrom(Code(), build, ops) == BuildFrom(Code(), BuildOp(Code(), build, ops[0], ops[1..]), ops[1..])
  {
    hide BuildOp;
  }

  lemma BuildReads()
    ensures BuildOp(Code(), Build(map[], []), Ops()[0], Ops()[1..]) == Build(map[0 := Source(RegExpr(EAX), W32, false)], [])
    ensures BuildOp(Code(), Build(map[0 := Source(RegExpr(EAX), W32, false)], []), Ops()[1], Ops()[2..]) ==
            Build(map[1 := Moved()], [])
  {
    hide CountUses, ConditionallyWritten;
    Uses(0);
    Uses(1);
    var b := map[0 := Source(RegExpr(EAX), W32, false)];
    assert OpUses(Ops()[1..][0], 0) > 0;
    assert !CrossesBarrier(0, RegStorage(EAX), Ops()[1..], Code().context);
    assert AfterUse(Var(0), b) == map[];
    assert map[][1 := Moved()] == map[1 := Moved()];
  }

  function Built(): seq<ExprOp> {
    [SetExpr(RegExpr(EAX), Ref(Const(5)), W32, false), SetExpr(RegExpr(EBX), Moved(), W32, false), PlainOp(Next)]
  }

  lemma BuildWrites()
    ensures BuildFrom(Code(), Build(map[1 := Moved()], []), Ops()[2..]).ops == Built()
  {
    var ops := Ops();
    assert ops[4..][1..] == [] && ops[3..][1..] == ops[4..] && ops[2..][1..] == ops[3..];
    var first := Build(map[1 := Moved()], [Built()[0]]);
    var second := Build(map[], [Built()[0], Built()[1]]);
    BuildHead(Build(map[1 := Moved()], []), ops[2..]);
    assert BuildOp(Code(), Build(map[1 := Moved()], []), ops[2], ops[3..]) == first;
    BuildHead(first, ops[3..]);
    assert AfterUse(Var(1), first.bindings) == map[];
    assert BuildOp(Code(), first, ops[3], ops[4..]) == second;
    BuildHead(second, ops[4..]);
  }

  lemma Builds()
    ensures BuildIrExpressionBlock(Code()) == Built()
  {
    hide BuildOp;
    var ops := Ops();
    assert ops[1..][1..] == ops[2..];
    BuildReads();
    BuildHead(Build(map[], []), ops);
    BuildHead(Build(map[0 := Source(RegExpr(EAX), W32, false)], []), ops[1..]);
    BuildWrites();
  }

  function Start(): Machine {
    Machine(ZeroRegs(), ZeroRegs(), {}, {}, [], map[], [])
  }

  lemma WriteWhole(reg: Reg, value: Word, m: Machine)
    ensures
      var step := Step(Set(RegStorage(reg), Const(value), W32, false), Code().context, m);
      step.Running? && step.m == m.(regs := step.m.regs) && step.m.regs == m.regs[reg := value]
  {
  }

  lemma ReadWhole(m: Machine)
    ensures ReadPlace(RegStorage(EAX), W32, false, Code().context, m) == Some(m.regs[EAX])
    ensures Step(Get(0, RegStorage(EAX), W32, false), Code().context, m) == Bind(m, 0, m.regs[EAX])
  {
  }

  lemma Extends()
    ensures SignExtend(0, W8) == 0 && SignExtend(5, W8) == 5
  {
  }

  lemma RunFlat()
    ensures RunOps(Ops(), Code().context, Start()).Exit? && RunOps(Ops(), Code().context, Start()).regs[EBX] == 0
  {
    var ops, context := Ops(), Code().context;
    assert ops[4..][1..] == [] && ops[3..][1..] == ops[4..] && ops[2..][1..] == ops[3..] && ops[1..][1..] == ops[2..];
    Extends();
    var m0 := Start();
    ReadWhole(m0);
    var m1 := m0.(vars := m0.vars[0 := 0]);
    var m2 := m1.(vars := m1.vars[1 := 0]);
    RunHead(ops, m0, m1);
    RunHead(ops[1..], m1, m2);
    WriteWhole(EAX, 5, m2);
    var m3 := Step(ops[2], context, m2).m;
    RunHead(ops[2..], m2, m3);
    WriteVar(m3);
    var m4 := Step(ops[3], context, m3).m;
    RunHead(ops[3..], m3, m4);
  }

  lemma WriteVar(m: Machine)
    requires 1 in m.vars
    ensures
      var step := Step(Set(RegStorage(EBX), Var(1), W32, false), Code().context, m);
      step.Running? && step.m.regs == m.regs[EBX := m.vars[1]]
  {
  }

  lemma RunHead(ops: seq<Op>, m: Machine, n: Machine)
    requires ops != [] && Step(ops[0], Code().context, m) == Running(n)
    ensures RunOps(ops, Code().context, m) == RunOps(ops[1..], Code().context, n)
  {
    hide Step;
  }

  lemma RunExprHead(ops: seq<ExprOp>, m: Machine, n: Machine)
    requires ops != [] && StepExpr(ops[0], Code().context, m) == Running(n)
    ensures RunExprs(ops, Code().context, m) == RunExprs(ops[1..], Code().context, n)
  {
    hide StepExpr;
  }

  lemma RunBuilt()
    ensures RunExprs(Built(), Code().context, Start()).Exit? && RunExprs(Built(), Code().context, Start()).regs[EBX] == 5
  {
    hide Step, ReadPlace, SignExtend;
    var ops, context := Built(), Code().context;
    assert ops[2..][1..] == [] && ops[1..][1..] == ops[2..];
    Extends();
    var m0 := Start();
    WriteWhole(EAX, 5, m0);
    var m1 := Step(Set(RegStorage(EAX), Const(5), W32, false), context, m0).m;
    RunExprHead(ops, m0, m1);
    ReadWhole(m1);
    assert EvalExpr(Moved(), context, m1) == Some(5);
    WriteWhole(EBX, 5, m1);
    var m2 := Step(Set(RegStorage(EBX), Const(5), W32, false), context, m1).m;
    RunExprHead(ops[1..], m1, m2);
    Leaves(m2);
  }

  lemma Leaves(m: Machine)
    ensures RunExprs([PlainOp(Next)], Code().context, m) == ExitAt(m, Fallthrough, 0)
  {
  }

  /** Flat operations copy the old eax; the expression block copies the new one. */
  lemma MovingANestedReadPastAWriteChangesIt()
    ensures RunOps(Code().ops, Code().context, Start()).Exit? && RunOps(Code().ops, Code().context, Start()).regs[EBX] == 0
    ensures
      var built := RunExprs(BuildIrExpressionBlock(Code()), Code().context, Start());
      built.Exit? && built.regs[EBX] == 5
  {
    hide RunOps, RunExprs, BuildIrExpressionBlock, Built, Start;
    RunFlat();
    Builds();
    RunBuilt();
  }
}
