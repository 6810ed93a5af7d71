/** The instructions that use the stack: each by itself, and the pairs that undo each other. */
module StackMeaning {
  import opened X86Types
  import opened Flags
  import opened Conditions
  import opened Ir
  import opened OperandMeaning
  import opened Templates
  import opened TemplateMeaning

  function Below(esp: Word): Word {
    (esp - 4) % 0x1_0000_0000
  }

  function Over(esp: Word): Word {
    (esp + 4) % 0x1_0000_0000
  }

  function Plus(a: int, b: int): Word {
    (a + b) % 0x1_0000_0000
  }

  predicate StackHolds(s: State, v: Word) {
    BytesHold(s.memory, s.regs[ESP], W32, v)
  }

  predicate InStack(s: State, address: Word) {
    address + 4 <= |s.memory|
  }

  /** The word below the stack pointer becomes the value, and the stack pointer points to it. */
  predicate Pushed(s: State, v: Word, t: State) {
    t.regs == s.regs[ESP := Below(s.regs[ESP])] && BytesBecome(s.memory, Below(s.regs[ESP]), W32, v, t.memory)
  }

  // ---------- the operations ----------

  lemma ReadReg(dst: VarId, reg: Reg, context: Context, m: Machine)
    ensures Step(Get(dst, RegStorage(reg), W32, false), context, m) == Running(m.(vars := m.vars[dst := m.regs[reg]]))
  {
    hide ReadField;
  }

  lemma WriteReg(reg: Reg, id: VarId, context: Context, m: Machine)
    requires id in m.vars
    ensures Step(Set(RegStorage(reg), Var(id), W32, false), context, m) == Running(m.(regs := m.regs[reg := m.vars[id]]))
  {
    hide WriteField;
  }

  lemma ReadStack(dst: VarId, address: VarId, context: Context, m: Machine)
    requires address in m.vars
    ensures
      var at, step := m.vars[address], Step(Get(dst, Mem(Var(address)), W32, false), context, m);
      if at + 4 <= |m.memory| then
        && step.Running? && dst in step.m.vars
        && step.m == m.(vars := m.vars[dst := step.m.vars[dst]], log := step.m.log)
        && BytesHold(m.memory, at, W32, step.m.vars[dst])
      else step == FaultAt(m, ReadAccess(at, W32))
  {
    hide ReadMemory, BytesHold;
    var at := m.vars[address];
    if at + 4 <= |m.memory| {
      BytesRead(m.memory, at, W32);
    }
  }

  lemma WriteStack(address: VarId, value: Value, context: Context, m: Machine, v: Word)
    requires address in m.vars && Eval(value, m.vars, context.nextEip) == Some(v)
    ensures
      var at, step := m.vars[address], Step(Set(Mem(Var(address)), value, W32, false), context, m);
      if at + 4 <= |m.memory| then
        step.Running? && step.m == m.(memory := step.m.memory, log := step.m.log) &&
        BytesBecome(m.memory, at, W32, v, step.m.memory)
      else step == FaultAt(m, WriteAccess(at, W32, v))
  {
    hide WriteMemory, BytesBecome;
    var at := m.vars[address];
    assert Mask32(v, W32) == v;
    if at + 4 <= |m.memory| {
      BytesWritten(m.memory, at, W32, v);
    }
  }

  lemma Adjust(dst: VarId, operator: BinaryOperator, a: VarId, context: Context, m: Machine)
    requires a in m.vars && (operator == BinAdd || operator == BinSub)
    ensures Step(ValueBinary(dst, operator, Var(a), Const(4)), context, m) ==
            Running(m.(vars := m.vars[dst := if operator == BinAdd then Over(m.vars[a]) else Below(m.vars[a])]))
  {
  }

  lemma Push32Runs(value: Value, next: VarId, context: Context, m: Machine, v: Word)
    requires Eval(value, m.vars, context.nextEip) == Some(v) && (value.Var? ==> value.id < next)
    ensures
      var n := RunSteps(Push32(value, next), context, m);
      if InStack(StateOf(m), Below(m.regs[ESP])) then
        && n.Running? && m.vars.Keys <= n.m.vars.Keys && (forall id <- m.vars :: id < next ==> n.m.vars[id] == m.vars[id])
        && n.m.flags == m.flags && Pushed(StateOf(m), v, StateOf(n.m))
      else n.Fault? && n.regs == m.committed && n.flags == m.entryFlags && n.memory == m.memory
  {
    hide Step, Below, Over, BytesBecome;
    var ops := Push32(value, next);
    ReadReg(next, ESP, context, m);
    var m1 := Step(ops[0], context, m).m;
    Adjust(next + 1, BinSub, next, context, m1);
    var m2 := Step(ops[1], context, m1).m;
    WriteStack(next + 1, value, context, m2, v);
    StepsOn(ops, context, m);
    assert ops[1..][0] == ops[1] && ops[1..][1..][0] == ops[2] && ops[1..][1..][1..][0] == ops[3];
    StepsOn(ops[1..], context, m1);
    StepsOn(ops[1..][1..], context, m2);
    if InStack(StateOf(m), Below(m.regs[ESP])) {
      var m3 := Step(ops[2], context, m2).m;
      WriteReg(ESP, next + 1, context, m3);
      StepsOn(ops[1..][1..][1..], context, m3);
      assert ops[1..][1..][1..][1..] == [];
      RunNone(context, Step(ops[3], context, m3).m);
    }
  }

  lemma Pop32Runs(context: Context, m: Machine)
    ensures
      var n := RunSteps(Pop32(), context, m);
      if InStack(StateOf(m), m.regs[ESP]) then
        && n.Running? && 1 in n.m.vars && StackHolds(StateOf(m), n.m.vars[1])
        && n.m == m.(vars := n.m.vars, log := n.m.log, regs := m.regs[ESP := Over(m.regs[ESP])])
      else n.Fault? && n.regs == m.committed && n.flags == m.entryFlags && n.memory == m.memory
  {
    hide Step, Below, Over, BytesHold;
    var ops := Pop32();
    ReadReg(0, ESP, context, m);
    var m1 := Step(ops[0], context, m).m;
    ReadStack(1, 0, context, m1);
    StepsOn(ops, context, m);
    assert ops[1..][0] == ops[1] && ops[1..][1..][0] == ops[2] && ops[1..][1..][1..][0] == ops[3];
    StepsOn(ops[1..], context, m1);
    if InStack(StateOf(m), m.regs[ESP]) {
      var m2 := Step(ops[1], context, m1).m;
      Adjust(2, BinAdd, 0, context, m2);
      var m3 := Step(ops[2], context, m2).m;
      WriteReg(ESP, 2, context, m3);
      StepsOn(ops[1..][1..], context, m2);
      StepsOn(ops[1..][1..][1..], context, m3);
      assert ops[1..][1..][1..][1..] == [];
      RunNone(context, Step(ops[3], context, m3).m);
    }
  }

  // ---------- the instructions ----------

  /** push: the operand's value is pushed; outside memory it faults and leaves everything as it was. */
  lemma PushMeans(context: Context, m: Machine, v: Word)
    requires IsOperand(context, 0, W32) && Holds(context.operands[0], W32, StateOf(m), v)
    ensures
      var outcome := RunOps(Push(), context, Begin(m));
      if InStack(StateOf(m), Below(m.regs[ESP])) then
        FallsThrough(outcome, context) && Pushed(StateOf(m), v, After(outcome)) && After(outcome).flags == m.flags
      else FaultsAsBefore(outcome, StateOf(m))
  {
    hide RunOps, RunSteps, Step, Holds, Fits, Below, BytesBecome;
    var ops := Push();
    GetMeans(0, 0, W32, false, context, Begin(m), v);
    RunOn(ops, context, Begin(m));
    assert ops[1..] == Push32(Var(0), 1) + [Next];
    var n := Step(ops[0], context, Begin(m)).m;
    Push32Runs(Var(0), 1, context, n, v);
    RunStepsAppend(Push32(Var(0), 1), [Next], context, n);
    if InStack(StateOf(m), Below(m.regs[ESP])) {
      RunNext([Next], context, RunSteps(Push32(Var(0), 1), context, n).m);
    }
  }

  /** pop: the register becomes the word on top of the stack, even when it is the stack pointer itself. */
  lemma PopMeans(context: Context, m: Machine)
    requires IsOperand(context, 0, W32) && context.operands[0].RegBinding?
    ensures
      var outcome := RunOps(Pop(), context, Begin(m));
      if InStack(StateOf(m), m.regs[ESP]) then
        && FallsThrough(outcome, context) && After(outcome).flags == m.flags
        && exists v: Word ::
             && StackHolds(StateOf(m), v)
             && Becomes(context.operands[0], W32, v, StateOf(m).(regs := m.regs[ESP := Over(m.regs[ESP])]), After(outcome))
      else FaultsAsBefore(outcome, StateOf(m))
  {
    hide RunOps, RunSteps, Becomes, Fits, Over, StackHolds;
    var tail := [Set(Operand(0), Var(1), W32, false), Next];
    Pop32Runs(context, Begin(m));
    RunStepsAppend(Pop32(), tail, context, Begin(m));
    if InStack(StateOf(m), m.regs[ESP]) {
      var n := RunSteps(Pop32(), context, Begin(m)).m;
      StoreAndEnd(1, W32, context, n, n);
      var v := n.vars[1];
      assert v % Modulus(W32) == v;
      assert StateOf(n) == StateOf(m).(regs := m.regs[ESP := Over(m.regs[ESP])]);
      assert StackHolds(StateOf(m), v);
    }
  }

  /** leave: the stack pointer becomes what the frame pointer was, plus four, and the frame pointer the word there. */
  lemma LeaveMeans(context: Context, m: Machine)
    ensures
      var outcome := RunOps(Leave(), context, Begin(m));
      if InStack(StateOf(m), m.regs[EBP]) then
        && FallsThrough(outcome, context) && After(outcome).flags == m.flags && After(outcome).memory == m.memory
        && After(outcome).regs == m.regs[ESP := Over(m.regs[EBP])][EBP := After(outcome).regs[EBP]]
        && BytesHold(m.memory, m.regs[EBP], W32, After(outcome).regs[EBP])
      else FaultsAsBefore(outcome, StateOf(m))
  {
    hide RunOps, Step, Over, BytesHold;
    var ops, m0 := Leave(), Begin(m);
    ReadReg(0, EBP, context, m0);
    var m1 := Step(ops[0], context, m0).m;
    ReadStack(1, 0, context, m1);
    RunOn(ops, context, m0);
    assert ops[1..][0] == ops[1] && ops[1..][1..] == LeaveTail();
    RunOn(ops[1..], context, m1);
    if InStack(StateOf(m), m.regs[EBP]) {
      LeaveEnds(context, Step(ops[1], context, m1).m);
    }
  }

  function LeaveTail(): seq<Op> {
    [ValueBinary(2, BinAdd, Var(0), Const(4)), Set(RegStorage(ESP), Var(2), W32, false),
     Set(RegStorage(EBP), Var(1), W32, false), Next]
  }

  lemma LeaveEnds(context: Context, m: Machine)
    requires 0 in m.vars && 1 in m.vars
    ensures
      var outcome := RunOps(LeaveTail(), context, m);
      && FallsThrough(outcome, context)
      && After(outcome) == StateOf(m).(regs := m.regs[ESP := Over(m.vars[0])][EBP := m.vars[1]])
  {
    hide RunOps, Step, Over;
    var ops := LeaveTail();
    Adjust(2, BinAdd, 0, context, m);
    var m3 := Step(ops[0], context, m).m;
    WriteReg(ESP, 2, context, m3);
    var m4 := Step(ops[1], context, m3).m;
    WriteReg(EBP, 1, context, m4);
    RunOn(ops, context, m);
    assert ops[1..][0] == ops[1] && ops[1..][1..] == [ops[2], Next] && [ops[2], Next][1..] == [Next];
    RunOn(ops[1..], context, m3);
    RunOn([ops[2], Next], context, m4);
    RunNext([Next], context, Step(ops[2], context, m4).m);
  }

  /** call: the address of the next instruction is pushed, and control goes to the operand. */
  lemma CallMeans(context: Context, m: Machine, target: Word)
    requires IsOperand(context, 0, W32) && Holds(context.operands[0], W32, StateOf(m), target)
    ensures
      var outcome := RunOps(Call(), context, Begin(m));
      if InStack(StateOf(m), Below(m.regs[ESP])) then
        && outcome.Exit? && outcome.kind == JumpExit && outcome.target == target
        && Pushed(StateOf(m), context.nextEip, After(outcome)) && After(outcome).flags == m.flags
      else FaultsAsBefore(outcome, StateOf(m))
  {
    hide RunOps, RunSteps, Step, Holds, Fits, Below, BytesBecome;
    var ops := Call();
    GetMeans(0, 0, W32, false, context, Begin(m), target);
    RunOn(ops, context, Begin(m));
    assert ops[1..] == Push32(NextEip, 1) + [Jump(Var(0))];
    var n := Step(ops[0], context, Begin(m)).m;
    Push32Runs(NextEip, 1, context, n, context.nextEip);
    RunStepsAppend(Push32(NextEip, 1), [Jump(Var(0))], context, n);
    if InStack(StateOf(m), Below(m.regs[ESP])) {
      JumpEnds(0, context, RunSteps(Push32(NextEip, 1), context, n).m);
    }
  }

  lemma JumpEnds(id: VarId, context: Context, m: Machine)
    requires id in m.vars
    ensures RunOps([Jump(Var(id))], context, m) == ExitAt(m, JumpExit, m.vars[id])
  {
  }

  /** ret: control goes to the word on top of the stack, which is popped. */
  lemma RetMeans(context: Context, m: Machine)
    ensures
      var outcome := RunOps(Ret(), context, Begin(m));
      if InStack(StateOf(m), m.regs[ESP]) then
        && outcome.Exit? && outcome.kind == JumpExit && StackHolds(StateOf(m), outcome.target)
        && After(outcome) == StateOf(m).(regs := m.regs[ESP := Over(m.regs[ESP])])
      else FaultsAsBefore(outcome, StateOf(m))
  {
    hide RunOps, RunSteps, Over, StackHolds;
    Pop32Runs(context, Begin(m));
    RunStepsAppend(Pop32(), [Jump(Var(1))], context, Begin(m));
    if InStack(StateOf(m), m.regs[ESP]) {
      JumpEnds(1, context, RunSteps(Pop32(), context, Begin(m)).m);
    }
  }

  /** ret with an operand: that many bytes are dropped as well. */
  lemma RetImmMeans(context: Context, m: Machine, bytes: Word)
    requires IsOperand(context, 0, W32) && context.operands[0] == ImmBinding(bytes)
    ensures
      var outcome := RunOps(RetImm(), context, Begin(m));
      if InStack(StateOf(m), m.regs[ESP]) then
        && outcome.Exit? && outcome.kind == JumpExit && StackHolds(StateOf(m), outcome.target)
        && After(outcome) == StateOf(m).(regs := m.regs[ESP := Plus(m.regs[ESP], 4 + bytes)])
      else FaultsAsBefore(outcome, StateOf(m))
  {
    hide RunOps, RunSteps, StackHolds, Over, Plus;
    Pop32Runs(context, Begin(m));
    RunStepsAppend(Pop32(), DropAndJump(), context, Begin(m));
    if InStack(StateOf(m), m.regs[ESP]) {
      var n := RunSteps(Pop32(), context, Begin(m)).m;
      DropRuns(context, n, bytes);
      OverThenPlus(m.regs[ESP], bytes);
    }
  }

  function DropAndJump(): seq<Op> {
    [Get(3, Operand(0), W32, false), Get(4, RegStorage(ESP), W32, false), ValueBinary(5, BinAdd, Var(4), Var(3)),
     Set(RegStorage(ESP), Var(5), W32, false), Jump(Var(1))]
  }

  lemma OverThenPlus(esp: Word, bytes: Word)
    ensures Plus(Over(esp), bytes) == Plus(esp, 4 + bytes)
  {
  }

  lemma DropRuns(context: Context, m: Machine, bytes: Word)
    requires IsOperand(context, 0, W32) && context.operands[0] == ImmBinding(bytes) && 1 in m.vars
    ensures
      var outcome := RunOps(DropAndJump(), context, m);
      && outcome.Exit? && outcome.kind == JumpExit && outcome.target == m.vars[1]
      && After(outcome) == StateOf(m).(regs := m.regs[ESP := Plus(m.regs[ESP], bytes)])
  {
    hide RunOps, Step, Plus;
    var ops := DropAndJump();
    assert Holds(context.operands[0], W32, StateOf(m), bytes);
    GetMeans(3, 0, W32, false, context, m, bytes);
    var n1 := Step(ops[0], context, m).m;
    ReadReg(4, ESP, context, n1);
    var n2 := Step(ops[1], context, n1).m;
    AddVars(5, 4, 3, context, n2);
    var n3 := Step(ops[2], context, n2).m;
    WriteReg(ESP, 5, context, n3);
    RunOn(ops, context, m);
    assert ops[1..][0] == ops[1] && ops[1..][1..][0] == ops[2] && ops[1..][1..][1..][0] == ops[3];
    assert ops[1..][1..][1..][1..] == [Jump(Var(1))];
    RunOn(ops[1..], context, n1);
    RunOn(ops[1..][1..], context, n2);
    RunOn(ops[1..][1..][1..], context, n3);
    JumpEnds(1, context, Step(ops[3], context, n3).m);
  }

  lemma AddVars(dst: VarId, a: VarId, b: VarId, context: Context, m: Machine)
    requires a in m.vars && b in m.vars
    ensures Step(ValueBinary(dst, BinAdd, Var(a), Var(b)), context, m) ==
            Running(m.(vars := m.vars[dst := Plus(m.vars[a], m.vars[b])]))
  {
  }

  // ---------- the pairs ----------

  lemma BackAgain(s: State, v: Word, t: State)
    requires Pushed(s, v, t)
    ensures StackHolds(t, v) && InStack(t, t.regs[ESP]) && t.regs[ESP := Over(t.regs[ESP])] == s.regs
    ensures forall u: Word :: StackHolds(t, u) ==> u == v
  {
    assert Over(Below(s.regs[ESP])) == s.regs[ESP];
    forall u: Word | StackHolds(t, u) ensures u == v {
      BytesAreOne(t.memory, t.regs[ESP], W32, u, v);
    }
    hide Over, Below, BytesHold;
  }

  lemma RunPair(block: Block, m: Machine, n: Machine)
    requires |block| == 2 && RunOps(block[0].ops, block[0].context, Begin(m)) == Completed(n)
    ensures RunBlock(block, m) == RunOps(block[1].ops, block[1].context, Begin(n))
  {
    hide RunOps;
    var rest := block[1..];
    assert rest[0] == block[1] && rest[1..] == [];
    assert RunBlock(block, m) == RunBlock(rest, n);
    var outcome := RunOps(rest[0].ops, rest[0].context, Begin(n));
    if outcome.Completed? {
      assert RunBlock(rest, n) == RunBlock([], outcome.m);
    }
  }

  lemma MemoryStays(binding: Binding, v: Word, s: State, t: State)
    requires binding.RegBinding? && Becomes(binding, W32, v, s, t)
    ensures t.memory == s.memory
  {
  }

  /** push and then pop: the register becomes the pushed value, and every other register is as before. */
  lemma PushThenPop(push: Context, pop: Context, m: Machine, v: Word)
    requires IsOperand(push, 0, W32) && Holds(push.operands[0], W32, StateOf(m), v) && !push.exitMode
    requires IsOperand(pop, 0, W32) && pop.operands[0].RegBinding?
    requires InStack(StateOf(m), Below(m.regs[ESP]))
    ensures
      var outcome := RunBlock([Instruction(push, Push()), Instruction(pop, Pop())], m);
      && FallsThrough(outcome, pop) && After(outcome).flags == m.flags
      && Becomes(pop.operands[0], W32, v, StateOf(m).(memory := After(outcome).memory), After(outcome))
      && BytesBecome(m.memory, Below(m.regs[ESP]), W32, v, After(outcome).memory)
  {
    hide RunOps, Holds, Fits, Below, Over, BytesBecome, PartBecomes, StackHolds, Push, Pop;
    var block := [Instruction(push, Push()), Instruction(pop, Pop())];
    PushMeans(push, m, v);
    var n := RunOps(Push(), push, Begin(m)).m;
    BackAgain(StateOf(m), v, StateOf(n));
    PopMeans(pop, n);
    RunPair(block, m, n);
    var after := After(RunOps(Pop(), pop, Begin(n)));
    var u: Word :| StackHolds(StateOf(n), u) &&
                   Becomes(pop.operands[0], W32, u, StateOf(n).(regs := n.regs[ESP := Over(n.regs[ESP])]), after);
    assert u == v;
    MemoryStays(pop.operands[0], v, StateOf(n).(regs := m.regs), after);
  }

  /** call and then ret, wherever the called code is: control comes back behind the call with the registers it had. */
  lemma CallThenRet(call: Context, ret: Context, m: Machine, n: Machine, target: Word)
    requires IsOperand(call, 0, W32) && Holds(call.operands[0], W32, StateOf(m), target)
    requires InStack(StateOf(m), Below(m.regs[ESP]))
    requires
      var called := RunOps(Call(), call, Begin(m));
      called.Exit? && StateOf(n) == After(called)
    ensures
      var returned := RunOps(Ret(), ret, Begin(n));
      && returned.Exit? && returned.kind == JumpExit && returned.target == call.nextEip
      && returned.regs == m.regs && returned.flags == m.flags && returned.memory == n.memory
  {
    hide RunOps, Holds, Fits, Below, Over, BytesBecome, StackHolds;
    CallMeans(call, m, target);
    BackAgain(StateOf(m), call.nextEip, StateOf(n));
    RetMeans(ret, n);
  }
}
