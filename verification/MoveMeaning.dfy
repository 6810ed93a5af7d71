/** What the instructions that move data do, and what a memory fault leaves. */
module MoveMeaning {
  import opened X86Types
  import opened Conditions
  import opened Ir
  import opened OperandMeaning
  import opened Templates
  import opened TemplateMeaning

  /** mov, movzx, movsx: the first operand becomes the second one, as an unsigned or a signed integer. */
  lemma MoveMeans(source: Width, signed: bool, target: Width, context: Context, m: Machine, v: Word)
    requires IsOperand(context, 1, source) && Holds(context.operands[1], source, StateOf(m), v)
    requires IsOperand(context, 0, target) && Writable(context.operands[0])
    requires InMemory(context.operands[0], target, StateOf(m))
    ensures
      var outcome := RunOps(Move(source, signed, target), context, Begin(m));
      && FallsThrough(outcome, context) && After(outcome).flags == m.flags
      && Becomes(context.operands[0], target, (if signed then Signed(v, source) else v) % Modulus(target), StateOf(m),
                 After(outcome))
  {
    hide RunOps, Step, Holds, Becomes, Fits, Signed, InMemory;
    var ops := Move(source, signed, target);
    GetMeans(0, 1, source, signed, context, Begin(m), v);
    RunOn(ops, context, Begin(m));
    assert ops[1..] == [Set(Operand(0), Var(0), target, false), Next];
    StoreAndEnd(0, target, context, m, Step(ops[0], context, Begin(m)).m);
    CutTwice(Signed(v, source), target);
  }

  /** A mov whose operand lies outside memory faults and leaves everything as it was. */
  lemma MoveFaults(source: Width, signed: bool, target: Width, context: Context, m: Machine)
    requires IsOperand(context, 1, source) && IsOperand(context, 0, target)
    requires !InMemory(context.operands[1], source, StateOf(m)) || !InMemory(context.operands[0], target, StateOf(m))
    ensures FaultsAsBefore(RunOps(Move(source, signed, target), context, Begin(m)), StateOf(m))
  {
    hide Step, Holds, Fits, Signed, InMemory;
    var ops, s := Move(source, signed, target), StateOf(m);
    RunOn(ops, context, Begin(m));
    assert ops[1..] == [Set(Operand(0), Var(0), target, false), Next];
    if InMemory(context.operands[1], source, s) {
      HoldsSome(context.operands[1], source, s);
      var v: Word :| Holds(context.operands[1], source, s, v);
      GetMeans(0, 1, source, signed, context, Begin(m), v);
      var n := Step(ops[0], context, Begin(m)).m;
      SameMemory(context.operands[0], target, StateOf(n), s);
      SetFaults(0, Var(0), target, context, n, n.vars[0]);
      RunOn(ops[1..], context, n);
    } else {
      GetFaults(0, 1, source, signed, context, Begin(m));
    }
  }

  lemma SameMemory(binding: Binding, width: Width, s: State, t: State)
    requires s.memory == t.memory && s.regs == t.regs
    ensures InMemory(binding, width, s) == InMemory(binding, width, t)
  {
  }

  /** Arithmetic, comparisons and exchanges read both operands first, and fault there or not at all. */
  lemma ReadsFault(op: AluOp, width: Width, rest: seq<Op>, context: Context, m: Machine)
    requires IsOperand(context, 0, width) && IsOperand(context, 1, width)
    requires !InMemory(context.operands[0], width, StateOf(m)) || !InMemory(context.operands[1], width, StateOf(m))
    ensures FaultsAsBefore(RunOps(AluHead(op, width) + rest, context, Begin(m)), StateOf(m))
    ensures FaultsAsBefore(RunOps(Xchg(width), context, Begin(m)), StateOf(m))
  {
    ReadsFaultFrom(AluHead(op, width) + rest, width, context, m);
    ReadsFaultFrom(Xchg(width), width, context, m);
  }

  lemma ReadsFaultFrom(ops: seq<Op>, width: Width, context: Context, m: Machine)
    requires |ops| > 1 && ops[0] == Get(0, Operand(0), width, false) && ops[1] == Get(1, Operand(1), width, false)
    requires IsOperand(context, 0, width) && IsOperand(context, 1, width)
    requires !InMemory(context.operands[0], width, StateOf(m)) || !InMemory(context.operands[1], width, StateOf(m))
    ensures FaultsAsBefore(RunOps(ops, context, Begin(m)), StateOf(m))
  {
    hide RunOps, Step, Holds, Fits, InMemory;
    var s := StateOf(m);
    RunOn(ops, context, Begin(m));
    if InMemory(context.operands[0], width, s) {
      HoldsSome(context.operands[0], width, s);
      var v: Word :| Holds(context.operands[0], width, s, v);
      GetMeans(0, 0, width, false, context, Begin(m), v);
      var n := Step(ops[0], context, Begin(m)).m;
      SameMemory(context.operands[1], width, StateOf(n), s);
      GetFaults(1, 1, width, false, context, n);
      RunOn(ops[1..], context, n);
    } else {
      GetFaults(0, 0, width, false, context, Begin(m));
    }
  }

  /** lea: the first operand becomes the address, cut to the width; memory is not touched. */
  lemma LeaMeans(width: Width, context: Context, m: Machine)
    requires IsOperand(context, 0, width) && context.operands[0].RegBinding?
    requires |context.operands| > 1 && context.operands[1].MemBinding?
    ensures
      var outcome := RunOps(Lea(width), context, Begin(m));
      && FallsThrough(outcome, context) && After(outcome).flags == m.flags
      && Becomes(context.operands[0], width, Linear(context.operands[1].ea, m.regs) % Modulus(width), StateOf(m),
                 After(outcome))
  {
    hide RunOps, Becomes, Fits, EffectiveAddress, Linear;
    var ops, ea := Lea(width), context.operands[1].ea;
    AddressIsLinear(ea, m.regs);
    assert Step(ops[0], context, Begin(m)) == Bind(Begin(m), 0, LinearAddress(ea, m.regs));
    hide Step;
    RunOn(ops, context, Begin(m));
    assert ops[1..] == [Set(Operand(0), Var(0), width, false), Next];
    StoreAndEnd(0, width, context, m, Step(ops[0], context, Begin(m)).m);
    CutTwice(Linear(ea, m.regs), width);
  }

  lemma SetIfMeans(width: Width, context: Context, m: Machine, c: Word, x: Word)
    requires IsOperand(context, 0, width) && context.operands[0].RegBinding?
    requires 0 in m.vars && m.vars[0] == x && 1 in m.vars && m.vars[1] == c
    ensures Step(SetIf(Var(1), Operand(0), Var(0), width), context, m) ==
            if c == 0 then Running(m) else Step(Set(Operand(0), Var(0), width, false), context, m)
  {
    hide StepWrite;
  }

  /** cmov: the move happens exactly under the condition; the source is read in any case. */
  lemma CmovMeans(cc: Cc, width: Width, context: Context, m: Machine, v: Word)
    requires IsOperand(context, 0, width) && context.operands[0].RegBinding?
    requires IsOperand(context, 1, width) && Holds(context.operands[1], width, StateOf(m), v)
    ensures
      var outcome := RunOps(Cmov(cc, width), context, Begin(m));
      && FallsThrough(outcome, context) && After(outcome).flags == m.flags
      && if Condition(cc, m.flags) then Becomes(context.operands[0], width, v % Modulus(width), StateOf(m), After(outcome))
         else After(outcome) == StateOf(m)
  {
    hide RunOps, Holds, Becomes, Fits, Condition;
    var ops, c: Word := Cmov(cc, width), if Condition(cc, m.flags) then 1 else 0;
    GetMeans(0, 1, width, false, context, Begin(m), v);
    RunOn(ops, context, Begin(m));
    var n := Step(ops[0], context, Begin(m)).m;
    assert ops[1..][0] == ops[1] && ops[1..][1..][0] == ops[2] && ops[1..][1..][1..] == [Next];
    var p := n.(vars := n.vars[1 := c]);
    assert Step(ops[1], context, n) == Running(p);
    SetIfMeans(width, context, p, c, v);
    hide Step;
    RunOn(ops[1..], context, n);
    RunOn(ops[1..][1..], context, p);
    if c == 0 {
      RunNext([Next], context, p);
    } else {
      var tail := [Set(Operand(0), Var(0), width, false), Next];
      RunOn(tail, context, p);
      assert tail[1..] == [Next];
      StoreAndEnd(0, width, context, m, p);
    }
  }

  /** xchg: each operand becomes what the other one held. */
  lemma XchgMeans(width: Width, context: Context, m: Machine, l: Word, r: Word)
    requires Operands(context, width, StateOf(m), l, r)
    requires Writable(context.operands[0]) && context.operands[1].RegBinding?
    ensures
      var outcome := RunOps(Xchg(width), context, Begin(m));
      && FallsThrough(outcome, context) && After(outcome).flags == m.flags
      && exists t: State :: Becomes(context.operands[0], width, r, StateOf(m), t) &&
                            Becomes(context.operands[1], width, l, t, After(outcome))
  {
    hide RunOps, Step, Holds, Becomes, Fits;
    var ops := Xchg(width);
    GetMeans(0, 0, width, false, context, Begin(m), l);
    RunOn(ops, context, Begin(m));
    var n := Step(ops[0], context, Begin(m)).m;
    GetMeans(1, 1, width, false, context, n, r);
    assert ops[1..][0] == ops[1] && ops[1..][1..][0] == ops[2] && ops[1..][1..][1..][0] == ops[3];
    assert ops[1..][1..][1..][1..] == [Next];
    RunOn(ops[1..], context, n);
    var p := Step(ops[1], context, n).m;
    HeldFits(context.operands[0], width, StateOf(m), l);
    HeldFits(context.operands[1], width, StateOf(m), r);
    HeldIsInMemory(context.operands[0], width, StateOf(m), l);
    assert StateOf(p) == StateOf(m);
    SetMeans(0, Var(1), width, context, p, r);
    RunOn(ops[1..][1..], context, p);
    var q := Step(ops[2], context, p).m;
    SetMeans(1, Var(0), width, context, q, l);
    RunOn(ops[1..][1..][1..], context, q);
    RunNext([Next], context, Step(ops[3], context, q).m);
    assert Becomes(context.operands[0], width, r, StateOf(m), StateOf(q));
  }
}
