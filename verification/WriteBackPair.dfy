/**
 Why the two passes do not always compose. A write-back sets one register to another and a second one to a register
 plus a constant; the flat code reads both registers first, but the builder moves the second read to its write.
 */
module WriteBackPair {
  import opened X86Types
  import opened Ir
  import opened RegisterValues
  import opened RegisterPropagation
  import opened Expressions
  import opened ExpressionSafety
  import ExpressionProof
  import PropagationScope

  // ---------- the code of the write-back ----------

  // first := source, second := base + offset, both read before either is written.
  datatype Pair = Pair(first: Reg, source: Reg, second: Reg, base: Reg, offset: Word)
  {
    predicate Writes() {
      first != source && first != second
    }

    function List(): Materialization {
      [RegValue(first, RegTree(source)), RegValue(second, BinaryTree(BinAdd, RegTree(base), ConstTree(offset)))]
    }

    /** The variable that holds the base. */
    function BaseVar(n: VarId): VarId {
      if source == base then n else n + 2
    }

    function Reads(n: VarId): seq<Op> {
      [Get(n, RegStorage(source), W32, false)] +
      (if source == base then [] else [Get(n + 2, RegStorage(base), W32, false)])
    }

    function Code(n: VarId): seq<Op> {
      Reads(n) +
      [ValueBinary(n + 1, BinAdd, Var(BaseVar(n)), Const(offset)),
       Set(RegStorage(first), Var(n), W32, true), Set(RegStorage(second), Var(n + 1), W32, true)]
    }
  }

  lemma EmitOne(n: VarId, reg: Reg)
    ensures EmitRef(Rewrite([], n, true), RegTree(reg)) ==
            Emission([Get(n, RegStorage(reg), W32, false)], Var(n), Rewrite([Entry(n, RegTree(reg), false)], n + 1, true))
  {
    assert Forget([], n) == [] && [] + [Entry(n, RegTree(reg), false)] == [Entry(n, RegTree(reg), false)];
  }

  lemma RecordAfter(a: Entry, b: Entry)
    requires a.id != b.id
    ensures Record([a], b.id, Known(b.tree, b.stale)) == [a, b]
  {
    assert [a][1..] == [] && Forget([], b.id) == [];
    assert [a] + [b] == [a, b];
  }

  /** The second tree, after the first has been read. */
  lemma EmitTwo(pair: Pair, n: VarId)
    ensures
      var read := Entry(n, RegTree(pair.source), false);
      var emission := EmitRef(Rewrite([read], n + 1, true), BinaryTree(BinAdd, RegTree(pair.base), ConstTree(pair.offset)));
      && [Get(n, RegStorage(pair.source), W32, false)] + emission.ops ==
         pair.Reads(n) + [ValueBinary(n + 1, BinAdd, Var(pair.BaseVar(n)), Const(pair.offset))]
      && emission.ref == Var(n + 1) && emission.rewrite.ok
  {
    var read := Entry(n, RegTree(pair.source), false);
    var tree := BinaryTree(BinAdd, RegTree(pair.base), ConstTree(pair.offset));
    var start := Rewrite([read], n + 2, true);
    assert [read][1..] == [];
    var x := EmitRef(start, RegTree(pair.base));
    if pair.source == pair.base {
      assert x == Emission([], Var(n), start);
    } else {
      assert FirstWith([read], RegTree(pair.base)).None?;
      RecordAfter(read, Entry(n + 2, RegTree(pair.base), false));
      assert x == Emission([Get(n + 2, RegStorage(pair.base), W32, false)], Var(n + 2),
                           Rewrite([read, Entry(n + 2, RegTree(pair.base), false)], n + 3, true));
    }
    assert EmitRef(x.rewrite, ConstTree(pair.offset)) == Emission([], Const(pair.offset), x.rewrite);
    var last := ValueBinary(n + 1, BinAdd, x.ref, Const(pair.offset));
    assert FirstWith([read], tree).None?;
    assert x.ops + [] + [last] == x.ops + [last];
    assert EmitRef(Rewrite([read], n + 1, true), tree).ops == x.ops + [last];
    assert [Get(n, RegStorage(pair.source), W32, false)] + (x.ops + [last]) == pair.Reads(n) + [last];
  }

  /** Propagation writes the pair back with exactly this code. */
  lemma PairEmitted(pair: Pair, n: VarId)
    requires pair.Writes()
    ensures EmitMaterialization(Rewrite([], n, true), pair.List()).0 == pair.Code(n)
    ensures EmitMaterialization(Rewrite([], n, true), pair.List()).1.ok
  {
    hide EmitRef, MarkStale, Written;
    var list, start := pair.List(), Rewrite([], n, true);
    EmitOne(n, pair.source);
    EmitTwo(pair, n);
    var here := EmitRef(start, list[0].tree);
    var rest := EmitRef(here.rewrite, list[1].tree);
    assert list[1..] == [list[1]] && list[1..][1..] == [];
    var set1, set2 := Set(RegStorage(pair.first), Var(n), W32, true), Set(RegStorage(pair.second), Var(n + 1), W32, true);
    assert EmitRefs(here.rewrite, list[1..]) == (rest.ops, [set2], rest.rewrite) by {
      assert rest.ops + [] == rest.ops && [set2] + [] == [set2];
    }
    assert [set1] + [set2] == [set1, set2];
    assert EmitRefs(start, list) == (here.ops + rest.ops, [set1, set2], rest.rewrite);
  }

  // ---------- what the builder makes of it ----------

  /** The code, followed by operations that leave its variables alone. */
  ghost predicate Begins(block: Instruction, pair: Pair, n: VarId, tail: seq<Op>) {
    && block.ops == pair.Code(n) + tail
    && forall id | n <= id <= n + 2 :: CountUses(tail, id) == 0
  }

  lemma {:induction false} CountAppend(first: seq<Op>, second: seq<Op>, id: VarId)
    ensures CountUses(first + second, id) == CountUses(first, id) + CountUses(second, id)
    decreases first
  {
    hide OpUses;
    if first == [] {
      assert first + second == second;
    } else {
      assert (first + second)[1..] == first[1..] + second;
      CountAppend(first[1..], second, id);
    }
  }

  lemma CountOne(op: Op, id: VarId)
    ensures CountUses([op], id) == OpUses(op, id)
  {
    assert [op][1..] == [];
  }

  lemma {:induction false} WrittenIsUsed(ops: seq<Op>, id: VarId)
    requires CountUses(ops, id) == 0
    ensures !ConditionallyWritten(ops, id)
    decreases ops
  {
    if ops != [] {
      WrittenIsUsed(ops[1..], id);
      assert forall op <- ops :: op == ops[0] || op in ops[1..];
    }
  }

  lemma CountCode(pair: Pair, n: VarId, id: VarId)
    requires n <= id <= n + 2
    ensures CountUses(pair.Code(n), id) ==
            (if id == n then 1 else 0) + (if id == n + 1 then 1 else 0) + (if id == pair.BaseVar(n) then 1 else 0)
  {
    hide CountUses;
    var ops := pair.Code(n);
    var bin := ValueBinary(n + 1, BinAdd, Var(pair.BaseVar(n)), Const(pair.offset));
    var set1, set2 := Set(RegStorage(pair.first), Var(n), W32, true), Set(RegStorage(pair.second), Var(n + 1), W32, true);
    var read1, read2 := Get(n, RegStorage(pair.source), W32, false), Get(n + 2, RegStorage(pair.base), W32, false);
    assert [bin, set1, set2] == [bin] + ([set1] + [set2]);
    assert pair.Reads(n) == if pair.source == pair.base then [read1] else [read1] + [read2];
    CountAppend(pair.Reads(n), [bin, set1, set2], id);
    CountAppend([read1], [read2], id);
    CountAppend([bin], [set1] + [set2], id);
    CountAppend([set1], [set2], id);
    CountOne(read1, id);
    CountOne(read2, id);
    CountOne(bin, id);
    CountOne(set1, id);
    CountOne(set2, id);
  }

  lemma Counted(block: Instruction, pair: Pair, n: VarId, tail: seq<Op>, id: VarId)
    requires Begins(block, pair, n, tail) && n <= id <= n + 2
    ensures CountUses(block.ops, id) == CountUses(pair.Code(n), id) && !ConditionallyWritten(block.ops, id)
  {
    hide CountUses;
    CountAppend(pair.Code(n), tail, id);
    WrittenIsUsed(tail, id);
    assert forall op <- block.ops :: op in pair.Code(n) || op in tail;
  }

  /** The second register's tree: the base is read where the tree ends up, unless it has a variable. */
  function SecondExpr(pair: Pair, n: VarId): Expr {
    BinaryExpr(BinAdd, if pair.source == pair.base then Ref(Var(n)) else Source(RegExpr(pair.base), W32, false),
               Ref(Const(pair.offset)))
  }

  function FirstExpr(pair: Pair, n: VarId): Expr {
    if pair.source == pair.base then Ref(Var(n)) else Source(RegExpr(pair.source), W32, false)
  }

  function Built(pair: Pair, n: VarId): seq<ExprOp> {
    (if pair.source == pair.base then [Let(n, Source(RegExpr(pair.source), W32, false))] else []) +
    [SetExpr(RegExpr(pair.first), FirstExpr(pair, n), W32, true),
     SetExpr(RegExpr(pair.second), SecondExpr(pair, n), W32, true)]
  }

  lemma BuildHead(block: Instruction, build: Build, ops: seq<Op>)
    requires ops != []
    ensures BuildFrom(block, build, ops) == BuildFrom(block, BuildOp(block, build, ops[0], ops[1..]), ops[1..])
  {
    hide BuildOp;
  }

  /** A register read whose first use comes before any write can wait. */
  lemma ReadWaits(dst: VarId, reg: Reg, rest: seq<Op>, k: nat, context: Context)
    requires k < |rest| && OpUses(rest[k], dst) > 0 && forall i | 0 <= i < k :: Target(rest[i]).None?
    ensures !CrossesBarrier(dst, RegStorage(reg), rest, context)
    decreases k
  {
    hide OpUses;
    if OpUses(rest[0], dst) == 0 {
      assert forall i | 0 <= i < k - 1 :: rest[1..][i] == rest[i + 1];
      ReadWaits(dst, reg, rest[1..], k - 1, context);
    }
  }

  /** Two different registers: both reads wait. */
  lemma BuildReads(block: Instruction, pair: Pair, n: VarId, tail: seq<Op>)
    requires Begins(block, pair, n, tail) && pair.source != pair.base
    ensures
      BuildFrom(block, Build(map[], []), block.ops) ==
      BuildFrom(block, Build(map[n := FirstExpr(pair, n), n + 1 := SecondExpr(pair, n)], []), block.ops[3..])
  {
    hide CountUses, ConditionallyWritten, CrossesBarrier, BuildFrom;
    var ops, context := block.ops, block.context;
    Counted(block, pair, n, tail, n);
    Counted(block, pair, n, tail, n + 1);
    Counted(block, pair, n, tail, n + 2);
    CountCode(pair, n, n);
    CountCode(pair, n, n + 1);
    CountCode(pair, n, n + 2);
    var read1, read2 := FirstExpr(pair, n), Source(RegExpr(pair.base), W32, false);
    var b1: Bindings := map[n := read1];
    var b2: Bindings := b1[n + 2 := read2];
    assert ops[1..][2] == ops[3] && ops[1..][0] == ops[1] && ops[1..][1] == ops[2] && ops[2..][0] == ops[2];
    ReadWaits(n, pair.source, ops[1..], 2, context);
    ReadWaits(n + 2, pair.base, ops[2..], 0, context);
    assert ops[1..][1..] == ops[2..] && ops[2..][1..] == ops[3..];
    BuildHead(block, Build(map[], []), ops);
    assert BuildOp(block, Build(map[], []), ops[0], ops[1..]) == Build(b1, []);
    BuildHead(block, Build(b1, []), ops[1..]);
    assert BuildOp(block, Build(b1, []), ops[1], ops[2..]) == Build(b2, []);
    BuildHead(block, Build(b2, []), ops[2..]);
    assert b2 - {n + 2} == b1 && AfterUse(Var(n + 2), b2) == b1;
    assert BuildOp(block, Build(b2, []), ops[2], ops[3..]) == Build(b1[n + 1 := SecondExpr(pair, n)], []);
    assert b1[n + 1 := SecondExpr(pair, n)] == map[n := read1, n + 1 := SecondExpr(pair, n)];
  }

  /** The same register twice: it is read once, into a variable. */
  lemma BuildSharedRead(block: Instruction, pair: Pair, n: VarId, tail: seq<Op>)
    requires Begins(block, pair, n, tail) && pair.source == pair.base
    ensures
      BuildFrom(block, Build(map[], []), block.ops) ==
      BuildFrom(block, Build(map[n + 1 := SecondExpr(pair, n)], [Let(n, Source(RegExpr(pair.source), W32, false))]), block.ops[2..])
  {
    hide CountUses, ConditionallyWritten, CrossesBarrier, BuildFrom;
    var ops := block.ops;
    Counted(block, pair, n, tail, n);
    Counted(block, pair, n, tail, n + 1);
    CountCode(pair, n, n);
    CountCode(pair, n, n + 1);
    var let1 := [Let(n, Source(RegExpr(pair.source), W32, false))];
    assert ops[1..][1..] == ops[2..];
    BuildHead(block, Build(map[], []), ops);
    assert BuildOp(block, Build(map[], []), ops[0], ops[1..]) == Build(map[], let1) by { assert [] + let1 == let1; }
    BuildHead(block, Build(map[], let1), ops[1..]);
    assert BuildOp(block, Build(map[], let1), ops[1], ops[2..]) == Build(map[n + 1 := SecondExpr(pair, n)], let1);
  }

  /** The two writes take their trees. */
  lemma BuildWrites(block: Instruction, pair: Pair, n: VarId, bindings: Bindings, before: seq<ExprOp>, ops: seq<Op>)
    requires ops != [] && |ops| >= 2
    requires ops[0] == Set(RegStorage(pair.first), Var(n), W32, true)
    requires ops[1] == Set(RegStorage(pair.second), Var(n + 1), W32, true)
    requires bindings == if pair.source == pair.base then map[n + 1 := SecondExpr(pair, n)]
                         else map[n := FirstExpr(pair, n), n + 1 := SecondExpr(pair, n)]
    ensures
      BuildFrom(block, Build(bindings, before), ops) ==
      BuildFrom(block, Build(map[], before + [SetExpr(RegExpr(pair.first), FirstExpr(pair, n), W32, true),
                                             SetExpr(RegExpr(pair.second), SecondExpr(pair, n), W32, true)]), ops[2..])
  {
    hide BuildFrom;
    var set1 := SetExpr(RegExpr(pair.first), FirstExpr(pair, n), W32, true);
    var set2 := SetExpr(RegExpr(pair.second), SecondExpr(pair, n), W32, true);
    var b1: Bindings := map[n + 1 := SecondExpr(pair, n)];
    BuildHead(block, Build(bindings, before), ops);
    assert AfterUse(Var(n), bindings) == b1;
    assert BuildOp(block, Build(bindings, before), ops[0], ops[1..]) == Build(b1, before + [set1]);
    BuildHead(block, Build(b1, before + [set1]), ops[1..]);
    assert ops[1..][0] == ops[1] && ops[1..][1..] == ops[2..];
    assert AfterUse(Var(n + 1), b1) == map[];
    assert before + [set1] + [set2] == before + [set1, set2];
    assert BuildOp(block, Build(b1, before + [set1]), ops[1], ops[2..]) == Build(map[], before + [set1, set2]);
  }

  /** The expression block begins with the two writes. */
  lemma PairBuilt(block: Instruction, pair: Pair, n: VarId, tail: seq<Op>)
    requires Begins(block, pair, n, tail)
    ensures BuildIrExpressionBlock(block) == Built(pair, n) + BuildFrom(block, Build(map[], []), tail).ops
  {
    hide BuildFrom, CountUses;
    var ops := block.ops;
    if pair.source == pair.base {
      BuildSharedRead(block, pair, n, tail);
      var let1 := [Let(n, Source(RegExpr(pair.source), W32, false))];
      assert ops[2..][2..] == tail;
      BuildWrites(block, pair, n, map[n + 1 := SecondExpr(pair, n)], let1, ops[2..]);
    } else {
      BuildReads(block, pair, n, tail);
      assert ops[3..][2..] == tail;
      BuildWrites(block, pair, n, map[n := FirstExpr(pair, n), n + 1 := SecondExpr(pair, n)], [], ops[3..]);
    }
    ExpressionProof.BuildAppend(block, Build(map[], Built(pair, n)), tail);
  }

  // ---------- when the code is steady ----------

  lemma SteadyHead(block: Instruction, pending: Pending, ops: seq<Op>)
    requires ops != []
    ensures SteadyFrom(block, pending, ops) <==>
            DisturbsNothing(block, pending, ops[0], ops[1..]) &&
            SteadyFrom(block, StillPending(block, pending, ops[0], ops[1..]), ops[1..])
  {
    hide DisturbsNothing, StillPending;
  }

  function SecondReads(pair: Pair): Waiting {
    Nested(if pair.source == pair.base then {} else {OfStorage(RegStorage(pair.base))})
  }

  /** What waits when the first register is written. */
  function WaitingAtWrite(pair: Pair, n: VarId): Pending {
    if pair.source == pair.base then map[n + 1 := SecondReads(pair)]
    else map[n := Direct(RegStorage(pair.source)), n + 1 := SecondReads(pair)]
  }

  lemma SteadyReads(block: Instruction, pair: Pair, n: VarId, tail: seq<Op>)
    requires Begins(block, pair, n, tail) && pair.source != pair.base
    ensures Steady(block) <==> SteadyFrom(block, WaitingAtWrite(pair, n), block.ops[3..])
  {
    hide CountUses, ConditionallyWritten, CrossesBarrier, SteadyFrom;
    var ops, context := block.ops, block.context;
    Counted(block, pair, n, tail, n);
    Counted(block, pair, n, tail, n + 1);
    Counted(block, pair, n, tail, n + 2);
    CountCode(pair, n, n);
    CountCode(pair, n, n + 1);
    CountCode(pair, n, n + 2);
    var p1: Pending := map[n := Direct(RegStorage(pair.source))];
    var p2: Pending := p1[n + 2 := Direct(RegStorage(pair.base))];
    assert ops[1..][2] == ops[3] && ops[1..][0] == ops[1] && ops[1..][1] == ops[2] && ops[2..][0] == ops[2];
    ReadWaits(n, pair.source, ops[1..], 2, context);
    ReadWaits(n + 2, pair.base, ops[2..], 0, context);
    assert ops[1..][1..] == ops[2..] && ops[2..][1..] == ops[3..];
    SteadyHead(block, map[], ops);
    assert StillPending(block, map[], ops[0], ops[1..]) == p1;
    SteadyHead(block, p1, ops[1..]);
    assert UsedUp(ops[1], p1) == {} && p1 - {} == p1;
    assert StillPending(block, p1, ops[1], ops[2..]) == p2;
    SteadyHead(block, p2, ops[2..]);
    assert UsedUp(ops[2], p2) == {n + 2} && p2 - {n + 2} == p1;
    assert ReadsIn(Var(n + 2), p2) == {OfStorage(RegStorage(pair.base))} && ReadsIn(Const(pair.offset), p2) == {};
    assert PutOff(ops[2], p2) == SecondReads(pair);
    assert StillPending(block, p2, ops[2], ops[3..]) == p1[n + 1 := SecondReads(pair)];
    assert p1[n + 1 := SecondReads(pair)] == WaitingAtWrite(pair, n);
  }

  lemma SteadySharedRead(block: Instruction, pair: Pair, n: VarId, tail: seq<Op>)
    requires Begins(block, pair, n, tail) && pair.source == pair.base
    ensures Steady(block) <==> SteadyFrom(block, WaitingAtWrite(pair, n), block.ops[2..])
  {
    hide CountUses, ConditionallyWritten, CrossesBarrier, SteadyFrom;
    var ops := block.ops;
    Counted(block, pair, n, tail, n);
    Counted(block, pair, n, tail, n + 1);
    CountCode(pair, n, n);
    CountCode(pair, n, n + 1);
    assert ops[1..][0] == ops[1] && ops[1..][1..] == ops[2..];
    SteadyHead(block, map[], ops);
    assert StillPending(block, map[], ops[0], ops[1..]) == map[];
    SteadyHead(block, map[], ops[1..]);
    assert PutOff(ops[1], map[]) == SecondReads(pair);
    assert StillPending(block, map[], ops[1], ops[2..]) == WaitingAtWrite(pair, n);
  }

  lemma SteadyWrites(block: Instruction, pair: Pair, n: VarId, ops: seq<Op>)
    requires |ops| >= 2 && pair.Writes()
    requires ops[0] == Set(RegStorage(pair.first), Var(n), W32, true)
    requires ops[1] == Set(RegStorage(pair.second), Var(n + 1), W32, true)
    ensures SteadyFrom(block, WaitingAtWrite(pair, n), ops) <==>
            pair.first != pair.base && SteadyFrom(block, map[], ops[2..])
  {
    hide SteadyFrom;
    var pending := WaitingAtWrite(pair, n);
    var left: Pending := map[n + 1 := SecondReads(pair)];
    assert ops[1..][0] == ops[1] && ops[1..][1..] == ops[2..];
    SteadyHead(block, pending, ops);
    assert StillPending(block, pending, ops[0], ops[1..]) == left;
    assert CountUses(ops[1..], n + 1) > 0;
    assert DisturbsNothing(block, pending, ops[0], ops[1..]) <==> pair.first != pair.base by {
      assert pending[n + 1] == SecondReads(pair);
      assert Hits(RegStorage(pair.first), OfStorage(RegStorage(pair.base)), block.context) <==> pair.first == pair.base;
    }
    SteadyHead(block, left, ops[1..]);
    assert StillPending(block, left, ops[1], ops[2..]) == map[];
  }

  /** The second tree must not read the first register. */
  lemma PairSteady(block: Instruction, pair: Pair, n: VarId, tail: seq<Op>)
    requires Begins(block, pair, n, tail) && pair.Writes()
    ensures Steady(block) <==> pair.first != pair.base && SteadyFrom(block, map[], tail)
  {
    hide CountUses, SteadyFrom, Steady;
    var ops := block.ops;
    if pair.source == pair.base {
      SteadySharedRead(block, pair, n, tail);
      assert ops[2..][2..] == tail;
      SteadyWrites(block, pair, n, ops[2..]);
    } else {
      SteadyReads(block, pair, n, tail);
      assert ops[3..][2..] == tail;
      SteadyWrites(block, pair, n, ops[3..]);
    }
  }

  // ---------- what the two programs do ----------

  /** Both registers written, the second from a given value of the base. */
  function BothWritten(regs: Regs, pair: Pair, base: Word): Regs {
    regs[pair.first := regs[pair.source]][pair.second := U32(base + pair.offset)]
  }

  function WithVar(m: Machine, id: VarId, value: Word): Machine {
    m.(vars := m.vars[id := value])
  }

  lemma ReadStep(dst: VarId, reg: Reg, context: Context, m: Machine)
    ensures Step(Get(dst, RegStorage(reg), W32, false), context, m) == Running(WithVar(m, dst, m.regs[reg]))
  {
  }

  lemma AddStep(dst: VarId, from: VarId, offset: Word, context: Context, m: Machine)
    requires from in m.vars
    ensures Step(ValueBinary(dst, BinAdd, Var(from), Const(offset)), context, m) ==
            Running(WithVar(m, dst, U32(m.vars[from] + offset)))
  {
  }

  lemma WriteStep(reg: Reg, value: Value, word: Word, context: Context, m: Machine)
    requires Eval(value, m.vars, context.nextEip) == Some(word)
    ensures Step(Set(RegStorage(reg), value, W32, true), context, m) ==
            Running(m.(regs := m.regs[reg := word], committed := m.committed[reg := word]))
  {
  }

  lemma RunHead(ops: seq<Op>, context: Context, m: Machine, n: Machine)
    requires ops != [] && Step(ops[0], context, m) == Running(n)
    ensures RunOps(ops, context, m) == RunOps(ops[1..], context, n)
  {
    hide Step;
  }

  lemma RunExprHead(ops: seq<ExprOp>, context: Context, m: Machine, n: Machine)
    requires ops != [] && StepExpr(ops[0], context, m) == Running(n)
    ensures RunExprs(ops, context, m) == RunExprs(ops[1..], context, n)
  {
    hide StepExpr;
  }

  /** The flat code reads the base before anything is written. */
  lemma RunFlat(pair: Pair, n: VarId, tail: seq<Op>, context: Context, m: Machine) returns (end: Machine)
    ensures RunOps(pair.Code(n) + tail, context, m) == RunOps(tail, context, end)
    ensures end == m.(regs := end.regs, committed := end.committed, vars := end.vars)
    ensures end.regs == BothWritten(m.regs, pair, m.regs[pair.base])
  {
    hide Step, RunOps, U32;
    var ops := pair.Code(n) + tail;
    ReadStep(n, pair.source, context, m);
    var m1 := WithVar(m, n, m.regs[pair.source]);
    RunHead(ops, context, m, m1);
    var m2, rest := m1, ops[1..];
    if pair.source != pair.base {
      ReadStep(n + 2, pair.base, context, m1);
      m2, rest := WithVar(m1, n + 2, m1.regs[pair.base]), ops[2..];
      assert ops[1..][1..] == ops[2..];
      RunHead(ops[1..], context, m1, m2);
    }
    AddStep(n + 1, pair.BaseVar(n), pair.offset, context, m2);
    var m3 := WithVar(m2, n + 1, U32(m.regs[pair.base] + pair.offset));
    RunHead(rest, context, m2, m3);
    WriteStep(pair.first, Var(n), m.regs[pair.source], context, m3);
    var m4 := Step(rest[1], context, m3).m;
    assert rest[1..][0] == rest[1] && rest[1..][1..] == rest[2..] && rest[2..][0] == rest[2];
    RunHead(rest[1..], context, m3, m4);
    WriteStep(pair.second, Var(n + 1), U32(m.regs[pair.base] + pair.offset), context, m4);
    end := Step(rest[2], context, m4).m;
    RunHead(rest[2..], context, m4, end);
    assert rest[2..][1..] == tail;
  }

  lemma ReadExpr(reg: Reg, context: Context, m: Machine)
    ensures EvalExpr(Source(RegExpr(reg), W32, false), context, m) == Some(m.regs[reg])
  {
  }

  lemma WriteExpr(reg: Reg, expr: Expr, word: Word, context: Context, m: Machine)
    requires EvalExpr(expr, context, m) == Some(word)
    ensures StepExpr(SetExpr(RegExpr(reg), expr, W32, true), context, m) ==
            Running(m.(regs := m.regs[reg := word], committed := m.committed[reg := word]))
  {
    hide Step, EvalExpr;
    WriteStep(reg, Const(word), word, context, m);
  }

  /** The built code reads a base that is not shared only after the first register has been written. */
  lemma RunSeparate(pair: Pair, n: VarId, more: seq<ExprOp>, context: Context, m: Machine) returns (end: Machine)
    requires pair.source != pair.base
    ensures RunExprs(Built(pair, n) + more, context, m) == RunExprs(more, context, end)
    ensures end == m.(regs := end.regs, committed := end.committed)
    ensures end.regs == BothWritten(m.regs, pair, m.regs[pair.first := m.regs[pair.source]][pair.base])
  {
    hide StepExpr, RunExprs, U32;
    var ops := Built(pair, n) + more;
    ReadExpr(pair.source, context, m);
    WriteExpr(pair.first, FirstExpr(pair, n), m.regs[pair.source], context, m);
    var m1 := StepExpr(ops[0], context, m).m;
    RunExprHead(ops, context, m, m1);
    ReadExpr(pair.base, context, m1);
    var value := U32(m1.regs[pair.base] + pair.offset);
    assert EvalExpr(SecondExpr(pair, n), context, m1) == Some(value);
    WriteExpr(pair.second, SecondExpr(pair, n), value, context, m1);
    end := StepExpr(ops[1], context, m1).m;
    assert ops[1..][0] == ops[1] && ops[1..][1..] == more;
    RunExprHead(ops[1..], context, m1, end);
  }

  // ---------- the theorem ----------

  function Alone(pair: Pair, n: VarId): Instruction {
    Instruction(Context([], 0, true), pair.Code(n) + [Next])
  }

  lemma AloneBegins(pair: Pair, n: VarId)
    ensures Begins(Alone(pair, n), pair, n, [Next])
    ensures SteadyFrom(Alone(pair, n), map[], [Next])
    ensures BuildFrom(Alone(pair, n), Build(map[], []), [Next]).ops == [PlainOp(Next)]
  {
    assert [Next][1..] == [];
  }

  lemma AloneIsValid(pair: Pair, n: VarId)
    ensures AssignsOnce(Alone(pair, n).ops, {})
    ensures forall op <- Alone(pair, n).ops :: ExpressionProof.ValidOp(op, Alone(pair, n).context)
    ensures ExpressionProof.RealAliases(Alone(pair, n).context)
  {
    AloneAssignsOnce(pair, n);
    hide AssignsOnce;
  }

  lemma AloneAssignsOnce(pair: Pair, n: VarId)
    ensures AssignsOnce(Alone(pair, n).ops, {})
  {
    var ops := Alone(pair, n).ops;
    var read1 := Get(n, RegStorage(pair.source), W32, false);
    var read2 := Get(n + 2, RegStorage(pair.base), W32, false);
    var bin := ValueBinary(n + 1, BinAdd, Var(pair.BaseVar(n)), Const(pair.offset));
    var rest := [Set(RegStorage(pair.first), Var(n), W32, true), Set(RegStorage(pair.second), Var(n + 1), W32, true), Next];
    assert ops == if pair.source == pair.base then [read1] + ([bin] + rest) else [read1] + ([read2] + ([bin] + rest));
    EffectsAssignNothing(pair, n, {n, n + 1});
    EffectsAssignNothing(pair, n, {n, n + 1, n + 2});
    AssignMore(bin, rest, {n}, {n, n + 1});
    AssignMore(bin, rest, {n, n + 2}, {n, n + 1, n + 2});
    AssignMore(read2, [bin] + rest, {n}, {n, n + 2});
    AssignMore(read1, if pair.source == pair.base then [bin] + rest else [read2] + ([bin] + rest), {}, {n});
  }

  lemma EffectsAssignNothing(pair: Pair, n: VarId, defined: set<VarId>)
    ensures AssignsOnce([Set(RegStorage(pair.first), Var(n), W32, true), Set(RegStorage(pair.second), Var(n + 1), W32, true),
                         Next], defined)
  {
    var rest := [Set(RegStorage(pair.first), Var(n), W32, true), Set(RegStorage(pair.second), Var(n + 1), W32, true), Next];
    assert forall op <- rest :: Dst(op).None?;
    PropagationScope.SetsAdd(rest, defined, 0);
  }

  lemma AssignMore(op: Op, rest: seq<Op>, defined: set<VarId>, after: set<VarId>)
    requires Dst(op).Some? && Dst(op).value !in defined && after == defined + {Dst(op).value}
    ensures AssignsOnce(rest, after) ==> AssignsOnce([op] + rest, defined)
  {
    assert ([op] + rest)[1..] == rest;
  }

  /** The flat code always leaves. */
  lemma AloneLeaves(pair: Pair, n: VarId, m: Machine)
    ensures RunOps(Alone(pair, n).ops, Alone(pair, n).context, m).Exit?
    ensures RunOps(Alone(pair, n).ops, Alone(pair, n).context, m).regs == BothWritten(m.regs, pair, m.regs[pair.base])
  {
    var end := RunFlat(pair, n, [Next], Alone(pair, n).context, m);
    assert RunOps([Next], Alone(pair, n).context, end) == ExitAt(end, Fallthrough, 0);
  }

  function OneSet(reg: Reg): Machine {
    Machine(ZeroRegs()[reg := 1], ZeroRegs()[reg := 1], {}, {}, [], map[], [])
  }

  lemma AloneBuiltLeaves(pair: Pair, n: VarId, m: Machine)
    requires pair.source != pair.base
    ensures
      var built := RunExprs(BuildIrExpressionBlock(Alone(pair, n)), Alone(pair, n).context, m);
      built.Exit? && built.regs == BothWritten(m.regs, pair, m.regs[pair.first := m.regs[pair.source]][pair.base])
  {
    hide BuildIrExpressionBlock, BuildFrom, RunExprs, Built, BothWritten;
    AloneBegins(pair, n);
    PairBuilt(Alone(pair, n), pair, n, [Next]);
    var end := RunSeparate(pair, n, [PlainOp(Next)], Alone(pair, n).context, m);
    LeavesExpr(Alone(pair, n).context, end);
  }

  lemma WrittenSecond(regs: Regs, pair: Pair, base: Word)
    ensures BothWritten(regs, pair, base)[pair.second] == U32(base + pair.offset)
  {
  }

  /** If the second tree reads the first register, it reads the new value. */
  lemma AloneBuiltWrong(pair: Pair, n: VarId)
    requires pair.Writes() && pair.first == pair.base
    ensures !SameOutcome(RunOps(Alone(pair, n).ops, Alone(pair, n).context, OneSet(pair.source)),
                         RunExprs(BuildIrExpressionBlock(Alone(pair, n)), Alone(pair, n).context, OneSet(pair.source)))
  {
    hide BuildIrExpressionBlock, RunOps, RunExprs, Alone, BothWritten;
    var m := OneSet(pair.source);
    AloneLeaves(pair, n, m);
    AloneBuiltLeaves(pair, n, m);
    WrittenSecond(m.regs, pair, m.regs[pair.base]);
    WrittenSecond(m.regs, pair, m.regs[pair.first := m.regs[pair.source]][pair.base]);
    assert m.regs[pair.base] == 0 && m.regs[pair.source] == 1;
    assert U32(0 + pair.offset) != U32(1 + pair.offset);
  }

  lemma LeavesExpr(context: Context, m: Machine)
    requires context.exitMode
    ensures RunExprs([PlainOp(Next)], context, m) == ExitAt(m, Fallthrough, context.nextEip)
  {
  }

  /**
   A write-back of two registers, as propagation emits it, is built right on every machine exactly when its flat code is
   steady, that is, exactly when the second tree does not read the first register.
   */
  lemma PairIsBuiltRightIffSteady(pair: Pair, n: VarId)
    requires pair.Writes()
    ensures (forall m: Machine :: m.vars == map[] ==>
               SameOutcome(RunOps(Alone(pair, n).ops, Alone(pair, n).context, m),
                           RunExprs(BuildIrExpressionBlock(Alone(pair, n)), Alone(pair, n).context, m))) <==>
            Steady(Alone(pair, n))
    ensures Steady(Alone(pair, n)) <==> pair.first != pair.base
  {
    hide BuildIrExpressionBlock, RunOps, RunExprs, Steady, Alone, ExpressionProof.ValidOp;
    var block := Alone(pair, n);
    AloneBegins(pair, n);
    PairSteady(block, pair, n, [Next]);
    if pair.first != pair.base {
      AloneIsValid(pair, n);
      forall m: Machine | m.vars == map[]
        ensures SameOutcome(RunOps(block.ops, block.context, m), RunExprs(BuildIrExpressionBlock(block), block.context, m))
      {
        AloneLeaves(pair, n, m);
        ExpressionProof.ExpressionsPreserveRuns(block, m);
      }
    } else {
      AloneBuiltWrong(pair, n);
      assert OneSet(pair.source).vars == map[];
    }
  }
}
