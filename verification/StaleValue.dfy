/**
 Where propagation reuses a stale value. Two instructions at the end of a block read through the stack pointer, move
 it by a constant each, and write another register, as `pop` does. The write-back of the first move leaves a variable
 recorded as "esp + step"; if the second move is by the same amount, its write-back reuses that variable although esp
 has been written in between.
 */
module StaleValue {
  import opened X86Types
  import opened Ir
  import opened RegisterValues
  import opened RegisterPropagation
  import opened PropagationSafety
  import PropagationProof
  import PropagationTheorem
  import StaleReuse

  function PopOps(reg: Reg, step: Word): seq<Op> {
    [Get(0, RegStorage(ESP), W32, false),
     Get(1, Mem(Var(0)), W32, false),
     ValueBinary(2, BinAdd, Var(0), Const(step)),
     Set(RegStorage(ESP), Var(2), W32, false),
     Set(RegStorage(reg), Var(1), W32, false),
     Next]
  }

  function PopContext(leaves: bool): Context {
    Context([], 0, leaves)
  }

  function Moved(step: Word): Tree {
    BinaryTree(BinAdd, RegTree(ESP), ConstTree(step))
  }

  function MovedValues(step: Word): Values {
    map[ESP := Moved(step)]
  }

  const EspRead: Entry := Entry(0, RegTree(ESP), false)

  function EspMoved(step: Word): Entry {
    Entry(2, Moved(step), false)
  }

  lemma {:induction false} ListedOne(step: Word, order: seq<Reg>, regs: set<Reg>)
    ensures ESP in order && ESP in regs && (forall i, j | 0 <= i < j < |order| :: order[i] != order[j]) ==>
              Listed(MovedValues(step), regs, order) == [RegValue(ESP, Moved(step))]
    ensures ESP !in order || ESP !in regs ==> Listed(MovedValues(step), regs, order) == []
  {
    if order != [] {
      forall i, j | 0 <= i < j < |order[1..]| && (forall i, j | 0 <= i < j < |order| :: order[i] != order[j])
        ensures order[1..][i] != order[1..][j]
      {
        assert order[i + 1] != order[j + 1];
      }
      ListedOne(step, order[1..], regs);
    }
  }

  lemma ClosureOfEsp(step: Word, regs: set<Reg>)
    ensures Closure(MovedValues(step), regs) == regs
  {
    assert Round(MovedValues(step), regs) == regs by {
      assert forall reg <- MovedValues(step) :: reg == ESP;
      assert forall write: Reg :: UsesReg(Moved(step), write) ==> write == ESP;
    }
  }

  lemma ListOfEsp(step: Word, regs: set<Reg>)
    ensures ListOf(MovedValues(step), regs) == if ESP in regs then [RegValue(ESP, Moved(step))] else []
    ensures Written(ListOf(MovedValues(step), regs)) == if ESP in regs then {ESP} else {}
  {
    ClosureOfEsp(step, regs);
    ListedOne(step, REG_ORDER, regs);
    assert REG_ORDER[4] == ESP;
  }

  lemma LookupTwo(a: Entry, b: Entry, id: VarId)
    ensures Lookup([a, b], id) == if a.id == id then Some(a) else if b.id == id then Some(b) else None
  {
    assert [a, b][1..] == [b] && [b][1..] == [];
    assert Lookup([b], id) == if b.id == id then Some(b) else None;
  }

  lemma AnalyzeEspWrite(step: Word, reg: Reg, leaves: bool)
    ensures
      var tracker := [EspRead, EspMoved(step)];
      AnalyzeOp(Analysis(map[], tracker, true), PopOps(reg, step)[3], PopContext(leaves), false, false) ==
      (Just(Drop), Analysis(MovedValues(step), tracker, true))
  {
    hide Dependents, Closure, ListOf, MarkStale;
    var start := Analysis(map[], [EspRead, EspMoved(step)], true);
    LookupTwo(EspRead, EspMoved(step), 2);
    var op := PopOps(reg, step)[3];
    assert ValueFor(start.tracker, op.value) == Known(Moved(step), false);
    assert RegisterOf(op.target, PopContext(leaves)) == Some(ESP);
    assert start.values[ESP := Moved(step)] == MovedValues(step);
  }

  lemma NobodyDepends(step: Word, reg: Reg)
    requires reg != ESP
    ensures Dependents(MovedValues(step), reg) == {}
  {
    assert forall r <- MovedValues(step) :: r == ESP && !UsesReg(Moved(step), reg);
  }

  lemma MarksNothing(step: Word, reg: Reg)
    requires reg != ESP
    ensures MarkStale([EspRead, EspMoved(step)], {}) == [EspRead, EspMoved(step)]
    ensures MarkStale([EspRead, EspMoved(step)], {reg}) == [EspRead, EspMoved(step)]
  {
    assert !UsesReg(Moved(step), reg);
  }

  lemma AnalyzePoppedWrite(step: Word, reg: Reg, leaves: bool)
    requires reg != ESP
    ensures
      var tracked := Analysis(MovedValues(step), [EspRead, EspMoved(step)], true);
      AnalyzeOp(tracked, PopOps(reg, step)[4], PopContext(leaves), leaves, false) == (Decision([[]], Copy, []), tracked)
  {
    hide Dependents, Closure, ListOf, MarkStale, Written;
    var tracked := Analysis(MovedValues(step), [EspRead, EspMoved(step)], true);
    var op := PopOps(reg, step)[4];
    LookupTwo(EspRead, EspMoved(step), 1);
    assert ValueFor(tracked.tracker, op.value) == Unknown;
    assert RegisterOf(op.target, PopContext(leaves)) == Some(reg);
    NobodyDepends(step, reg);
    ListOfEsp(step, {});
    ClosureOfEsp(step, {});
    MarksNothing(step, reg);
    assert AfterMaterializing(tracked, {}) == tracked;
    assert Clobber(tracked, reg) == tracked;
  }

  lemma LookupOne(a: Entry, id: VarId)
    ensures Lookup([a], id) == if a.id == id then Some(a) else None
    ensures a.id != id ==> Forget([a], id) == [a]
    ensures Forget([], id) == []
  {
    assert [a][1..] == [];
  }

  lemma RecordPopReads(step: Word, reg: Reg, context: Context)
    ensures RecordOp([], PopOps(reg, step)[0], context, map[]) == [EspRead]
    ensures RecordOp([EspRead], PopOps(reg, step)[1], context, map[]) == [EspRead]
  {
    LookupOne(EspRead, 1);
    assert [] + [EspRead] == [EspRead];
    assert Forget([], 0) == [];
    assert ValueForGet(PopOps(reg, step)[0], context, map[]) == Known(RegTree(ESP), false);
  }

  lemma RecordPopAdd(step: Word, tracker: Tracker, reg: Reg, context: Context, values: Values)
    requires ValueFor(tracker, Var(0)) == Known(RegTree(ESP), false)
    ensures RecordOp(tracker, PopOps(reg, step)[2], context, values) == Forget(tracker, 2) + [EspMoved(step)]
  {
    hide Forget, Lookup;
    assert ValueFor(tracker, Const(step)) == Known(ConstTree(step), false);
  }

  lemma AnalyzePopReads(step: Word, reg: Reg, leaves: bool)
    ensures
      var context := PopContext(leaves);
      && AnalyzeOp(Analysis(map[], [], true), PopOps(reg, step)[0], context, false, false) ==
         (Just(Copy), Analysis(map[], [EspRead], true))
      && AnalyzeOp(Analysis(map[], [EspRead], true), PopOps(reg, step)[1], context, false, false) ==
         (Just(Copy), Analysis(map[], [EspRead], true))
      && AnalyzeOp(Analysis(map[], [EspRead], true), PopOps(reg, step)[2], context, false, false) ==
         (Just(Copy), Analysis(map[], [EspRead, EspMoved(step)], true))
  {
    hide RecordOp, MarkStale, ListOf, Closure;
    RecordPopReads(step, reg, PopContext(leaves));
    LookupOne(EspRead, 0);
    LookupOne(EspRead, 2);
    RecordPopAdd(step, [EspRead], reg, PopContext(leaves), map[]);
    assert [EspRead] + [EspMoved(step)] == [EspRead, EspMoved(step)];
  }

  lemma AnalyzePopEnd(step: Word, reg: Reg, leaves: bool)
    ensures
      var tracked := Analysis(MovedValues(step), [EspRead, EspMoved(step)], true);
      var end := AnalyzeOp(tracked, Next, PopContext(leaves), false, false);
      && end.0 == Decision([], Copy, if leaves then [RegValue(ESP, Moved(step))] else [])
      && end.1.values == (if leaves then map[] else MovedValues(step)) && end.1.ok
  {
    hide Closure, ListOf, MarkStale, Written;
    ListOfEsp(step, {ESP});
    ClosureOfEsp(step, {ESP});
    assert MovedValues(step).Keys == {ESP};
  }

  function PopDecisions(step: Word, leaves: bool): seq<Decision> {
    [Just(Copy), Just(Copy), Just(Copy), Just(Drop), Decision([[]], Copy, []),
     Decision([], Copy, if leaves then [RegValue(ESP, Moved(step))] else [])]
  }

  lemma AnalyzePopTail(step: Word, reg: Reg, leaves: bool)
    requires reg != ESP
    ensures
      var added := Analysis(map[], [EspRead, EspMoved(step)], true);
      var analyzed := AnalyzeOps(PopOps(reg, step)[3..], PopContext(leaves), leaves, added);
      && analyzed.0 == PopDecisions(step, leaves)[3..]
      && analyzed.1.values == (if leaves then map[] else MovedValues(step)) && analyzed.1.ok
  {
    hide AnalyzeOp;
    var ops, context := PopOps(reg, step), PopContext(leaves);
    var added := Analysis(map[], [EspRead, EspMoved(step)], true);
    var tracked := Analysis(MovedValues(step), [EspRead, EspMoved(step)], true);
    AnalyzeEspWrite(step, reg, leaves);
    AnalyzePoppedWrite(step, reg, leaves);
    AnalyzePopEnd(step, reg, leaves);
    var o5, o4, o3 := [Next], ops[4..], ops[3..];
    assert ops[5..] == o5 && o4[1..] == o5 && o3[1..] == o4;
    AnalyzeHead(o5, context, leaves, tracked);
    AnalyzeHead(o4, context, leaves, tracked);
    AnalyzeHead(o3, context, leaves, added);
  }

  lemma AnalyzePop(step: Word, reg: Reg, leaves: bool)
    requires reg != ESP
    ensures
      var analyzed := AnalyzeOps(PopOps(reg, step), PopContext(leaves), leaves, Analysis(map[], [], true));
      && analyzed.0 == PopDecisions(step, leaves)
      && analyzed.1.values == (if leaves then map[] else MovedValues(step)) && analyzed.1.ok
  {
    hide AnalyzeOp;
    var ops, context := PopOps(reg, step), PopContext(leaves);
    var start := Analysis(map[], [], true);
    var read := Analysis(map[], [EspRead], true);
    AnalyzePopReads(step, reg, leaves);
    AnalyzePopTail(step, reg, leaves);
    var o3, o2, o1 := ops[3..], ops[2..], ops[1..];
    assert o2[1..] == o3 && o1[1..] == o2;
    var d := PopDecisions(step, leaves);
    assert d == [d[0]] + ([d[1]] + ([d[2]] + d[3..]));
    AnalyzeHead(o2, context, leaves, read);
    AnalyzeHead(o1, context, leaves, read);
    AnalyzeHead(ops, context, leaves, start);
  }

  lemma AnalyzeHead(ops: seq<Op>, context: Context, last: bool, analysis: Analysis)
    requires ops != []
    ensures
      var exitNext := |ops| > 1 && IsExit(ops[1], context);
      var blockEnd := last && |ops| == 1 && IsTerminator(ops[0]) && !IsExit(ops[0], context);
      var here := AnalyzeOp(analysis, ops[0], context, exitNext, blockEnd);
      var rest := AnalyzeOps(ops[1..], context, last, here.1);
      AnalyzeOps(ops, context, last, analysis) == ([here.0] + rest.0, rest.1)
  {
    hide AnalyzeOp, IsExit;
  }

  // ---------- what the rewrite makes of it ----------

  lemma {:induction false} ForgetAbsent(tracker: Tracker, id: VarId)
    requires forall entry <- tracker :: entry.id != id
    ensures Forget(tracker, id) == tracker
  {
    if tracker != [] { ForgetAbsent(tracker[1..], id); }
  }

  lemma {:induction false} LookupAppended(tracker: Tracker, entry: Entry)
    requires forall e <- tracker :: e.id != entry.id
    ensures Lookup(tracker + [entry], entry.id) == Some(entry)
  {
    if tracker != [] {
      assert (tracker + [entry])[1..] == tracker[1..] + [entry];
      LookupAppended(tracker[1..], entry);
    }
  }

  lemma MarkNone(tracker: Tracker, reg: Reg)
    requires forall entry <- tracker :: !UsesReg(entry.tree, reg)
    ensures MarkStale(tracker, {reg}) == tracker && MarkStale(tracker, {}) == tracker
  {
    assert forall i | 0 <= i < |tracker| :: tracker[i] in tracker;
  }

  /** Trackers that hold only the two trees of a pop, under variables the pop does not define. */
  ghost predicate Earlier(step: Word, tracker: Tracker) {
    forall entry <- tracker :: entry.id > 2 && (entry.tree == RegTree(ESP) || entry.tree == Moved(step))
  }

  lemma EmitPopReads(step: Word, rewrite: Rewrite, reg: Reg, context: Context)
    requires Earlier(step, rewrite.tracker)
    ensures
      var ops := PopOps(reg, step);
      var one := rewrite.(tracker := rewrite.tracker + [EspRead]);
      var two := rewrite.(tracker := rewrite.tracker + [EspRead, EspMoved(step)]);
      && EmitOp(rewrite, Just(Copy), ops[0], context) == ([ops[0]], one)
      && EmitOp(one, Just(Copy), ops[1], context) == ([ops[1]], one)
      && EmitOp(one, Just(Copy), ops[2], context) == ([ops[2]], two)
  {
    hide MarkStale, Forget, Lookup;
    var ops, tracker := PopOps(reg, step), rewrite.tracker;
    EmitCopy(rewrite, ops[0], context);
    EmitCopy(rewrite.(tracker := tracker + [EspRead]), ops[1], context);
    EmitCopy(rewrite.(tracker := tracker + [EspRead]), ops[2], context);
    ForgetAbsent(tracker, 0);
    ForgetAbsent(tracker + [EspRead], 1);
    ForgetAbsent(tracker + [EspRead], 2);
    LookupAppended(tracker, EspRead);
    RecordPopAdd(step, tracker + [EspRead], reg, context, map[]);
    assert tracker + [EspRead] + [EspMoved(step)] == tracker + [EspRead, EspMoved(step)];
  }

  lemma EmitCopy(rewrite: Rewrite, op: Op, context: Context)
    ensures EmitOp(rewrite, Just(Copy), op, context) == EmitAction(rewrite, Copy, op, context)
    ensures Writes(op, context) == {} ==>
              EmitOp(rewrite, Just(Copy), op, context) ==
              ([op], rewrite.(tracker := RecordOp(rewrite.tracker, op, context, map[])))
  {
    hide RecordOp;
    var after := RecordOp(rewrite.tracker, op, context, map[]);
    EmitsNothing(rewrite);
    EmitsNothing(EmitAction(rewrite, Copy, op, context).1);
    assert MarkStale(after, {}) == after;
    assert [] + [op] + [] == [op] && [] + [] + [op] == [op];
  }

  lemma EmitsNothing(rewrite: Rewrite)
    ensures EmitMaterialization(rewrite, []) == ([], rewrite)
    ensures EmitMaterializations(rewrite, []) == ([], rewrite)
    ensures EmitMaterializations(rewrite, [[]]) == ([], rewrite)
  {
    assert MarkStale(rewrite.tracker, {}) == rewrite.tracker;
    var refs := EmitRefs(rewrite, []);
    assert refs.0 + refs.1 == [] && Written([]) == {};
    var lists: seq<Materialization> := [[]];
    assert lists[1..] == [];
    var nothing: seq<Op> := [];
    assert nothing + nothing == nothing;
  }

  lemma EmitPopWrites(step: Word, rewrite: Rewrite, reg: Reg, context: Context)
    requires forall entry <- rewrite.tracker :: entry.tree == RegTree(ESP) || entry.tree == Moved(step)
    requires reg != ESP
    ensures EmitOp(rewrite, Just(Drop), PopOps(reg, step)[3], context) == ([], rewrite)
    ensures EmitOp(rewrite, Decision([[]], Copy, []), PopOps(reg, step)[4], context) == ([PopOps(reg, step)[4]], rewrite)
  {
    hide MarkStale, EmitMaterialization, EmitMaterializations;
    var op := PopOps(reg, step)[4];
    EmitsNothing(rewrite);
    MarkNone(rewrite.tracker, reg);
    assert EmitAction(rewrite, Copy, op, context) == ([op], rewrite);
    assert [] + [op] + [] == [op];
    var nothing: seq<Op> := [];
    assert nothing + nothing + nothing == nothing;
  }

  function MoveBack(step: Word): Materialization {
    [RegValue(ESP, Moved(step))]
  }

  /** The variables that the write-back at the start of the second pop leaves behind. */
  function Leftover(step: Word): Tracker {
    [Entry(4, RegTree(ESP), true), Entry(3, Moved(step), true)]
  }

  function EntryCode(step: Word): seq<Op> {
    [Get(4, RegStorage(ESP), W32, false), ValueBinary(3, BinAdd, Var(4), Const(step)), Set(RegStorage(ESP), Var(3), W32, true)]
  }

  lemma EmitEntryRef(step: Word)
    ensures EmitRef(Rewrite([], 3, true), Moved(step)) ==
            Emission([Get(4, RegStorage(ESP), W32, false), ValueBinary(3, BinAdd, Var(4), Const(step))], Var(3),
                     Rewrite([Entry(4, RegTree(ESP), false), Entry(3, Moved(step), false)], 5, true))
  {
    var inner := Rewrite([], 4, true);
    var first := Entry(4, RegTree(ESP), false);
    assert Forget([], 4) == [] && [] + [first] == [first];
    assert EmitRef(inner, RegTree(ESP)) == Emission([Get(4, RegStorage(ESP), W32, false)], Var(4), Rewrite([first], 5, true));
    assert EmitRef(Rewrite([first], 5, true), ConstTree(step)) == Emission([], Const(step), Rewrite([first], 5, true));
    LookupOne(first, 3);
    assert [first] + [Entry(3, Moved(step), false)] == [first, Entry(3, Moved(step), false)];
  }

  lemma EmitWriteBack(step: Word, rewrite: Rewrite)
    ensures
      var emission := EmitRef(rewrite, Moved(step));
      EmitMaterialization(rewrite, MoveBack(step)) ==
      (emission.ops + [Set(RegStorage(ESP), emission.ref, W32, true)],
       emission.rewrite.(tracker := MarkStale(emission.rewrite.tracker, {ESP})))
  {
    hide EmitRef, MarkStale;
    var emission := EmitRef(rewrite, Moved(step));
    assert MoveBack(step)[1..] == [];
    assert emission.ops + [] == emission.ops;
    var sets := [Set(RegStorage(ESP), emission.ref, W32, true)];
    assert sets + [] == sets;
    assert EmitRefs(rewrite, MoveBack(step)) == (emission.ops, sets, emission.rewrite);
    assert Written(MoveBack(step)) == {ESP};
  }

  lemma EmitEntry(step: Word)
    ensures EmitMaterialization(Rewrite([], 3, true), MoveBack(step)) == (EntryCode(step), Rewrite(Leftover(step), 5, true))
  {
    hide EmitRef;
    EmitEntryRef(step);
    EmitWriteBack(step, Rewrite([], 3, true));
    assert EmitRef(Rewrite([], 3, true), Moved(step)).ops + [Set(RegStorage(ESP), Var(3), W32, true)] == EntryCode(step);
    var fresh2 := [Entry(4, RegTree(ESP), false), Entry(3, Moved(step), false)];
    assert MarkStale(fresh2, {ESP}) == Leftover(step) by {
      assert UsesReg(RegTree(ESP), ESP) && UsesReg(Moved(step), ESP);
    }
  }

  /** The second write-back picks the leftover variable, which holds the stack pointer after the first pop. */
  lemma EmitPopEnd(step: Word, context: Context)
    ensures
      var rewrite := Rewrite(Leftover(step) + [EspRead, EspMoved(step)], 5, true);
      var code := EmitOp(rewrite, Decision([], Copy, MoveBack(step)), Next, context);
      code.0 == [Set(RegStorage(ESP), Var(3), W32, true), Next] && !code.1.ok
  {
    hide MarkStale;
    var tracker := Leftover(step) + [EspRead, EspMoved(step)];
    var rewrite := Rewrite(tracker, 5, true);
    assert tracker[0].tree == RegTree(ESP) && tracker[1..][0] == Entry(3, Moved(step), true);
    assert FirstWith(tracker[1..], Moved(step)) == Some(Entry(3, Moved(step), true));
    assert EmitRef(rewrite, Moved(step)) == Emission([], Var(3), rewrite.(ok := false));
    EmitWriteBack(step, rewrite);
    EmitsNothing(rewrite);
    var set3 := Set(RegStorage(ESP), Var(3), W32, true);
    assert [] + [set3] == [set3];
    assert [] + [set3] + [Next] == [set3, Next];
  }

  lemma EmitContinue(rewrite: Rewrite, context: Context)
    ensures EmitOp(rewrite, Decision([], Copy, []), Next, context) == ([Next], rewrite)
  {
    EmitCopy(rewrite, Next, context);
  }

  function FirstPop(step: Word): seq<Op> {
    var ops := PopOps(EBX, step);
    [ops[0], ops[1], ops[2], ops[4], Next]
  }

  function SecondPop(step: Word): seq<Op> {
    var ops := PopOps(EAX, step);
    [ops[0], ops[1], ops[2], ops[4], Set(RegStorage(ESP), Var(3), W32, true), Next]
  }

  lemma EmitHead(rewrite: Rewrite, decisions: seq<Decision>, ops: seq<Op>, context: Context)
    requires |decisions| == |ops| && ops != []
    ensures
      var here := EmitOp(rewrite, decisions[0], ops[0], context);
      var rest := EmitOps(here.1, decisions[1..], ops[1..], context);
      EmitOps(rewrite, decisions, ops, context) == (here.0 + rest.0, rest.1)
  {
    hide EmitOp;
  }

  lemma EmitPopTail(step: Word, reg: Reg, leaves: bool, rewrite: Rewrite)
    requires reg != ESP
    requires forall entry <- rewrite.tracker :: entry.tree == RegTree(ESP) || entry.tree == Moved(step)
    ensures
      var context, ops, d := PopContext(leaves), PopOps(reg, step), PopDecisions(step, leaves);
      var end := EmitOp(rewrite, d[5], Next, context);
      EmitOps(rewrite, d[3..], ops[3..], context) == ([ops[4]] + end.0, end.1)
  {
    hide EmitOp;
    var context, ops, d := PopContext(leaves), PopOps(reg, step), PopDecisions(step, leaves);
    EmitPopWrites(step, rewrite, reg, context);
    var end := EmitOp(rewrite, d[5], Next, context);
    assert ops[5..][1..] == [] && d[5..][1..] == [];
    assert ops[4..][1..] == ops[5..] && ops[3..][1..] == ops[4..];
    assert d[4..][1..] == d[5..] && d[3..][1..] == d[4..];
    assert end.0 + [] == end.0;
    EmitHead(rewrite, d[5..], ops[5..], context);
    EmitHead(rewrite, d[4..], ops[4..], context);
    EmitHead(rewrite, d[3..], ops[3..], context);
    var c3 := [ops[4]] + end.0;
    assert [] + c3 == c3;
  }

  lemma EmitPop(step: Word, reg: Reg, leaves: bool, earlier: Tracker, next: VarId)
    requires reg != ESP && Earlier(step, earlier)
    ensures
      var context, ops := PopContext(leaves), PopOps(reg, step);
      var before := Rewrite(earlier + [EspRead, EspMoved(step)], next, true);
      var code := EmitOps(Rewrite(earlier, next, true), PopDecisions(step, leaves), ops, context);
      var end := EmitOp(before, PopDecisions(step, leaves)[5], Next, context);
      code == ([ops[0], ops[1], ops[2], ops[4]] + end.0, end.1)
  {
    hide EmitOp, EmitOps;
    var context, ops, d := PopContext(leaves), PopOps(reg, step), PopDecisions(step, leaves);
    var start := Rewrite(earlier, next, true);
    var one := Rewrite(earlier + [EspRead], next, true);
    var two := Rewrite(earlier + [EspRead, EspMoved(step)], next, true);
    EmitPopReads(step, start, reg, context);
    EmitPopTail(step, reg, leaves, two);
    var end := EmitOp(two, d[5], Next, context);
    assert ops[2..][1..] == ops[3..] && ops[1..][1..] == ops[2..];
    assert d[2..][1..] == d[3..] && d[1..][1..] == d[2..];
    var c3 := [ops[4]] + end.0;
    EmitRest(one, two, d[2..], ops[2..], context, [ops[2]], c3, end.1);
    EmitRest(one, one, d[1..], ops[1..], context, [ops[1]], [ops[2]] + c3, end.1);
    EmitRest(start, one, d, ops, context, [ops[0]], [ops[1]] + ([ops[2]] + c3), end.1);
    assert [ops[0]] + ([ops[1]] + ([ops[2]] + c3)) == [ops[0], ops[1], ops[2], ops[4]] + end.0;
  }

  lemma EmitRest(
      rewrite: Rewrite, middle: Rewrite, decisions: seq<Decision>, ops: seq<Op>, context: Context, here: seq<Op>,
      rest: seq<Op>, end: Rewrite)
    requires |decisions| == |ops| && ops != []
    requires EmitOp(rewrite, decisions[0], ops[0], context) == (here, middle)
    requires EmitOps(middle, decisions[1..], ops[1..], context) == (rest, end)
    ensures EmitOps(rewrite, decisions, ops, context) == (here + rest, end)
  {
    hide EmitOp;
  }

  // ---------- what the two programs do ----------

  function PopPop(first: Word, second: Word): Block {
    [Instruction(PopContext(false), PopOps(EBX, first)), Instruction(PopContext(true), PopOps(EAX, second))]
  }

  function PopPopPropagated(step: Word): Block {
    [Instruction(PopContext(false), FirstPop(step)), Instruction(PopContext(true), EntryCode(step) + SecondPop(step))]
  }

  lemma PopsFault(step: Word, reg: Reg, leaves: bool)
    ensures AnyFault(PopOps(reg, step), PopContext(leaves))
  {
    assert PopOps(reg, step)[1] in PopOps(reg, step);
    assert CanFault(PopOps(reg, step)[1], []);
  }

  lemma PopVariables(step: Word, reg: Reg)
    ensures NextVarId(PopOps(reg, step)) == 3
  {
    var ops := PopOps(reg, step);
    assert ops[5..] == [Next] && ops[5..][1..] == [];
    assert ops[4..][1..] == ops[5..] && ops[3..][1..] == ops[4..] && ops[2..][1..] == ops[3..] && ops[1..][1..] == ops[2..];
    assert NextVarId(ops[5..]) == 0 && NextVarId(ops[4..]) == 0 && NextVarId(ops[3..]) == 0;
    assert NextVarId(ops[2..]) == 3 && NextVarId(ops[1..]) == 3;
  }

  lemma NothingToFlush()
    ensures All(Analysis(map[], [], true)) == [] && Flushed(Analysis(map[], [], true)) == Analysis(map[], [], true)
  {
    EmptyListed(Closure(map[], {}), REG_ORDER);
    assert Round(map[], {}) == {};
    assert MarkStale([], Written([])) == [];
    var nothing: Values := map[];
    assert nothing.Keys == {} && nothing - {} == nothing;
  }

  lemma {:induction false} EmptyListed(regs: set<Reg>, order: seq<Reg>)
    ensures Listed(map[], regs, order) == []
  {
    if order != [] { EmptyListed(regs, order[1..]); }
  }

  lemma FlushesEsp(step: Word)
    ensures All(Analysis(MovedValues(step), [], true)) == MoveBack(step)
    ensures Flushed(Analysis(MovedValues(step), [], true)) == Analysis(map[], [], true)
  {
    hide Closure, ListOf, Written;
    assert MovedValues(step).Keys == {ESP};
    ListOfEsp(step, {ESP});
    ClosureOfEsp(step, {ESP});
    assert MovedValues(step) - {ESP} == map[];
    assert MarkStale([], {ESP}) == [];
  }

  lemma PropagatesFirst(step: Word)
    ensures PropagateInstruction(PopPop(step, step)[0], false, map[]) == Propagated(PopPopPropagated(step)[0], MovedValues(step), true)
  {
    hide AnalyzeOps, EmitOps, EmitMaterialization, All, Flushed, AnyFault, NextVarId, EmitOp;
    PopsFault(step, EBX, false);
    PopVariables(step, EBX);
    NothingToFlush();
    AnalyzePop(step, EBX, false);
    EmitsNothing(Rewrite([], 3, true));
    EmitPop(step, EBX, false, [], 3);
    EmitContinue(Rewrite([EspRead, EspMoved(step)], 3, true), PopContext(false));
    var start: Tracker := [];
    assert start + [EspRead, EspMoved(step)] == [EspRead, EspMoved(step)];
    var ops := PopOps(EBX, step);
    assert [ops[0], ops[1], ops[2], ops[4]] + [Next] == FirstPop(step);
    assert [] + FirstPop(step) == FirstPop(step);
  }

  lemma PropagatesSecond(step: Word)
    ensures
      var after := PropagateInstruction(PopPop(step, step)[1], true, MovedValues(step));
      after.instruction == PopPopPropagated(step)[1] && !after.ok
  {
    hide AnalyzeOps, EmitOps, EmitMaterialization, All, Flushed, AnyFault, NextVarId, EmitOp;
    PopsFault(step, EAX, true);
    PopVariables(step, EAX);
    FlushesEsp(step);
    AnalyzePop(step, EAX, true);
    EmitEntry(step);
    EmitPop(step, EAX, true, Leftover(step), 5);
    EmitPopEnd(step, PopContext(true));
    var ops := PopOps(EAX, step);
    assert [ops[0], ops[1], ops[2], ops[4]] + [Set(RegStorage(ESP), Var(3), W32, true), Next] == SecondPop(step);
  }

  lemma PropagatesBoth(step: Word)
    ensures PropagateBlock(PopPop(step, step), map[]) == (PopPopPropagated(step), false)
  {
    hide PropagateInstruction, EntryCode, SecondPop, FirstPop, PopOps;
    PropagatesFirst(step);
    PropagatesSecond(step);
    var block := PopPop(step, step);
    assert block[1..] == [block[1]] && block[1..][1..] == [];
    var second := PropagateInstruction(block[1], true, MovedValues(step));
    assert PropagateBlock(block[1..], MovedValues(step)) == ([second.instruction] + [], false);
    assert [second.instruction] + [] == [second.instruction];
    var code := PopPopPropagated(step);
    assert [code[0]] + [code[1]] == code;
  }

  /** Registers zero, and enough memory for both reads. */
  function Start(step: Word): Machine {
    Machine(ZeroRegs(), ZeroRegs(), {}, {}, seq(step + 4, _ => 0), map[], [])
  }

  lemma RunHead(ops: seq<Op>, context: Context, m: Machine, n: Machine)
    requires ops != [] && Step(ops[0], context, m) == Running(n)
    ensures RunOps(ops, context, m) == RunOps(ops[1..], context, n)
  {
    hide Step;
  }

  lemma ReadEsp(dst: VarId, context: Context, m: Machine)
    ensures Step(Get(dst, RegStorage(ESP), W32, false), context, m) == Bind(m, dst, m.regs[ESP])
  {
  }

  lemma ReadStack(context: Context, m: Machine, address: Word)
    requires 0 in m.vars && m.vars[0] == address && InBounds(m.memory, address, W32)
    ensures
      var step := Step(Get(1, Mem(Var(0)), W32, false), context, m);
      step.Running? && 1 in step.m.vars && step.m == m.(vars := m.vars[1 := step.m.vars[1]], log := step.m.log)
  {
    hide ReadMemory;
  }

  lemma AddStep(step: Word, dst: VarId, source: VarId, context: Context, m: Machine, value: Word)
    requires source in m.vars && m.vars[source] == value
    ensures Step(ValueBinary(dst, BinAdd, Var(source), Const(step)), context, m) == Bind(m, dst, U32(value + step))
  {
  }

  lemma WriteReg(reg: Reg, source: VarId, role: bool, context: Context, m: Machine)
    requires source in m.vars
    ensures
      var step := Step(Set(RegStorage(reg), Var(source), W32, role), context, m);
      step.Running? && step.m == m.(regs := step.m.regs, committed := step.m.committed)
      && step.m.regs == m.regs[reg := m.vars[source]]
  {
  }

  /** The reads that begin every pop, original or propagated. */
  lemma RunPopReads(step: Word, ops: seq<Op>, context: Context, m: Machine, esp: Word) returns (n: Machine)
    requires |ops| >= 3 && ops[..3] == PopOps(EAX, step)[..3]
    requires m.regs[ESP] == esp && InBounds(m.memory, esp, W32)
    ensures RunOps(ops, context, m) == RunOps(ops[3..], context, n)
    ensures n.regs == m.regs && n.memory == m.memory
    ensures 1 in n.vars && 2 in n.vars && n.vars[2] == U32(esp + step) && (3 in m.vars ==> 3 in n.vars && n.vars[3] == m.vars[3])
  {
    hide Step, RunOps, U32;
    var m1 := m.(vars := m.vars[0 := esp]);
    ReadEsp(0, context, m);
    assert ops[0] == ops[..3][0] && ops[1] == ops[..3][1] && ops[2] == ops[..3][2];
    RunHead(ops, context, m, m1);
    ReadStack(context, m1, esp);
    var m2 := Step(ops[1], context, m1).m;
    RunHead(ops[1..], context, m1, m2);
    n := m2.(vars := m2.vars[2 := U32(esp + step)]);
    AddStep(step, 2, 0, context, m2, esp);
    assert ops[1..][1..] == ops[2..] && ops[2..][1..] == ops[3..];
    RunHead(ops[2..], context, m2, n);
  }

  /** How an instruction that ends in `next` finishes. */
  ghost predicate Ends(outcome: Outcome, leaves: bool, regs: Regs, memory: seq<Byte>) {
    if leaves then outcome.Exit? && outcome.regs == regs
    else outcome.Completed? && outcome.m.regs == regs && outcome.m.memory == memory
  }

  lemma RunNext(leaves: bool, m: Machine)
    ensures Ends(RunOps([Next], PopContext(leaves), m), leaves, m.regs, m.memory)
  {
  }

  lemma WriteThenRun(ops: seq<Op>, reg: Reg, source: VarId, role: bool, context: Context, m: Machine) returns (n: Machine)
    requires ops != [] && ops[0] == Set(RegStorage(reg), Var(source), W32, role) && source in m.vars
    ensures RunOps(ops, context, m) == RunOps(ops[1..], context, n)
    ensures n.regs == m.regs[reg := m.vars[source]] && n.vars == m.vars && n.memory == m.memory
  {
    hide Step, RunOps;
    WriteReg(reg, source, role, context, m);
    n := Step(ops[0], context, m).m;
    RunHead(ops, context, m, n);
  }

  lemma RunOriginal(step: Word, reg: Reg, leaves: bool, m: Machine, esp: Word) returns (regs: Regs)
    requires reg != ESP && m.regs[ESP] == esp && InBounds(m.memory, esp, W32)
    ensures Ends(RunOps(PopOps(reg, step), PopContext(leaves), Begin(m)), leaves, regs, m.memory)
    ensures regs[ESP] == U32(esp + step)
  {
    hide Step, RunOps, U32, Ends;
    var ops, context := PopOps(reg, step), PopContext(leaves);
    var n := RunPopReads(step, ops, context, Begin(m), esp);
    var n1 := WriteThenRun(ops[3..], ESP, 2, false, context, n);
    var n2 := WriteThenRun(ops[4..], reg, 1, false, context, n1);
    assert ops[3..][1..] == ops[4..] && ops[4..][1..] == [Next];
    RunNext(leaves, n2);
    regs := n2.regs;
  }

  lemma RunFirst(step: Word, m: Machine, esp: Word) returns (regs: Regs)
    requires m.regs[ESP] == esp && InBounds(m.memory, esp, W32)
    ensures Ends(RunOps(FirstPop(step), PopContext(false), Begin(m)), false, regs, m.memory)
    ensures regs[ESP] == esp
  {
    hide Step, RunOps, U32, Ends;
    var ops, context := FirstPop(step), PopContext(false);
    var n := RunPopReads(step, ops, context, Begin(m), esp);
    var n1 := WriteThenRun(ops[3..], EBX, 1, false, context, n);
    assert ops[3..][1..] == [Next];
    RunNext(false, n1);
    regs := n1.regs;
  }

  /** The second stack pointer update is lost: esp is written back from the leftover variable. */
  lemma RunSecond(step: Word, m: Machine, esp: Word) returns (regs: Regs)
    requires m.regs[ESP] == esp && InBounds(m.memory, U32(esp + step), W32)
    ensures Ends(RunOps(EntryCode(step) + SecondPop(step), PopContext(true), Begin(m)), true, regs, m.memory)
    ensures regs[ESP] == U32(esp + step)
  {
    hide Step, RunOps, U32, Ends;
    var ops, context, begun := EntryCode(step) + SecondPop(step), PopContext(true), Begin(m);
    ReadEsp(4, context, begun);
    var m1 := begun.(vars := begun.vars[4 := esp]);
    RunHead(ops, context, begun, m1);
    AddStep(step, 3, 4, context, m1, esp);
    var m2 := m1.(vars := m1.vars[3 := U32(esp + step)]);
    RunHead(ops[1..], context, m1, m2);
    var m3 := WriteThenRun(ops[2..], ESP, 3, true, context, m2);
    assert ops[1..][1..] == ops[2..] && ops[2..][1..] == SecondPop(step);
    var n := RunPopReads(step, SecondPop(step), context, m3, U32(esp + step));
    var last := SecondPop(step);
    var n1 := WriteThenRun(last[3..], EAX, 1, false, context, n);
    var n2 := WriteThenRun(last[4..], ESP, 3, true, context, n1);
    assert last[3..][1..] == last[4..] && last[4..][1..] == [Next];
    RunNext(true, n2);
    regs := n2.regs;
  }

  lemma RunTwo(block: Block, m: Machine)
    requires |block| == 2
    ensures
      var first := RunOps(block[0].ops, block[0].context, Begin(m));
      first.Completed? ==>
        var second := RunOps(block[1].ops, block[1].context, Begin(first.m));
        second.Exit? ==> RunBlock(block, m) == second
  {
    hide RunOps;
    assert block[1..][0] == block[1] && block[1..][1..] == [];
  }

  lemma PoppingTwice(step: Word)
    ensures RunBlock(PopPop(step, step), Start(step)).Exit?
    ensures RunBlock(PopPop(step, step), Start(step)).regs[ESP] == U32(step + step)
  {
    hide RunOps, RunBlock, Step, PopOps;
    var m := Start(step);
    var regs1 := RunOriginal(step, EBX, false, m, 0);
    var middle := RunOps(PopOps(EBX, step), PopContext(false), Begin(m)).m;
    var regs2 := RunOriginal(step, EAX, true, middle, step);
    RunTwo(PopPop(step, step), m);
  }

  lemma PoppingTwicePropagated(step: Word)
    ensures RunBlock(PopPopPropagated(step), Start(step)).Exit?
    ensures RunBlock(PopPopPropagated(step), Start(step)).regs[ESP] == step
  {
    hide RunOps, RunBlock, Step, FirstPop, SecondPop, EntryCode;
    var m := Start(step);
    var regs3 := RunFirst(step, m, 0);
    var between := RunOps(FirstPop(step), PopContext(false), Begin(m)).m;
    var regs4 := RunSecond(step, between, 0);
    RunTwo(PopPopPropagated(step), m);
  }

  /** Moving twice by the same amount should move twice as far; the propagated block moves only once. */
  lemma ReusingAStaleValueLosesAnUpdate(step: Word)
    ensures RunBlock(PopPop(step, step), Start(step)).Exit?
    ensures RunBlock(PopPop(step, step), Start(step)).regs[ESP] == U32(step + step)
    ensures
      var propagated := RunBlock(PropagateBlock(PopPop(step, step), map[]).0, Start(step));
      propagated.Exit? && propagated.regs[ESP] == step
  {
    hide RunOps, RunBlock, PropagateBlock, Step, PopPop, PopPopPropagated, Start;
    PoppingTwice(step);
    PropagatesBoth(step);
    PoppingTwicePropagated(step);
  }

  // ---------- when the two moves differ ----------

  lemma CarryMove(held: Held, reg: Reg, step: Word, context: Context)
    requires reg != ESP && forall tree <- held :: !UsesReg(tree, reg)
    ensures
      var ops, read := PopOps(reg, step), Analysis(map[], [EspRead], true);
      && CarryOp(held, Just(Copy), ops[0], context, Analysis(map[], [], true)) ==
         Walk(Holding(held, RegTree(ESP), false), true)
      && CarryOp(held, Just(Copy), ops[1], context, read) == Walk(held, true)
      && CarryOp(held, Just(Copy), ops[2], context, read) == Walk(Holding(held, Moved(step), false), true)
  {
    hide Holding;
    StaleReuse.WriteBackNothing(held);
    StaleReuse.WriteBackNothing(Holding(held, RegTree(ESP), false));
    StaleReuse.WriteBackNothing(Holding(held, Moved(step), false));
    LookupOne(EspRead, 0);
    assert ValueFor([EspRead], Const(step)) == Known(ConstTree(step), false);
  }

  lemma CarryMoveWrites(held: Held, reg: Reg, step: Word, context: Context)
    requires reg != ESP && forall tree <- held :: !UsesReg(tree, reg)
    ensures
      var ops, tracker := PopOps(reg, step), [EspRead, EspMoved(step)];
      && CarryOp(held, Just(Drop), ops[3], context, Analysis(map[], tracker, true)) == Walk(held, true)
      && CarryOp(held, Decision([[]], Copy, []), ops[4], context, Analysis(MovedValues(step), tracker, true)) ==
         Walk(held, true)
  {
    hide WriteBack;
    StaleReuse.WriteBackNothing(held);
    LookupTwo(EspRead, EspMoved(step), 2);
    var lists: seq<Materialization> := [[]];
    assert lists[1..] == [];
    assert AfterWriting(held, {reg}) == held;
  }

  lemma CarryMoveEnd(held: Held, step: Word, leaves: bool, analysis: Analysis)
    requires leaves ==> Moved(step) in held
    ensures
      var decision := Decision([], Copy, if leaves then [RegValue(ESP, Moved(step))] else []);
      CarryOp(held, decision, Next, PopContext(leaves), analysis).ok <==> (leaves ==> !held[Moved(step)])
  {
    StaleReuse.WriteBackNothing(held);
    if leaves {
      var list := [RegValue(ESP, Moved(step))];
      assert list[1..] == [];
      assert NeedAll(held, list) == Walk(Need(held, Moved(step)).held, Need(held, Moved(step)).ok);
    }
  }

  function HeldAfterMove(held: Held, step: Word): Held {
    Holding(Holding(held, RegTree(ESP), false), Moved(step), false)
  }

  /** Both walks, one operation further. */
  lemma WalkHead(ops: seq<Op>, context: Context, last: bool, analysis: Analysis, held: Held, clean: bool)
    requires ops != []
    ensures
      var here := DecisionFor(ops, context, last, analysis);
      var walk := CarryOp(held, here.0, ops[0], context, analysis);
      ReusesNothingStaleFrom(ops, context, last, analysis, held) ==
      (walk.ok && ReusesNothingStaleFrom(ops[1..], context, last, here.1, walk.held))
    ensures
      var here := DecisionFor(ops, context, last, analysis);
      FaultsSeeEntryFrom(ops, context, last, analysis, clean) ==
      ((CanFault(ops[0], context.operands) ==> clean && AddressUntracked(ops[0], context, analysis.values)) &&
       FaultsSeeEntryFrom(ops[1..], context, last, here.1, clean && WritesNothingBack(here.0.before)))
  {
    hide CarryOp, DecisionFor;
  }

  /** The analysis of a pop before its operation number `k`. */
  function PopState(step: Word, k: nat): Analysis {
    if k == 0 then Analysis(map[], [], true)
    else if k <= 2 then Analysis(map[], [EspRead], true)
    else if k == 3 then Analysis(map[], [EspRead, EspMoved(step)], true)
    else Analysis(MovedValues(step), [EspRead, EspMoved(step)], true)
  }

  lemma PopDecision(step: Word, reg: Reg, leaves: bool, k: nat)
    requires reg != ESP && k < 6
    ensures
      var here := DecisionFor(PopOps(reg, step)[k..], PopContext(leaves), leaves, PopState(step, k));
      here.0 == PopDecisions(step, leaves)[k] && (k < 5 ==> here.1 == PopState(step, k + 1))
  {
    hide AnalyzeOp;
    AnalyzePopReads(step, reg, leaves);
    AnalyzeEspWrite(step, reg, leaves);
    AnalyzePoppedWrite(step, reg, leaves);
    AnalyzePopEnd(step, reg, leaves);
    var ops := PopOps(reg, step);
    assert ops[k..][0] == ops[k] && (k < 5 ==> ops[k..][1] == ops[k + 1]);
  }

  function HeldBefore(held: Held, step: Word, k: nat): Held {
    if k == 0 then held
    else if k <= 2 then Holding(held, RegTree(ESP), false)
    else HeldAfterMove(held, step)
  }

  lemma HeldNames(held: Held, step: Word, reg: Reg)
    requires reg != ESP && forall tree <- held :: !UsesReg(tree, reg)
    ensures forall tree <- Holding(held, RegTree(ESP), false) :: !UsesReg(tree, reg)
    ensures forall tree <- HeldAfterMove(held, step) :: !UsesReg(tree, reg)
    ensures Moved(step) in HeldAfterMove(held, step)
  {
  }

  /** The walk over a pop, from its end backwards. */
  lemma {:induction false} WalkPop(held: Held, reg: Reg, step: Word, leaves: bool, k: nat)
    requires reg != ESP && (forall tree <- held :: !UsesReg(tree, reg)) && k < 6
    ensures Moved(step) in HeldAfterMove(held, step)
    ensures ReusesNothingStaleFrom(PopOps(reg, step)[k..], PopContext(leaves), leaves, PopState(step, k),
                                   HeldBefore(held, step, k)) <==>
            (leaves ==> !HeldAfterMove(held, step)[Moved(step)])
    decreases 6 - k
  {
    hide CarryOp, DecisionFor, PopState, Holding, PopOps;
    var ops, context, here := PopOps(reg, step), PopContext(leaves), HeldBefore(held, step, k);
    HeldNames(held, step, reg);
    PopDecision(step, reg, leaves, k);
    PopShape(reg, step);
    assert ops[k..][0] == ops[k] && ops[k..][1..] == ops[k + 1..];
    if k == 5 {
      CarryMoveEnd(here, step, leaves, PopState(step, k));
    } else {
      WalkPop(held, reg, step, leaves, k + 1);
      CarryPop(held, reg, step, leaves, k);
    }
  }

  lemma PopShape(reg: Reg, step: Word)
    ensures |PopOps(reg, step)| == 6 && PopOps(reg, step)[5] == Next && PopOps(reg, step)[6..] == []
  {
  }

  /** No step of a pop but the last needs a tree. */
  lemma CarryPop(held: Held, reg: Reg, step: Word, leaves: bool, k: nat)
    requires reg != ESP && (forall tree <- held :: !UsesReg(tree, reg)) && k < 5
    ensures
      CarryOp(HeldBefore(held, step, k), PopDecisions(step, leaves)[k], PopOps(reg, step)[k], PopContext(leaves),
              PopState(step, k)) == Walk(HeldBefore(held, step, k + 1), true)
  {
    hide CarryOp, PopOps, Holding;
    HeldNames(held, step, reg);
    CarryMove(HeldBefore(held, step, k), reg, step, PopContext(leaves));
    CarryMoveWrites(HeldBefore(held, step, k), reg, step, PopContext(leaves));
  }

  /** A pop reads memory before it writes any register back. */
  lemma {:induction false} FaultsOfPop(reg: Reg, step: Word, leaves: bool, k: nat, clean: bool)
    requires reg != ESP && k < 6 && (k < 2 ==> clean)
    ensures FaultsSeeEntryFrom(PopOps(reg, step)[k..], PopContext(leaves), leaves, PopState(step, k), clean)
    decreases 6 - k
  {
    hide DecisionFor, PopState;
    var ops := PopOps(reg, step);
    PopDecision(step, reg, leaves, k);
    assert ops[k..][0] == ops[k] && ops[k..][1..] == ops[k + 1..];
    if k < 5 {
      PopWritesNothingBack(step, leaves, k);
      FaultsOfPop(reg, step, leaves, k + 1, clean && WritesNothingBack(PopDecisions(step, leaves)[k].before));
    }
  }

  lemma PopWritesNothingBack(step: Word, leaves: bool, k: nat)
    requires k < 5
    ensures WritesNothingBack(PopDecisions(step, leaves)[k].before)
  {
    assert Written([]) == {};
  }

  // ---------- the theorem ----------

  lemma WholePop(reg: Reg, step: Word, leaves: bool)
    requires reg != ESP
    ensures PropagationProof.Propagatable(Instruction(PopContext(leaves), PopOps(reg, step)))
  {
    var ops := PopOps(reg, step);
    PopScoped(reg, step);
    assert forall j | 0 <= j < 5 :: !IsTerminator(ops[j]);
  }

  lemma PopScoped(reg: Reg, step: Word)
    ensures AssignsOnce(PopOps(reg, step), {}) && DefinesBeforeUse(PopOps(reg, step), {})
  {
    var ops := PopOps(reg, step);
    assert ops[1..][1..] == ops[2..] && ops[2..][1..] == ops[3..] && ops[3..][1..] == ops[4..] && ops[4..][1..] == ops[5..] &&
           ops[5..][1..] == [];
    assert AssignsOnce(ops[3..], {0, 1, 2}) by {
      assert AssignsOnce(ops[5..], {0, 1, 2});
      assert AssignsOnce(ops[4..], {0, 1, 2});
    }
    assert {} + {0} + {1} == {0, 1} && {0, 1} + {2} == {0, 1, 2};
    assert AssignsOnce(ops[2..], {0, 1});
    assert DefinesBeforeUse(ops[3..], {0, 1, 2}) by {
      assert DefinesBeforeUse(ops[5..], {0, 1, 2});
      assert DefinesBeforeUse(ops[4..], {0, 1, 2});
    }
    assert DefinesBeforeUse(ops[2..], {0, 1});
  }

  lemma EnteredPop(reg: Reg, step: Word, leaves: bool)
    ensures
      var instruction := Instruction(PopContext(leaves), PopOps(reg, step));
      Entered(instruction, map[]) == PopState(step, 0) && EntryWriteBack(instruction, map[]) == []
  {
    hide All, Flushed, AnyFault;
    PopsFault(step, reg, leaves);
    NothingToFlush();
  }

  lemma EnteredAfterMove(reg: Reg, step: Word, leaves: bool, before: Word)
    ensures
      var instruction := Instruction(PopContext(leaves), PopOps(reg, step));
      && Entered(instruction, MovedValues(before)) == PopState(step, 0)
      && EntryWriteBack(instruction, MovedValues(before)) == MoveBack(before)
  {
    hide All, Flushed, AnyFault;
    PopsFault(step, reg, leaves);
    FlushesEsp(before);
  }

  /** The write-back of the first move is itself fine, and leaves both its trees out of date. */
  lemma FlushMove(step: Word)
    ensures WriteBack(map[], MoveBack(step)) == Walk(map[RegTree(ESP) := true, Moved(step) := true], true)
  {
    var fresh2 := map[RegTree(ESP) := false, Moved(step) := false];
    assert NeedParts(map[], Moved(step)) == Walk(map[RegTree(ESP) := false], true) by {
      assert Need(map[], RegTree(ESP)) == Walk(map[RegTree(ESP) := false], true);
    }
    assert Need(map[], Moved(step)) == Walk(fresh2, true);
    assert MoveBack(step)[1..] == [];
    assert NeedAll(map[], MoveBack(step)) == Walk(fresh2, true);
    assert Written(MoveBack(step)) == {ESP};
    assert UsesReg(RegTree(ESP), ESP) && UsesReg(Moved(step), ESP);
    assert AfterWriting(fresh2, {ESP}) == map[RegTree(ESP) := true, Moved(step) := true];
  }

  lemma ValuesAfterMove(step: Word)
    ensures ValuesAfter(Instruction(PopContext(false), PopOps(EBX, step)), false, map[]) == MovedValues(step)
  {
    hide AnalyzeOps, Entered, PopOps;
    EnteredPop(EBX, step, false);
    AnalyzePop(step, EBX, false);
  }

  lemma TwoInstructions(first: Instruction, second: Instruction)
    ensures
      var values, flush := ValuesAfter(first, false, map[]), WriteBack(map[], EntryWriteBack(first, map[]));
      var again := WriteBack(map[], EntryWriteBack(second, values));
      ReusesNothingStale([first, second], map[]) <==>
      && flush.ok
      && ReusesNothingStaleFrom(first.ops, first.context, false, Entered(first, map[]), flush.held)
      && again.ok
      && ReusesNothingStaleFrom(second.ops, second.context, true, Entered(second, values), again.held)
    ensures
      var values := ValuesAfter(first, false, map[]);
      FaultsSeeEntry([first, second], map[]) <==>
      && FaultsSeeEntryFrom(first.ops, first.context, false, Entered(first, map[]), true)
      && FaultsSeeEntryFrom(second.ops, second.context, true, Entered(second, values), true)
  {
    hide ReusesNothingStaleFrom, FaultsSeeEntryFrom, WriteBack, Entered, EntryWriteBack, ValuesAfter;
    var block, values := [first, second], ValuesAfter(first, false, map[]);
    var rest := block[1..];
    assert rest == [second] && rest[1..] == [];
    var again := WriteBack(map[], EntryWriteBack(second, values));
    assert ReusesNothingStale(rest, values) <==>
           again.ok && ReusesNothingStaleFrom(second.ops, second.context, true, Entered(second, values), again.held);
    assert FaultsSeeEntry(rest, values) <==>
           FaultsSeeEntryFrom(second.ops, second.context, true, Entered(second, values), true);
  }

  /** The walk accepts the two moves exactly when they differ. */
  lemma WalkAcceptsDifferentMoves(first: Word, second: Word)
    ensures ReusesNothingStale(PopPop(first, second), map[]) <==> first != second
  {
    hide ReusesNothingStaleFrom, WriteBack, Entered, EntryWriteBack, PopOps, ValuesAfter, HeldAfterMove, PopState,
      ReusesNothingStale;
    var block := PopPop(first, second);
    TwoInstructions(block[0], block[1]);
    EnteredPop(EBX, first, false);
    ValuesAfterMove(first);
    EnteredAfterMove(EAX, second, true, first);
    StaleReuse.WriteBackNothing(map[]);
    FlushMove(first);
    var stale := map[RegTree(ESP) := true, Moved(first) := true];
    WalkPop(map[], EBX, first, false, 0);
    WalkPop(stale, EAX, second, true, 0);
    assert PopOps(EBX, first)[0..] == PopOps(EBX, first) && PopOps(EAX, second)[0..] == PopOps(EAX, second);
    SecondMoveHeld(first, second);
  }

  lemma FaultsOfMoves(first: Word, second: Word)
    ensures FaultsSeeEntry(PopPop(first, second), map[])
  {
    hide FaultsSeeEntryFrom, Entered, PopOps, ValuesAfter, PopState, FaultsSeeEntry;
    var block := PopPop(first, second);
    TwoInstructions(block[0], block[1]);
    EnteredPop(EBX, first, false);
    ValuesAfterMove(first);
    EnteredAfterMove(EAX, second, true, first);
    assert PopOps(EBX, first)[0..] == PopOps(EBX, first) && PopOps(EAX, second)[0..] == PopOps(EAX, second);
    FaultsOfPop(EBX, first, false, 0, true);
    FaultsOfPop(EAX, second, true, 0, true);
  }

  lemma SecondMoveHeld(first: Word, second: Word)
    ensures
      var held := HeldAfterMove(map[RegTree(ESP) := true, Moved(first) := true], second);
      Moved(second) in held && (held[Moved(second)] <==> first == second)
  {
  }

  /**
   Two moves of the stack pointer, the first by a constant other than zero, survive propagation on every machine
   exactly when the constants differ, and that is exactly when the walk over the block accepts them.
   */
  lemma MovesArePreservedIffAccepted(first: Word, second: Word)
    requires first != 0
    ensures PropagationTheorem.AlwaysPreserved(PopPop(first, second)) <==> ReusesNothingStale(PopPop(first, second), map[])
    ensures ReusesNothingStale(PopPop(first, second), map[]) <==> first != second
  {
    hide RunBlock, PropagateBlock, ReusesNothingStale, FaultsSeeEntry, PopOps;
    var block := PopPop(first, second);
    WalkAcceptsDifferentMoves(first, second);
    if first != second {
      FaultsOfMoves(first, second);
      WholePop(EBX, first, false);
      WholePop(EAX, second, true);
      forall m: Machine | RunBlock(block, m) != Stuck
        ensures PropagationProof.SameRun(RunBlock(block, m), RunBlock(PropagateBlock(block, map[]).0, m))
      {
        PropagationTheorem.PropagationPreservesRuns(block, m);
      }
    } else {
      ReusingAStaleValueLosesAnUpdate(first);
      assert U32(first + first) != first;
      assert !PropagationProof.SameRun(RunBlock(block, Start(first)), RunBlock(PropagateBlock(block, map[]).0, Start(first)));
    }
  }
}
