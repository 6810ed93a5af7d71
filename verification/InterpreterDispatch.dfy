/**
 The interpreter's dispatch on opcode bytes: the nested switches emitted for the opcode trie, and what running them
 does. Every label depth kept on the way denotes the label it is meant to.
 */
module InterpreterDispatch {
  import opened X86Types
  import opened OpcodePaths
  import opened InstructionSet
  import opened OpcodeDispatch
  import opened StructuredCode

  // ---------- label depths ----------

  datatype DispatchDepths = DispatchDepths(instructionDone: nat, opcode: nat, prefixLoop: Option<nat>) {
    static function Root(): DispatchDepths {
      DispatchDepths(0, 0, None)
    }

    function CaseBranch(index: nat): DispatchDepths {
      var delta := 1 + index;
      DispatchDepths(instructionDone + delta, opcode, if prefixLoop.None? then None else Some(prefixLoop.value + delta))
    }

    function OpcodeChild(): DispatchDepths {
      DispatchDepths(instructionDone, opcode + 1, prefixLoop)
    }

    function PrefixLoopBody(): DispatchDepths {
      DispatchDepths(instructionDone + 1, 0, Some(0))
    }
  }

  datatype Context = Context(depths: DispatchDepths, exitDepth: nat, reader: DecodeReader, size: OperandSize) {
    function InCase(index: nat): Context {
      Context(depths.CaseBranch(index), exitDepth + 1 + index, reader, size)
    }

    function Child(): Context {
      this.(depths := depths.OpcodeChild())
    }

    function InLoop(): Context {
      Context(depths.PrefixLoopBody(), exitDepth + 1, Local, Override)
    }
  }

  // The labels outside the dispatch code, and that of the loop over prefixes.
  datatype Labels = Labels(done: int, exit: int, loop: int)

  predicate Denotes(context: Context, height: nat, labels: Labels) {
    && height - 1 - context.depths.instructionDone == labels.done
    && height - 1 - context.exitDepth == labels.exit
    && (context.depths.prefixLoop.Some? ==> height - 1 - context.depths.prefixLoop.value == labels.loop)
  }

  /** Inside the blocks of a case, and inside the loop, depths still denote the same labels. */
  lemma DepthsFollowNesting(context: Context, height: nat, labels: Labels, index: nat)
    requires Denotes(context, height, labels)
    ensures Denotes(context.InCase(index), height + 1 + index, labels)
    ensures Denotes(context.Child(), height, labels)
    ensures Denotes(context.InLoop(), height + 1, labels.(loop := height))
  {
  }

  // ---------- the code of a leaf ----------

  datatype RegCase = RegCase(instruction: Expanded, regs: seq<nat>)

  /** The first candidate that the ModRM.reg value allows. */
  function SupportedFor(bucket: seq<Expanded>, reg: nat): Option<Expanded> {
    if bucket == [] then None
    else if Reg3Matches(RegMatch(bucket[0]), reg) then Some(bucket[0])
    else SupportedFor(bucket[1..], reg)
  }

  function CaseWithId(cases: seq<RegCase>, id: string): (index: Option<nat>)
    ensures index.Some? ==> index.value < |cases| && cases[index.value].instruction.spec.id == id
    ensures index.None? ==> forall c | 0 <= c < |cases| :: cases[c].instruction.spec.id != id
  {
    if cases == [] then None
    else if cases[|cases| - 1].instruction.spec.id == id then Some(|cases| - 1)
    else CaseWithId(cases[..|cases| - 1], id)
  }

  function WithReg(cases: seq<RegCase>, instruction: Expanded, reg: nat): seq<RegCase> {
    var index := CaseWithId(cases, instruction.spec.id);
    if index.None? then cases + [RegCase(instruction, [reg])]
    else cases[index.value := cases[index.value].(regs := cases[index.value].regs + [reg])]
  }

  /** One case per instruction, with the ModRM.reg values that select it. */
  function RegCases(buckets: seq<seq<Expanded>>, limit: nat): seq<RegCase>
    requires limit <= |buckets|
  {
    if limit == 0 then []
    else
      var before := RegCases(buckets, limit - 1);
      var supported := SupportedFor(buckets[limit - 1], limit - 1);
      if supported.None? then before else WithReg(before, supported.value, limit - 1)
  }

  function CaseOfReg(cases: seq<RegCase>, reg: nat): (index: Option<nat>)
    ensures index.Some? ==> index.value < |cases| && reg in cases[index.value].regs
    ensures index.None? ==> forall c | 0 <= c < |cases| :: reg !in cases[c].regs
  {
    if cases == [] then None
    else if reg in cases[|cases| - 1].regs then Some(|cases| - 1)
    else CaseOfReg(cases[..|cases| - 1], reg)
  }

  function RegTable(cases: seq<RegCase>): seq<nat> {
    seq(8, reg requires 0 <= reg =>
      var index := CaseOfReg(cases, reg);
      if index.Some? then |cases| - 1 - index.value else |cases|)
  }

  function HandlerFor(instruction: Expanded, context: Context): Code {
    Handler(instruction, context.size, context.reader, context.depths.instructionDone, context.exitDepth)
  }

  function RegHandlers(cases: seq<RegCase>, context: Context): (handlers: seq<seq<Code>>)
    ensures |handlers| == |cases|
    ensures forall c | 0 <= c < |cases| :: handlers[c] == [HandlerFor(cases[c].instruction, context.InCase(c))]
  {
    seq(|cases|, c requires 0 <= c < |cases| => [HandlerFor(cases[c].instruction, context.InCase(c))])
  }

  function ModRmDispatchCode(cases: seq<RegCase>, context: Context): seq<Code> {
    [Switch(RegHandlers(cases, context), BrTable(ModRmReg, RegTable(cases), |cases|)), Unsupported(context.exitDepth)]
  }

  /** The handlers of a leaf; none when it has no candidate for the operand size. */
  function LeafCode(leaf: Leaf, context: Context): Option<seq<Code>>
    requires |leaf.At(context.size).modRmByReg| == 8
  {
    var candidates := leaf.At(context.size);
    match candidates.kind
    case Empty => None
    case NoModRm =>
      if candidates.noModRm == [] then None else Some([HandlerFor(candidates.noModRm[0], context)])
    case ModRm =>
      var cases := RegCases(candidates.modRmByReg, 8);
      if cases == [] then None
      else
        Some([LoadModRm(context.reader, leaf.opcodeLength, context.exitDepth)] +
             (if |cases| == 1 && |cases[0].regs| == 8 then [HandlerFor(cases[0].instruction, context)]
              else ModRmDispatchCode(cases, context)))
  }

  function LeafOrExit(leaf: Leaf, context: Context): seq<Code>
    requires |leaf.At(context.size).modRmByReg| == 8
  {
    var code := LeafCode(leaf, context);
    if code.Some? then code.value else [Unsupported(context.exitDepth)]
  }

  // ---------- what a leaf does ----------

  /** Instructions with the same id in the buckets are the same instruction. */
  ghost predicate IdsTell(buckets: seq<seq<Expanded>>) {
    forall a, b | 0 <= a < |buckets| && 0 <= b < |buckets| ::
      forall x <- buckets[a], y <- buckets[b] :: x.spec.id == y.spec.id ==> x == y
  }

  ghost predicate BucketsAllow(buckets: seq<seq<Expanded>>) {
    forall reg | 0 <= reg < |buckets| :: forall e <- buckets[reg] :: Reg3Matches(RegMatch(e), reg)
  }

  function FirstOf(bucket: seq<Expanded>): Option<Expanded> {
    if bucket == [] then None else Some(bucket[0])
  }

  predicate CaseRight(buckets: seq<seq<Expanded>>, limit: nat, regCase: RegCase)
    requires limit <= |buckets|
  {
    && regCase.regs != []
    && (forall i, j | 0 <= i < j < |regCase.regs| :: regCase.regs[i] < regCase.regs[j])
    && forall reg <- regCase.regs :: reg < limit && FirstOf(buckets[reg]) == Some(regCase.instruction)
  }

  ghost predicate Covered(cases: seq<RegCase>, reg: nat) {
    exists c :: 0 <= c < |cases| && reg in cases[c].regs
  }

  ghost predicate CasesCover(buckets: seq<seq<Expanded>>, limit: nat, cases: seq<RegCase>) {
    && limit <= |buckets|
    && (forall c | 0 <= c < |cases| :: CaseRight(buckets, limit, cases[c]))
    && (forall reg | 0 <= reg < limit && buckets[reg] != [] :: Covered(cases, reg))
  }

  /** The cases divide the ModRM.reg values by the first candidate of their buckets. */
  lemma {:induction false} RegCasesCover(buckets: seq<seq<Expanded>>, limit: nat)
    requires limit <= |buckets| && IdsTell(buckets) && BucketsAllow(buckets)
    ensures CasesCover(buckets, limit, RegCases(buckets, limit))
  {
    if limit > 0 {
      var before := RegCases(buckets, limit - 1);
      RegCasesCover(buckets, limit - 1);
      var bucket := buckets[limit - 1];
      if bucket == [] {
        hide IdsTell, BucketsAllow;
        assert forall c | 0 <= c < |before| :: CaseRight(buckets, limit - 1, before[c]) ==> CaseRight(buckets, limit, before[c]);
      } else {
        assert bucket[0] in bucket;
        assert SupportedFor(bucket, limit - 1) == Some(bucket[0]);
        hide IdsTell, BucketsAllow, CasesCover, SupportedFor;
        WithRegCovers(buckets, limit, before);
      }
    }
  }

  lemma SameIdSameInstruction(buckets: seq<seq<Expanded>>, limit: nat, regCase: RegCase)
    requires 0 < limit <= |buckets| && IdsTell(buckets) && buckets[limit - 1] != []
    requires CaseRight(buckets, limit - 1, regCase) && regCase.instruction.spec.id == buckets[limit - 1][0].spec.id
    ensures regCase.instruction == buckets[limit - 1][0]
  {
    var other := regCase.regs[0];
    assert other in regCase.regs;
    assert buckets[other][0] in buckets[other] && buckets[limit - 1][0] in buckets[limit - 1];
  }

  lemma CaseStays(buckets: seq<seq<Expanded>>, limit: nat, regCase: RegCase)
    requires 0 < limit <= |buckets| && CaseRight(buckets, limit - 1, regCase)
    ensures CaseRight(buckets, limit, regCase)
  {
  }

  lemma CaseGrows(buckets: seq<seq<Expanded>>, limit: nat, regs: seq<nat>, e: Expanded)
    requires 0 < limit <= |buckets| && FirstOf(buckets[limit - 1]) == Some(e)
    requires regs != [] ==> CaseRight(buckets, limit - 1, RegCase(e, regs))
    ensures CaseRight(buckets, limit, RegCase(e, regs + [limit - 1]))
  {
    assert forall i | 0 <= i < |regs| :: regs[i] in regs;
  }

  lemma WithRegCovers(buckets: seq<seq<Expanded>>, limit: nat, before: seq<RegCase>)
    requires 0 < limit <= |buckets| && IdsTell(buckets) && buckets[limit - 1] != []
    requires CasesCover(buckets, limit - 1, before)
    ensures CasesCover(buckets, limit, WithReg(before, buckets[limit - 1][0], limit - 1))
  {
    hide IdsTell;
    var e, reg := buckets[limit - 1][0], limit - 1;
    var index := CaseWithId(before, e.spec.id);
    var after := WithReg(before, e, reg);
    var at := if index.Some? then index.value else |before|;
    if index.Some? { SameIdSameInstruction(buckets, limit, before[at]); }
    assert after[at].regs[|after[at].regs| - 1] == reg;
    assert Covered(after, reg);
    forall r | 0 <= r < limit - 1 && buckets[r] != [] ensures Covered(after, r) {
      assert Covered(before, r);
      var c :| 0 <= c < |before| && r in before[c].regs;
      assert r in after[c].regs;
    }
    forall c | 0 <= c < |after| ensures CaseRight(buckets, limit, after[c]) {
      if c == at { CaseGrows(buckets, limit, if c < |before| then before[c].regs else [], e); }
      else { CaseStays(buckets, limit, before[c]); }
    }
  }

  ghost predicate Usable(candidates: CandidateSet) {
    |candidates.modRmByReg| == 8 && IdsTell(candidates.modRmByReg) && BucketsAllow(candidates.modRmByReg)
  }

  /** What is to happen at a leaf: the handler of the candidate, or one of the exits. */
  ghost function LeafOutcome(leaf: Leaf, size: OperandSize, bytes: Opcode, offset: nat, opcode: Byte, labels: Labels): Outcome
    requires |leaf.At(size).modRmByReg| == 8
  {
    var candidates := leaf.At(size);
    match candidates.kind
    case Empty => ExitUnsupported(labels.exit)
    case NoModRm => HandledOr(FirstOf(candidates.noModRm), size, offset, opcode, labels)
    case ModRm =>
      if forall reg | 0 <= reg < 8 :: candidates.modRmByReg[reg] == [] then ExitUnsupported(labels.exit)
      else if offset + leaf.opcodeLength >= |bytes| then ExitDecodeFault(labels.exit)
      else HandledOr(FirstOf(candidates.modRmByReg[RegOf(bytes[offset + leaf.opcodeLength])]), size, offset, opcode, labels)
  }

  function HandledOr(instruction: Option<Expanded>, size: OperandSize, offset: nat, opcode: Byte, labels: Labels): Outcome {
    if instruction.None? then ExitUnsupported(labels.exit)
    else Handled(instruction.value, size, opcode, offset, labels.done, labels.exit)
  }

  lemma HandlerRuns(instruction: Expanded, context: Context, height: nat, locals: Locals, bytes: Opcode, fuel: nat, labels: Labels)
    requires Denotes(context, height, labels)
    ensures Exec([HandlerFor(instruction, context)], height, locals, bytes, fuel) ==
            HandledOr(Some(instruction), context.size, OffsetOf(context.reader, locals), locals.opcode, labels)
  {
    ExecSingle(HandlerFor(instruction, context), height, locals, bytes, fuel);
  }

  lemma UnsupportedRuns(context: Context, height: nat, locals: Locals, bytes: Opcode, fuel: nat, labels: Labels)
    requires Denotes(context, height, labels)
    ensures Exec([Unsupported(context.exitDepth)], height, locals, bytes, fuel) == ExitUnsupported(labels.exit)
  {
    ExecSingle(Unsupported(context.exitDepth), height, locals, bytes, fuel);
  }

  lemma AllEight(regs: seq<nat>, reg: nat)
    requires |regs| == 8 && reg < 8
    requires forall i, j | 0 <= i < j < 8 :: regs[i] < regs[j]
    requires regs[7] < 8
    ensures reg in regs
  {
    assert regs[0] < regs[1] < regs[2] < regs[3] < regs[4] < regs[5] < regs[6] < regs[7];
    assert regs[reg] == reg;
  }

  /** The switch over ModRM.reg runs the handler of the first candidate of the bucket. */
  lemma ModRmDispatchRuns(buckets: seq<seq<Expanded>>, cases: seq<RegCase>, context: Context, height: nat, locals: Locals,
      bytes: Opcode, fuel: nat, labels: Labels)
    requires |buckets| == 8 && CasesCover(buckets, 8, cases) && Denotes(context, height, labels)
    ensures Exec(ModRmDispatchCode(cases, context), height, locals, bytes, fuel) ==
            HandledOr(FirstOf(buckets[RegOf(locals.modrm)]), context.size, OffsetOf(context.reader, locals), locals.opcode, labels)
  {
    hide IdsTell, BucketsAllow;
    var reg := RegOf(locals.modrm);
    var handlers, branch := RegHandlers(cases, context), BrTable(ModRmReg, RegTable(cases), |cases|);
    var switch, unsupported := Switch(handlers, branch), Unsupported(context.exitDepth);
    assert ModRmDispatchCode(cases, context) == [switch] + [unsupported];
    ExecAppend([switch], [unsupported], height, locals, bytes, fuel);
    ExecSingle(switch, height, locals, bytes, fuel);
    var index := CaseOfReg(cases, reg);
    if index.Some? {
      var c := index.value;
      assert CaseRight(buckets, 8, cases[c]);
      DepthsFollowNesting(context, height, labels, c);
      HandlerRuns(cases[c].instruction, context.InCase(c), height + 1 + c, locals, bytes, fuel, labels);
      SwitchSelects(handlers, branch, height, c, locals, bytes, fuel);
    } else {
      assert !Covered(cases, reg);
      SwitchDefault(handlers, branch, height, locals, bytes, fuel);
      UnsupportedRuns(context, height, locals, bytes, fuel, labels);
    }
  }

  /** The code of a leaf, or the exit emitted when there is none, does what is to happen there. */
  lemma LeafRuns(leaf: Leaf, context: Context, height: nat, locals: Locals, bytes: Opcode, fuel: nat, labels: Labels)
    requires Usable(leaf.At(context.size)) && Denotes(context, height, labels)
    ensures Exec(LeafOrExit(leaf, context), height, locals, bytes, fuel) ==
            LeafOutcome(leaf, context.size, bytes, OffsetOf(context.reader, locals), locals.opcode, labels)
  {
    hide CasesCover, ModRmDispatchCode, RegCases, Exec;
    var candidates := leaf.At(context.size);
    UnsupportedRuns(context, height, locals, bytes, fuel, labels);
    if candidates.kind.NoModRm? && candidates.noModRm != [] {
      HandlerRuns(candidates.noModRm[0], context, height, locals, bytes, fuel, labels);
    }
    if candidates.kind.ModRm? {
      RegCasesCover(candidates.modRmByReg, 8);
      var cases := RegCases(candidates.modRmByReg, 8);
      NoCases(candidates.modRmByReg, cases);
      if cases != [] {
        ModRmLeafRuns(leaf, context, height, locals, bytes, fuel, labels);
      }
    }
  }

  lemma NoCases(buckets: seq<seq<Expanded>>, cases: seq<RegCase>)
    requires |buckets| == 8 && CasesCover(buckets, 8, cases)
    ensures cases == [] <==> forall reg | 0 <= reg < 8 :: buckets[reg] == []
  {
    if cases != [] {
      assert CaseRight(buckets, 8, cases[0]);
      assert cases[0].regs[0] in cases[0].regs;
      assert buckets[cases[0].regs[0]] != [];
    } else {
      assert forall reg | 0 <= reg < 8 :: !Covered(cases, reg);
    }
  }

  lemma ModRmLeafRuns(leaf: Leaf, context: Context, height: nat, locals: Locals, bytes: Opcode, fuel: nat, labels: Labels)
    requires Usable(leaf.At(context.size)) && Denotes(context, height, labels) && leaf.At(context.size).kind.ModRm?
    requires RegCases(leaf.At(context.size).modRmByReg, 8) != []
    ensures Exec(LeafOrExit(leaf, context), height, locals, bytes, fuel) ==
            LeafOutcome(leaf, context.size, bytes, OffsetOf(context.reader, locals), locals.opcode, labels)
  {
    hide CasesCover, ModRmDispatchCode, RegCases;
    var buckets := leaf.At(context.size).modRmByReg;
    RegCasesCover(buckets, 8);
    var cases := RegCases(buckets, 8);
    NoCases(buckets, cases);
    var load := LoadModRm(context.reader, leaf.opcodeLength, context.exitDepth);
    var rest := if |cases| == 1 && |cases[0].regs| == 8 then [HandlerFor(cases[0].instruction, context)]
                else ModRmDispatchCode(cases, context);
    ExecAppend([load], rest, height, locals, bytes, fuel);
    ExecSingle(load, height, locals, bytes, fuel);
    var at := OffsetOf(context.reader, locals) + leaf.opcodeLength;
    if at < |bytes| {
      var after := locals.(modrm := bytes[at]);
      if |cases| == 1 && |cases[0].regs| == 8 {
        OneCase(buckets, cases, RegOf(bytes[at]));
        HandlerRuns(cases[0].instruction, context, height, after, bytes, fuel, labels);
      } else {
        ModRmDispatchRuns(buckets, cases, context, height, after, bytes, fuel, labels);
      }
    }
  }

  lemma OneCase(buckets: seq<seq<Expanded>>, cases: seq<RegCase>, reg: nat)
    requires |buckets| == 8 && CasesCover(buckets, 8, cases) && |cases| == 1 && |cases[0].regs| == 8 && reg < 8
    ensures FirstOf(buckets[reg]) == Some(cases[0].instruction)
  {
    assert CaseRight(buckets, 8, cases[0]);
    assert cases[0].regs[7] in cases[0].regs;
    AllEight(cases[0].regs, reg);
  }
}
