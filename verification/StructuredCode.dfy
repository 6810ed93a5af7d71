/**
 The structured control flow that the interpreter's dispatch is emitted as: nested blocks, loops and branch tables,
 with branches by label depth. Running it, a branch is to the absolute label that its depth denotes where it stands.
 */
module StructuredCode {
  import opened OpcodePaths
  import opened InstructionSet
  import opened OpcodeDispatch

  // Where the opcode bytes start: known when emitting, or held in a local.
  datatype DecodeReader = Static(value: nat) | Local

  datatype Operand = OpcodeByte | ModRmReg | RegisterIndex

  datatype Code =
    | Block(body: seq<Code>)
    | Loop(body: seq<Code>)
    | Br(depth: nat)
    | BrTable(operand: Operand, table: seq<nat>, default: nat)
    | LoadByte(reader: DecodeReader, offset: nat, exitDepth: nat)
    | LoadModRm(reader: DecodeReader, offset: nat, exitDepth: nat)
    | KeepOpcode
    | NextOffset(reader: DecodeReader)
    | Unsupported(exitDepth: nat)
    | Handler(instruction: Expanded, size: OperandSize, reader: DecodeReader, doneDepth: nat, exitDepth: nat)
    | RegisterCase(index: nat)

  // The interpreter's locals.
  datatype Locals = Locals(byte: Byte, opcode: Byte, offset: nat, modrm: Byte, index: nat, ran: seq<nat>)

  // Labels count from the outside: the label of the outermost construct is 0.
  datatype Outcome =
    | Next(locals: Locals)
    | Branch(target: int, locals: Locals)
    | ExitUnsupported(target: int)
    | ExitDecodeFault(target: int)
    | Handled(instruction: Expanded, size: OperandSize, opcode: Byte, offset: nat, done: int, exit: int)
    | Timeout

  function OffsetOf(reader: DecodeReader, locals: Locals): nat {
    if reader.Static? then reader.value else locals.offset
  }

  function OperandValue(operand: Operand, locals: Locals): nat {
    match operand
    case OpcodeByte => locals.byte
    case ModRmReg => RegOf(locals.modrm)
    case RegisterIndex => locals.index
  }

  function TableDepth(table: seq<nat>, default: nat, value: nat): nat {
    if value < |table| then table[value] else default
  }

  /** Run code under a number of enclosing labels, on the guest bytes that decoding may read. */
  function Exec(codes: seq<Code>, height: nat, locals: Locals, bytes: Opcode, fuel: nat): Outcome
    decreases fuel, codes
  {
    if codes == [] then Next(locals)
    else
      var first := ExecOne(codes[0], height, locals, bytes, fuel);
      if first.Next? then Exec(codes[1..], height, first.locals, bytes, fuel) else first
  }

  function ExecOne(code: Code, height: nat, locals: Locals, bytes: Opcode, fuel: nat): Outcome
    decreases fuel, code
  {
    match code
    case Block(body) =>
      var inner := Exec(body, height + 1, locals, bytes, fuel);
      if inner.Branch? && inner.target == height then Next(inner.locals) else inner
    case Loop(body) =>
      if fuel == 0 then Timeout
      else
        var inner := Exec(body, height + 1, locals, bytes, fuel);
        if inner.Branch? && inner.target == height then ExecOne(code, height, inner.locals, bytes, fuel - 1) else inner
    case Br(depth) => Branch(height - 1 - depth, locals)
    case BrTable(operand, table, default) =>
      Branch(height - 1 - TableDepth(table, default, OperandValue(operand, locals)), locals)
    case LoadByte(reader, offset, exitDepth) =>
      var at := OffsetOf(reader, locals) + offset;
      if at < |bytes| then Next(locals.(byte := bytes[at])) else ExitDecodeFault(height - 1 - exitDepth)
    case LoadModRm(reader, offset, exitDepth) =>
      var at := OffsetOf(reader, locals) + offset;
      if at < |bytes| then Next(locals.(modrm := bytes[at])) else ExitDecodeFault(height - 1 - exitDepth)
    case KeepOpcode => Next(locals.(opcode := locals.byte))
    case NextOffset(reader) => Next(locals.(offset := OffsetOf(reader, locals) + 1))
    case Unsupported(exitDepth) => ExitUnsupported(height - 1 - exitDepth)
    case Handler(instruction, size, reader, doneDepth, exitDepth) =>
      Handled(instruction, size, locals.opcode, OffsetOf(reader, locals), height - 1 - doneDepth, height - 1 - exitDepth)
    case RegisterCase(index) => Next(locals.(ran := locals.ran + [index]))
  }

  lemma {:induction false} ExecAppend(first: seq<Code>, second: seq<Code>, height: nat, locals: Locals, bytes: Opcode, fuel: nat)
    ensures Exec(first + second, height, locals, bytes, fuel) ==
            var outcome := Exec(first, height, locals, bytes, fuel);
            if outcome.Next? then Exec(second, height, outcome.locals, bytes, fuel) else outcome
    decreases first
  {
    if first == [] {
      assert first + second == second;
    } else {
      var outcome := ExecOne(first[0], height, locals, bytes, fuel);
      assert (first + second)[1..] == first[1..] + second;
      if outcome.Next? { ExecAppend(first[1..], second, height, outcome.locals, bytes, fuel); }
    }
  }

  lemma ExecSingle(code: Code, height: nat, locals: Locals, bytes: Opcode, fuel: nat)
    ensures Exec([code], height, locals, bytes, fuel) == ExecOne(code, height, locals, bytes, fuel)
  {
    var outcome := ExecOne(code, height, locals, bytes, fuel);
    assert [code][1..] == [];
  }

  // ---------- a branch table over nested blocks ----------

  /**
   The contents of the k-th of the nested blocks: the next block and then its own case; the innermost block holds the
   branch.
   */
  function Nest(cases: seq<seq<Code>>, branch: Code, k: nat): seq<Code>
    requires k <= |cases|
    decreases |cases| - k
  {
    if k == |cases| then [branch] else [Block(Nest(cases, branch, k + 1))] + cases[k]
  }

  function Switch(cases: seq<seq<Code>>, branch: Code): Code {
    Block(Nest(cases, branch, 0))
  }

  /** Control leaves the blocks of a switch, whose outermost label is the given one, or goes to its end. */
  predicate Escapes(outcome: Outcome, outer: int) {
    !outcome.Next? && (outcome.Branch? ==> outcome.target <= outer)
  }

  /** A branch that leaves the blocks inside the k-th passes through them all. */
  lemma {:induction false} BranchPasses(cases: seq<seq<Code>>, branch: Code, outer: nat, k: nat, locals: Locals,
      bytes: Opcode, fuel: nat, target: int)
    requires k <= |cases| && target < outer + 1 + k
    requires ExecOne(branch, outer + 1 + |cases|, locals, bytes, fuel) == Branch(target, locals)
    ensures Exec(Nest(cases, branch, k), outer + 1 + k, locals, bytes, fuel) == Branch(target, locals)
    decreases |cases| - k
  {
    if k == |cases| {
      ExecSingle(branch, outer + 1 + k, locals, bytes, fuel);
    } else {
      BranchPasses(cases, branch, outer, k + 1, locals, bytes, fuel, target);
    }
  }

  /** Depth n - 1 - j of the branch lands at case j, whichever blocks are around it. */
  lemma {:induction false} NestSelects(cases: seq<seq<Code>>, branch: Code, outer: nat, k: nat, j: nat, locals: Locals,
      bytes: Opcode, fuel: nat)
    requires k <= j < |cases|
    requires ExecOne(branch, outer + 1 + |cases|, locals, bytes, fuel) == Branch(outer + 1 + j, locals)
    requires Escapes(Exec(cases[j], outer + 1 + j, locals, bytes, fuel), outer)
    ensures Exec(Nest(cases, branch, k), outer + 1 + k, locals, bytes, fuel) ==
            Exec(cases[j], outer + 1 + j, locals, bytes, fuel)
    decreases j - k
  {
    var inner := Block(Nest(cases, branch, k + 1));
    if k == j {
      BranchPasses(cases, branch, outer, k + 1, locals, bytes, fuel, outer + 1 + j);
    } else {
      NestSelects(cases, branch, outer, k + 1, j, locals, bytes, fuel);
    }
    ExecSingle(inner, outer + 1 + k, locals, bytes, fuel);
    ExecAppend([inner], cases[k], outer + 1 + k, locals, bytes, fuel);
  }

  /** The switch runs the case that the table names, and only that one. */
  lemma SwitchSelects(cases: seq<seq<Code>>, branch: Code, height: nat, j: nat, locals: Locals, bytes: Opcode, fuel: nat)
    requires j < |cases| && branch.BrTable?
    requires TableDepth(branch.table, branch.default, OperandValue(branch.operand, locals)) == |cases| - 1 - j
    requires Escapes(Exec(cases[j], height + 1 + j, locals, bytes, fuel), height)
    ensures ExecOne(Switch(cases, branch), height, locals, bytes, fuel) ==
            var outcome := Exec(cases[j], height + 1 + j, locals, bytes, fuel);
            if outcome.Branch? && outcome.target == height then Next(outcome.locals) else outcome
  {
    NestSelects(cases, branch, height, 0, j, locals, bytes, fuel);
  }

  /** The default depth leaves the switch without running any case. */
  lemma SwitchDefault(cases: seq<seq<Code>>, branch: Code, height: nat, locals: Locals, bytes: Opcode, fuel: nat)
    requires branch.BrTable?
    requires TableDepth(branch.table, branch.default, OperandValue(branch.operand, locals)) == |cases|
    ensures ExecOne(Switch(cases, branch), height, locals, bytes, fuel) == Next(locals)
  {
    BranchPasses(cases, branch, height, 0, locals, bytes, fuel, height);
  }

  // ---------- emitting ----------

  datatype Frame = Frame(loops: bool, codes: seq<Code>)

  function Appended(frames: seq<Frame>, codes: seq<Code>): (appended: seq<Frame>)
    requires frames != []
    ensures |appended| == |frames|
  {
    var last := |frames| - 1;
    frames[..last] + [frames[last].(codes := frames[last].codes + codes)]
  }

  function Empties(n: nat): seq<Frame> {
    seq(n, _ => Frame(false, []))
  }

  /** The encoder's constructs while the cases of a switch are being emitted, when some of its blocks are still empty. */
  function InSwitch(base: seq<Frame>, empty: nat, codes: seq<Code>): (frames: seq<Frame>)
    ensures |frames| == |base| + empty + 1
  {
    base + Empties(empty) + [Frame(false, codes)]
  }

  lemma AppendedInSwitch(base: seq<Frame>, empty: nat, codes: seq<Code>, more: seq<Code>)
    ensures Appended(InSwitch(base, empty, codes), more) == InSwitch(base, empty, codes + more)
  {
  }

  lemma EndedInSwitch(base: seq<Frame>, empty: nat, code: Code)
    requires empty > 0
    ensures Appended(base + Empties(empty), [code]) == InSwitch(base, empty - 1, [code])
  {
    assert Empties(empty) == Empties(empty - 1) + [Frame(false, [])];
    assert [] + [code] == [code];
  }

  class BodyEncoder {
    // The constructs not yet ended, innermost last.
    var open: seq<Frame>

    constructor ()
      ensures open == [Frame(false, [])]
    {
      open := [Frame(false, [])];
    }

    method Emit(code: Code)
      requires open != []
      modifies this
      ensures open == Appended(old(open), [code])
    {
      open := Appended(open, [code]);
    }

    method OpenBlock()
      modifies this
      ensures open == old(open) + [Frame(false, [])]
    {
      open := open + [Frame(false, [])];
    }

    method OpenLoop()
      modifies this
      ensures open == old(open) + [Frame(true, [])]
    {
      open := open + [Frame(true, [])];
    }

    method EndBlock()
      requires |open| > 1
      modifies this
      ensures var last := old(open)[|old(open)| - 1];
              open == Appended(old(open)[..|old(open)| - 1], [if last.loops then Loop(last.codes) else Block(last.codes)])
    {
      var last := open[|open| - 1];
      open := Appended(open[..|open| - 1], [if last.loops then Loop(last.codes) else Block(last.codes)]);
    }

    /** Open the blocks of a switch of n cases and branch from the innermost. */
    method OpenSwitch(n: nat, branch: Code)
      requires open != []
      modifies this
      ensures open == InSwitch(old(open), n, [branch])
    {
      OpenBlock();
      for k := 0 to n
        invariant open == old(open) + Empties(k + 1)
      {
        OpenBlock();
        assert Empties(k + 2) == Empties(k + 1) + [Frame(false, [])];
      }
      assert open == InSwitch(old(open), n, []);
      AppendedInSwitch(old(open), n, [], [branch]);
      assert [] + [branch] == [branch];
      Emit(branch);
    }

    /** End the innermost block, so that the code of the next case follows. */
    method EndCase(ghost base: seq<Frame>, ghost empty: nat, ghost codes: seq<Code>)
      requires base != [] && open == InSwitch(base, empty + 1, codes)
      modifies this
      ensures open == InSwitch(base, empty, [Block(codes)])
    {
      EndedInSwitch(base, empty + 1, Block(codes));
      assert open[..|open| - 1] == base + Empties(empty + 1);
      EndBlock();
    }

    method EndSwitch(ghost base: seq<Frame>, ghost codes: seq<Code>)
      requires base != [] && open == InSwitch(base, 0, codes)
      modifies this
      ensures open == Appended(base, [Block(codes)])
    {
      assert open[..|open| - 1] == base;
      EndBlock();
    }
  }
}
