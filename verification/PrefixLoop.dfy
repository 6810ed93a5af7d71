/** Operand-size prefixes in the interpreter's dispatch: the loop that goes back to the root after each of them. */
module PrefixLoop {
  import opened X86Types
  import opened OpcodePaths
  import opened InstructionSet
  import opened OpcodeDispatch
  import opened StructuredCode
  import opened InterpreterDispatch
  import opened TrieCode
  import D = Decoder

  /** The outcome of dispatching on the bytes at an offset that holds no prefix. */
  ghost function OpcodeOutcome(list: seq<Expanded>, size: OperandSize, bytes: Opcode, offset: nat, labels: Labels): (outcome: Outcome)
    requires offset < |bytes|
    ensures !outcome.Next? && !outcome.Branch?
  {
    var seen := Seen(bytes, offset, Longest(list));
    LookupOutcome(Lookup(list, seen, 0), size, bytes, offset, seen, labels)
  }

  /** The outcome of dispatching on the bytes at an offset, with the operand size of the prefixes before it. */
  ghost function DispatchOutcome(list: seq<Expanded>, size: OperandSize, bytes: Opcode, offset: nat, labels: Labels): (outcome: Outcome)
    requires offset <= |bytes|
    ensures !outcome.Next? && !outcome.Branch?
    decreases |bytes| - offset
  {
    if offset == |bytes| then ExitDecodeFault(labels.exit)
    else if bytes[offset] == D.OPERAND_SIZE_PREFIX then DispatchOutcome(list, Override, bytes, offset + 1, labels)
    else OpcodeOutcome(list, size, bytes, offset, labels)
  }

  lemma {:induction false} PrefixesCounted(list: seq<Expanded>, size: OperandSize, bytes: Opcode, offset: nat, labels: Labels)
    requires offset <= |bytes|
    ensures var end := offset + D.PrefixLength(bytes[offset..]);
            DispatchOutcome(list, size, bytes, offset, labels) ==
              if end == |bytes| then ExitDecodeFault(labels.exit)
              else OpcodeOutcome(list, if end > offset then Override else size, bytes, end, labels)
    decreases |bytes| - offset
  {
    hide OpcodeOutcome;
    if offset < |bytes| && bytes[offset] == D.OPERAND_SIZE_PREFIX {
      assert bytes[offset..][1..] == bytes[offset + 1..];
      PrefixesCounted(list, Override, bytes, offset + 1, labels);
    }
  }

  /** The next byte is loaded after the prefix, and then control goes on with what the prefix case ends with. */
  lemma PrefixCodeLoads(list: seq<Expanded>, context: Context, height: nat, locals: Locals, bytes: Opcode, fuel: nat, labels: Labels)
    requires Denotes(context, height, labels)
    ensures Exec(PrefixCode(list, context), height, locals, bytes, fuel) ==
            var next := OffsetOf(context.reader, locals) + 1;
            if next >= |bytes| then ExitDecodeFault(labels.exit)
            else ExecOne(PrefixTail(list, context), height, Loaded(locals, next, bytes), bytes, fuel)
  {
    hide NodeCode;
    var tail := [PrefixTail(list, context)];
    var move, load := NextOffset(context.reader), LoadByte(Local, 0, context.exitDepth);
    var next := OffsetOf(context.reader, locals) + 1;
    var moved := locals.(offset := next);
    assert PrefixCode(list, context) == [move] + ([load] + ([KeepOpcode] + tail));
    ExecAppend([move], [load] + ([KeepOpcode] + tail), height, locals, bytes, fuel);
    ExecSingle(move, height, locals, bytes, fuel);
    ExecAppend([load], [KeepOpcode] + tail, height, moved, bytes, fuel);
    ExecSingle(load, height, moved, bytes, fuel);
    if next < |bytes| {
      var loaded := moved.(byte := bytes[next]);
      ExecAppend([KeepOpcode], tail, height, loaded, bytes, fuel);
      ExecSingle(KeepOpcode, height, loaded, bytes, fuel);
      ExecSingle(tail[0], height, Loaded(locals, next, bytes), bytes, fuel);
    }
  }

  ghost function PrefixTail(list: seq<Expanded>, context: Context): Code {
    if context.depths.prefixLoop.Some? then Br(context.depths.prefixLoop.value)
    else Loop(NodeCode(list, [], context.InLoop()))
  }

  function Loaded(locals: Locals, offset: nat, bytes: Opcode): Locals
    requires offset < |bytes|
  {
    locals.(offset := offset, byte := bytes[offset], opcode := bytes[offset])
  }

  ghost function PrefixIndex(list: seq<Expanded>): (index: nat)
    ensures index < |CaseBytes(list, [])| && CaseBytes(list, [])[index] == D.OPERAND_SIZE_PREFIX
    ensures IndexOf(CaseBytes(list, []), D.OPERAND_SIZE_PREFIX) == Some(index)
  {
    assert IsPrefixCase([], D.OPERAND_SIZE_PREFIX);
    assert D.OPERAND_SIZE_PREFIX in CaseBytes(list, []);
    IndexOf(CaseBytes(list, []), D.OPERAND_SIZE_PREFIX).value
  }

  /** On a prefix byte, the root's switch runs the prefix case. */
  lemma RootRunsPrefixCase(list: seq<Expanded>, context: Context, height: nat, locals: Locals, bytes: Opcode, fuel: nat)
    requires locals.byte == D.OPERAND_SIZE_PREFIX
    requires var outcome := PrefixCaseOutcome(list, context, height, locals, bytes, fuel);
             !outcome.Next? && (outcome.Branch? ==> outcome.target < height)
    ensures Exec(NodeCode(list, [], context), height, locals, bytes, fuel) ==
            PrefixCaseOutcome(list, context, height, locals, bytes, fuel)
  {
    hide Exec, PrefixCode, CaseBytes, ByteBranch, Switch;
    var j := PrefixIndex(list);
    var cases, branch := NodeCases(list, [], context), ByteBranch(CaseBytes(list, []));
    var switch, unsupported := Switch(cases, branch), Unsupported(context.exitDepth);
    assert NodeCode(list, [], context) == [switch] + [unsupported];
    ExecAppend([switch], [unsupported], height, locals, bytes, fuel);
    ExecSingle(switch, height, locals, bytes, fuel);
    TableNamesCase(CaseBytes(list, []), locals);
    assert IsPrefixCase([], D.OPERAND_SIZE_PREFIX);
    SwitchSelects(cases, branch, height, j, locals, bytes, fuel);
  }

  ghost function PrefixCaseOutcome(list: seq<Expanded>, context: Context, height: nat, locals: Locals, bytes: Opcode, fuel: nat): Outcome {
    Exec(PrefixCode(list, context.InCase(PrefixIndex(list))), height + 1 + PrefixIndex(list), locals, bytes, fuel)
  }

  lemma RootRuns(list: seq<Expanded>, context: Context, height: nat, locals: Locals, bytes: Opcode, fuel: nat, labels: Labels)
    requires IdsDistinguish(list) && Denotes(context, height, labels)
    requires var offset := OffsetOf(context.reader, locals);
             offset < |bytes| && locals.byte == locals.opcode == bytes[offset] && bytes[offset] != D.OPERAND_SIZE_PREFIX
    ensures Exec(NodeCode(list, [], context), height, locals, bytes, fuel) ==
            OpcodeOutcome(list, context.size, bytes, OffsetOf(context.reader, locals), labels)
  {
    hide NodeCode, Exec, LookupOutcome;
    NodeRuns(list, [], context, height, locals, bytes, fuel, labels);
  }

  lemma LoopLabelIsUnused(list: seq<Expanded>, size: OperandSize, bytes: Opcode, offset: nat, labels: Labels, loop: int)
    requires offset < |bytes|
    ensures OpcodeOutcome(list, size, bytes, offset, labels.(loop := loop)) == OpcodeOutcome(list, size, bytes, offset, labels)
  {
    hide Lookup, Seen, Longest, Finds;
  }

  /** The loop goes round once per further prefix, and then dispatches on the opcode. */
  lemma {:induction false} LoopRuns(list: seq<Expanded>, context: Context, height: nat, locals: Locals, bytes: Opcode,
      fuel: nat, labels: Labels)
    requires IdsDistinguish(list) && Denotes(context, height, labels)
    requires locals.offset < |bytes| && locals.byte == locals.opcode == bytes[locals.offset]
    requires fuel > |bytes| - locals.offset
    ensures ExecOne(Loop(NodeCode(list, [], context.InLoop())), height, locals, bytes, fuel) ==
            DispatchOutcome(list, Override, bytes, locals.offset, labels)
    decreases |bytes| - locals.offset
  {
    hide NodeCode, Exec, OpcodeOutcome, PrefixCode, CaseBytes, IdsDistinguish;
    var body, inside := context.InLoop(), labels.(loop := height);
    DepthsFollowNesting(context, height, labels, 0);
    if locals.byte == D.OPERAND_SIZE_PREFIX {
      var j := PrefixIndex(list);
      DepthsFollowNesting(body, height + 1, inside, j);
      PrefixCodeLoads(list, body.InCase(j), height + 2 + j, locals, bytes, fuel, inside);
      RootRunsPrefixCase(list, body, height + 1, locals, bytes, fuel);
      if locals.offset + 1 < |bytes| {
        LoopRuns(list, context, height, Loaded(locals, locals.offset + 1, bytes), bytes, fuel - 1, labels);
      }
    } else {
      RootRuns(list, body, height + 1, locals, bytes, fuel, inside);
      LoopLabelIsUnused(list, Override, bytes, locals.offset, labels, height);
    }
  }

  /** The dispatch code, started with the first byte loaded, does what the bytes say; it needs a turn per prefix. */
  lemma DispatchRuns(list: seq<Expanded>, context: Context, height: nat, locals: Locals, bytes: Opcode, fuel: nat, labels: Labels)
    requires IdsDistinguish(list) && Denotes(context, height, labels) && context.depths.prefixLoop.None?
    requires var offset := OffsetOf(context.reader, locals);
             offset < |bytes| && locals.byte == locals.opcode == bytes[offset]
    requires fuel > |bytes|
    ensures Exec(NodeCode(list, [], context), height, locals, bytes, fuel) ==
            DispatchOutcome(list, context.size, bytes, OffsetOf(context.reader, locals), labels)
  {
    hide NodeCode, Exec, OpcodeOutcome, PrefixCode, CaseBytes, IdsDistinguish;
    var next := OffsetOf(context.reader, locals) + 1;
    if locals.byte == D.OPERAND_SIZE_PREFIX {
      var j := PrefixIndex(list);
      DepthsFollowNesting(context, height, labels, j);
      PrefixCodeLoads(list, context.InCase(j), height + 1 + j, locals, bytes, fuel, labels);
      if next < |bytes| {
        LoopRuns(list, context.InCase(j), height + 1 + j, Loaded(locals, next, bytes), bytes, fuel, labels);
      }
      RootRunsPrefixCase(list, context, height, locals, bytes, fuel);
    } else {
      RootRuns(list, context, height, locals, bytes, fuel, labels);
    }
  }
}
