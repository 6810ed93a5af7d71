/**
 Emitting the interpreter's dispatch: the trie is walked and each node's switch is emitted, case by case, from the
 innermost block outwards.
 */
module DispatchEmission {
  import opened X86Types
  import opened OpcodePaths
  import opened InstructionSet
  import opened OpcodeDispatch
  import opened StructuredCode
  import opened InterpreterDispatch
  import opened TrieCode
  import opened PrefixLoop
  import D = Decoder

  // ---------- ModRM dispatch ----------

  method RegisterModRmTable(cases: seq<RegCase>) returns (table: seq<nat>)
    ensures table == RegTable(cases)
  {
    table := seq(8, _ => |cases|);
    for index := 0 to |cases|
      invariant |table| == 8
      invariant forall reg | 0 <= reg < 8 :: table[reg] == DepthOfReg(cases, index, reg)
    {
      var depth := |cases| - 1 - index;
      ghost var before := table;
      assert cases[..index + 1][..index] == cases[..index];
      for r := 0 to |cases[index].regs|
        invariant |table| == 8
        invariant forall reg | 0 <= reg < 8 :: table[reg] == if reg in cases[index].regs[..r] then depth else before[reg]
      {
        var reg := cases[index].regs[r];
        if reg < 8 { table := table[reg := depth]; }
      }
      assert cases[index].regs[..|cases[index].regs|] == cases[index].regs;
    }
    assert cases[..|cases|] == cases;
  }

  function DepthOfReg(cases: seq<RegCase>, index: nat, reg: nat): nat
    requires index <= |cases|
  {
    var found := CaseOfReg(cases[..index], reg);
    if found.Some? then |cases| - 1 - found.value else |cases|
  }

  method RegisterModRmDispatchCases(candidates: CandidateSet) returns (cases: seq<RegCase>)
    requires |candidates.modRmByReg| == 8
    ensures cases == RegCases(candidates.modRmByReg, 8)
  {
    cases := [];
    for reg := 0 to 8
      invariant cases == RegCases(candidates.modRmByReg, reg)
    {
      var instruction := SupportedFor(candidates.modRmByReg[reg], reg);
      if instruction.Some? {
        cases := WithReg(cases, instruction.value, reg);
      }
    }
  }

  method EmitModRmDispatch(body: BodyEncoder, cases: seq<RegCase>, context: Context)
    requires body.open != []
    modifies body
    ensures body.open == Appended(old(body.open), ModRmDispatchCode(cases, context))
  {
    hide Appended, RegTable;
    var table := RegisterModRmTable(cases);
    ghost var handlers, branch := RegHandlers(cases, context), BrTable(ModRmReg, RegTable(cases), |cases|);
    body.OpenSwitch(|cases|, BrTable(ModRmReg, table, |cases|));
    var index := |cases|;
    while index > 0
      invariant 0 <= index <= |cases|
      invariant body.open == InSwitch(old(body.open), index, Nest(handlers, branch, index))
    {
      index := index - 1;
      body.EndCase(old(body.open), index, Nest(handlers, branch, index + 1));
      ghost var ended := [Block(Nest(handlers, branch, index + 1))];
      AppendedInSwitch(old(body.open), index, ended, handlers[index]);
      body.Emit(HandlerFor(cases[index].instruction, context.InCase(index)));
    }
    body.EndSwitch(old(body.open), Nest(handlers, branch, 0));
    AppendedTwice(old(body.open), [Switch(handlers, branch)], [Unsupported(context.exitDepth)]);
    assert ModRmDispatchCode(cases, context) == [Switch(handlers, branch)] + [Unsupported(context.exitDepth)];
    body.Emit(Unsupported(context.exitDepth));
  }

  lemma AppendedTwice(frames: seq<Frame>, first: seq<Code>, second: seq<Code>)
    requires frames != []
    ensures Appended(Appended(frames, first), second) == Appended(frames, first + second)
  {
    var last := |frames| - 1;
    assert frames[last].codes + first + second == frames[last].codes + (first + second);
  }

  /** Emit the handlers of a leaf; nothing is emitted when it has none. */
  method EmitInstructionHandlerForLeaf(body: BodyEncoder, leaf: Leaf, context: Context) returns (emitted: bool)
    requires body.open != [] && |leaf.At(context.size).modRmByReg| == 8
    modifies body
    ensures emitted == LeafCode(leaf, context).Some?
    ensures body.open == if emitted then Appended(old(body.open), LeafCode(leaf, context).value) else old(body.open)
  {
    hide Appended, ModRmDispatchCode, RegCases;
    var candidates := leaf.At(context.size);
    match candidates.kind {
      case Empty =>
        return false;
      case NoModRm =>
        if candidates.noModRm == [] { return false; }
        body.Emit(HandlerFor(candidates.noModRm[0], context));
      case ModRm =>
        var cases := RegisterModRmDispatchCases(candidates);
        if cases == [] { return false; }
        body.Emit(LoadModRm(context.reader, leaf.opcodeLength, context.exitDepth));
        ghost var load := [LoadModRm(context.reader, leaf.opcodeLength, context.exitDepth)];
        if |cases| == 1 && |cases[0].regs| == 8 {
          AppendedTwice(old(body.open), load, [HandlerFor(cases[0].instruction, context)]);
          body.Emit(HandlerFor(cases[0].instruction, context));
        } else {
          AppendedTwice(old(body.open), load, ModRmDispatchCode(cases, context));
          EmitModRmDispatch(body, cases, context);
        }
    }
    return true;
  }

  // ---------- opcode dispatch ----------

  method BuildDispatchTable(bytes: seq<Byte>) returns (table: seq<nat>)
    ensures table == DispatchTable(bytes)
  {
    table := seq(0x100, _ => |bytes|);
    for index := 0 to |bytes|
      invariant |table| == 0x100
      invariant forall b | 0 <= b < 0x100 :: table[b] == DepthOfByte(bytes, index, b)
    {
      assert bytes[..index + 1][..index] == bytes[..index];
      table := table[bytes[index] := |bytes| - 1 - index];
    }
    assert bytes[..|bytes|] == bytes;
  }

  function DepthOfByte(bytes: seq<Byte>, index: nat, byte: Byte): nat
    requires index <= |bytes|
  {
    var found := IndexOf(bytes[..index], byte);
    if found.Some? then |bytes| - 1 - found.value else |bytes|
  }

  /** The bytes of a node's edges are those that lead on from its path. */
  lemma EdgesExtendPath(trie: OpcodeTrie, node: nat, list: seq<Expanded>, byte: Byte)
    requires trie.Valid(list) && node < |trie.nodes| && |trie.nodes| == |trie.paths|
    ensures byte in trie.nodes[node].next <==> Extends(list, trie.paths[node] + [byte])
    ensures byte in trie.nodes[node].next ==>
              trie.nodes[node].next[byte] < |trie.nodes| &&
              trie.paths[trie.nodes[node].next[byte]] == trie.paths[node] + [byte]
  {
    hide Extends;
    if byte in trie.nodes[node].next {
      EdgeLeads(trie.nodes, trie.paths, node, byte);
    } else {
      NoPathBeyond(trie.nodes, trie.paths, node, byte);
    }
  }

  method NodeDispatchBytes(trie: OpcodeTrie, node: nat, ghost list: seq<Expanded>) returns (bytes: seq<Byte>)
    requires trie.Valid(list) && node < |trie.nodes| && |trie.nodes| == |trie.paths|
    ensures bytes == DispatchBytes(list, trie.paths[node], 0x100)
  {
    hide Shape, NodesMatch, Extends, AllWellFormed, Unmixed;
    bytes := [];
    for byte := 0 to 0x100
      invariant bytes == DispatchBytes(list, trie.paths[node], byte)
    {
      EdgesExtendPath(trie, node, list, byte);
      if byte in trie.nodes[node].next { bytes := bytes + [byte]; }
    }
  }

  method DispatchBytesForContext(trie: OpcodeTrie, node: nat, context: Context, ghost list: seq<Expanded>) returns (bytes: seq<Byte>)
    requires trie.Valid(list) && node < |trie.nodes| && |trie.nodes| == |trie.paths|
    requires context.depths.opcode == |trie.paths[node]|
    ensures bytes == CaseBytes(list, trie.paths[node])
  {
    bytes := NodeDispatchBytes(trie, node, list);
    if context.depths.opcode == 0 && D.OPERAND_SIZE_PREFIX !in bytes {
      bytes := bytes + [D.OPERAND_SIZE_PREFIX];
    }
  }

  method EmitOpcodeDispatchNode(body: BodyEncoder, trie: OpcodeTrie, node: nat, context: Context, ghost list: seq<Expanded>)
    requires trie.Valid(list) && node < |trie.nodes| && |trie.nodes| == |trie.paths|
    requires context.depths.opcode == |trie.paths[node]| <= Longest(list) && body.open != []
    modifies body
    ensures body.open == Appended(old(body.open), NodeCode(list, trie.paths[node], context))
    decreases LoopsLeft(context), Longest(list) - |trie.paths[node]|, 2
  {
    hide Appended, CaseCode, DispatchTable, Shape, NodesMatch, Extends, AllWellFormed, Unmixed;
    ghost var path := trie.paths[node];
    var bytes := DispatchBytesForContext(trie, node, context, list);
    if bytes == [] {
      body.Emit(Unsupported(context.exitDepth));
      return;
    }
    ghost var cases, branch := NodeCases(list, path, context), ByteBranch(bytes);
    var table := BuildDispatchTable(bytes);
    body.OpenSwitch(|bytes|, BrTable(OpcodeByte, table, |bytes|));
    var index := |bytes|;
    while index > 0
      invariant 0 <= index <= |bytes|
      invariant body.open == InSwitch(old(body.open), index, Nest(cases, branch, index))
    {
      index := index - 1;
      body.EndCase(old(body.open), index, Nest(cases, branch, index + 1));
      ghost var ended := [Block(Nest(cases, branch, index + 1))];
      AppendedInSwitch(old(body.open), index, ended, cases[index]);
      EmitCase(body, trie, node, bytes[index], context.InCase(index), list);
    }
    body.EndSwitch(old(body.open), Nest(cases, branch, 0));
    AppendedTwice(old(body.open), [Switch(cases, branch)], [Unsupported(context.exitDepth)]);
    assert NodeCode(list, path, context) == [Switch(cases, branch)] + [Unsupported(context.exitDepth)];
    body.Emit(Unsupported(context.exitDepth));
  }

  method EmitCase(body: BodyEncoder, trie: OpcodeTrie, node: nat, byte: Byte, context: Context, ghost list: seq<Expanded>)
    requires trie.Valid(list) && node < |trie.nodes| && |trie.nodes| == |trie.paths|
    requires context.depths.opcode == |trie.paths[node]| <= Longest(list) && body.open != []
    requires CaseExists(list, trie.paths[node], byte)
    modifies body
    ensures body.open == Appended(old(body.open), CaseCode(list, trie.paths[node], byte, context))
    decreases LoopsLeft(context), Longest(list) - |trie.paths[node]|, 1
  {
    hide Appended, NodeCode, LeafCode, Shape, Extends, AllWellFormed, Unmixed, PrefixCode;
    if byte == D.OPERAND_SIZE_PREFIX && context.depths.opcode == 0 {
      EmitOperandSizePrefixCase(body, trie, context, list);
      return;
    }
    EdgesExtendPath(trie, node, list, byte);
    var child := trie.nodes[node].next[byte];
    ghost var next := trie.paths[node] + [byte];
    ExtendsIsShort(list, next);
    if trie.nodes[child].leaf.Some? {
      var leaf := trie.nodes[child].leaf.value;
      var emitted := EmitInstructionHandlerForLeaf(body, leaf, context);
      if !emitted { body.Emit(Unsupported(context.exitDepth)); }
    } else {
      ghost var base := body.open;
      ghost var head := [LoadByte(context.reader, 1, context.exitDepth), KeepOpcode];
      body.Emit(LoadByte(context.reader, 1, context.exitDepth));
      AppendedTwice(base, [LoadByte(context.reader, 1, context.exitDepth)], [KeepOpcode]);
      body.Emit(KeepOpcode);
      assert [LoadByte(context.reader, 1, context.exitDepth)] + [KeepOpcode] == head;
      EmitOpcodeDispatchNode(body, trie, child, context.Child(), list);
      AppendedTwice(base, head, NodeCode(list, next, context.Child()));
      AppendedTwice(base, head + NodeCode(list, next, context.Child()), [Unsupported(context.exitDepth)]);
      body.Emit(Unsupported(context.exitDepth));
    }
  }

  method EmitOperandSizePrefixCase(body: BodyEncoder, trie: OpcodeTrie, context: Context, ghost list: seq<Expanded>)
    requires trie.Valid(list) && body.open != []
    modifies body
    ensures body.open == Appended(old(body.open), PrefixCode(list, context))
    decreases LoopsLeft(context), Longest(list), 0
  {
    hide Appended, NodeCode, NodesMatch, Extends, AllWellFormed, Unmixed;
    ghost var base := body.open;
    ghost var move, load := NextOffset(context.reader), LoadByte(Local, 0, context.exitDepth);
    ghost var head := [move, load, KeepOpcode];
    ShapeHasRoot(trie.nodes, trie.paths);
    body.Emit(NextOffset(context.reader));
    body.Emit(LoadByte(Local, 0, context.exitDepth));
    body.Emit(KeepOpcode);
    AppendedTwice(base, [move], [load]);
    AppendedTwice(base, [move] + [load], [KeepOpcode]);
    assert [move] + [load] + [KeepOpcode] == head;
    AppendedTwice(base, head, [PrefixTail(list, context)]);
    if context.depths.prefixLoop.Some? {
      body.Emit(Br(context.depths.prefixLoop.value));
      return;
    }
    ghost var outside := body.open;
    body.OpenLoop();
    EmitOpcodeDispatchNode(body, trie, 0, context.InLoop(), list);
    LoopContents(outside, NodeCode(list, [], context.InLoop()));
    body.EndBlock();
  }

  lemma LoopContents(frames: seq<Frame>, codes: seq<Code>)
    requires frames != []
    ensures var inside := Appended(frames + [Frame(true, [])], codes);
            && |inside| == |frames| + 1 && inside[..|frames|] == frames
            && inside[|frames|] == Frame(true, codes)
  {
    assert [] + codes == codes;
  }

  /** The whole dispatch, and what running it does. */
  method EmitOpcodeDispatch(body: BodyEncoder, trie: OpcodeTrie, ghost list: seq<Expanded>)
    requires trie.Valid(list) && body.open != []
    modifies body
    ensures body.open == Appended(old(body.open), DispatchCode(list))
  {
    hide Appended, NodeCode, NodesMatch, Extends, AllWellFormed, Unmixed;
    ShapeHasRoot(trie.nodes, trie.paths);
    body.Emit(KeepOpcode);
    AppendedTwice(old(body.open), [KeepOpcode], NodeCode(list, [], RootContext()));
    EmitOpcodeDispatchNode(body, trie, 0, RootContext(), list);
  }

  // Around the dispatch are the block of the instruction, the loop over instructions and the block of the exit.
  function RootContext(): Context {
    Context(DispatchDepths.Root(), 2, Static(0), Default)
  }

  ghost function DispatchCode(list: seq<Expanded>): seq<Code> {
    [KeepOpcode] + NodeCode(list, [], RootContext())
  }

  /**
   Started with the first byte of the instruction, the dispatch code does what the bytes say: control leaves to a
   handler or through an exit, by the instruction's and the exit's own labels.
   */
  lemma DispatchCodeRuns(list: seq<Expanded>, height: nat, locals: Locals, bytes: Opcode, fuel: nat)
    requires IdsDistinguish(list) && height >= 3 && bytes != [] && locals.byte == bytes[0] && fuel > |bytes|
    ensures Exec(DispatchCode(list), height, locals, bytes, fuel) ==
            DispatchOutcome(list, Default, bytes, 0, Labels(height - 1, height - 3, -1))
  {
    hide NodeCode, Exec, DispatchOutcome;
    var kept := locals.(opcode := locals.byte);
    ExecAppend([KeepOpcode], NodeCode(list, [], RootContext()), height, locals, bytes, fuel);
    ExecSingle(KeepOpcode, height, locals, bytes, fuel);
    DispatchRuns(list, RootContext(), height, kept, bytes, fuel, Labels(height - 1, height - 3, -1));
  }
}
