/**
 The code emitted for the opcode trie, as a function of the instructions, and what running it does: it reaches the
 leaf that a lookup finds, in the bytes as the code reads them.
 */
module TrieCode {
  import opened X86Types
  import opened OpcodePaths
  import opened InstructionSet
  import opened OpcodeDispatch
  import opened StructuredCode
  import opened InterpreterDispatch
  import D = Decoder

  function Longest(list: seq<Expanded>): (longest: nat)
    ensures forall k | 0 <= k < |list| :: |list[k].opcode| <= longest
  {
    if list == [] then 0
    else
      var rest, last := Longest(list[..|list| - 1]), |list[|list| - 1].opcode|;
      if last > rest then last else rest
  }

  /** The bytes below a limit that lead on from a path, in order. */
  ghost function DispatchBytes(list: seq<Expanded>, path: Opcode, limit: nat): (bytes: seq<Byte>)
    requires limit <= 0x100
    ensures forall b: Byte :: b in bytes <==> b < limit && Extends(list, path + [b])
  {
    if limit == 0 then []
    else
      var before := DispatchBytes(list, path, limit - 1);
      if Extends(list, path + [limit - 1]) then before + [limit - 1] else before
  }

  predicate IsPrefixCase(path: Opcode, byte: Byte) {
    byte == D.OPERAND_SIZE_PREFIX && path == []
  }

  /** The bytes that get a case; at the root the operand-size prefix is always one of them. */
  ghost function CaseBytes(list: seq<Expanded>, path: Opcode): (bytes: seq<Byte>)
    ensures forall b: Byte :: b in bytes <==> Extends(list, path + [b]) || IsPrefixCase(path, b)
  {
    var bytes := DispatchBytes(list, path, 0x100);
    if path != [] || D.OPERAND_SIZE_PREFIX in bytes then bytes else bytes + [D.OPERAND_SIZE_PREFIX]
  }

  function IndexOf(bytes: seq<Byte>, byte: Byte): (index: Option<nat>)
    ensures index.Some? ==> index.value < |bytes| && bytes[index.value] == byte
    ensures index.None? ==> byte !in bytes
  {
    if bytes == [] then None
    else if bytes[|bytes| - 1] == byte then Some(|bytes| - 1)
    else IndexOf(bytes[..|bytes| - 1], byte)
  }

  function DispatchTable(bytes: seq<Byte>): seq<nat> {
    seq(0x100, byte requires 0 <= byte < 0x100 =>
      var index := IndexOf(bytes, byte);
      if index.Some? then |bytes| - 1 - index.value else |bytes|)
  }

  function ByteBranch(bytes: seq<Byte>): Code {
    BrTable(OpcodeByte, DispatchTable(bytes), |bytes|)
  }

  // ---------- the emitted code ----------

  lemma ExtendsIsShort(list: seq<Expanded>, path: Opcode)
    requires Extends(list, path)
    ensures |path| <= Longest(list)
  {
  }

  ghost predicate CaseExists(list: seq<Expanded>, path: Opcode, byte: Byte) {
    Extends(list, path + [byte]) || IsPrefixCase(path, byte)
  }

  function LoopsLeft(context: Context): nat {
    if context.depths.prefixLoop.None? then 1 else 0
  }

  ghost function NodeCode(list: seq<Expanded>, path: Opcode, context: Context): seq<Code>
    requires |path| <= Longest(list)
    decreases LoopsLeft(context), Longest(list) - |path|, 1
  {
    var bytes := CaseBytes(list, path);
    if bytes == [] then [Unsupported(context.exitDepth)]
    else [Switch(NodeCases(list, path, context), ByteBranch(bytes)), Unsupported(context.exitDepth)]
  }

  ghost function NodeCases(list: seq<Expanded>, path: Opcode, context: Context): (cases: seq<seq<Code>>)
    requires |path| <= Longest(list)
    ensures |cases| == |CaseBytes(list, path)|
    ensures forall k | 0 <= k < |cases| ::
              CaseExists(list, path, CaseBytes(list, path)[k]) &&
              cases[k] == CaseCode(list, path, CaseBytes(list, path)[k], context.InCase(k))
    decreases LoopsLeft(context), Longest(list) - |path|, 0, 2
  {
    var bytes := CaseBytes(list, path);
    assert forall k | 0 <= k < |bytes| :: bytes[k] in bytes;
    seq(|bytes|, k requires 0 <= k < |bytes| => CaseCode(list, path, bytes[k], context.InCase(k)))
  }

  ghost function CaseCode(list: seq<Expanded>, path: Opcode, byte: Byte, context: Context): seq<Code>
    requires |path| <= Longest(list) && CaseExists(list, path, byte)
    decreases LoopsLeft(context), Longest(list) - |path|, 0, 1
  {
    if IsPrefixCase(path, byte) then PrefixCode(list, context)
    else
      ExtendsIsShort(list, path + [byte]);
      var leaf := LeafAt(list, path + [byte]);
      if leaf.Some? then LeafOrExit(leaf.value, context)
      else
        [LoadByte(context.reader, 1, context.exitDepth), KeepOpcode] +
        NodeCode(list, path + [byte], context.Child()) + [Unsupported(context.exitDepth)]
  }

  ghost function PrefixCode(list: seq<Expanded>, context: Context): seq<Code>
    decreases LoopsLeft(context), Longest(list), 0, 0
  {
    [NextOffset(context.reader), LoadByte(Local, 0, context.exitDepth), KeepOpcode] +
    (if context.depths.prefixLoop.Some? then [Br(context.depths.prefixLoop.value)]
     else [Loop(NodeCode(list, [], context.InLoop()))])
  }

  // ---------- the bytes as the code reads them ----------

  /**
   The opcode bytes that the nested switches see. The byte after the first is read at the same offset at every level,
   so from the third on the code sees the second one again.
   */
  function Seen(bytes: Opcode, offset: nat, longest: nat): (seen: Opcode)
    requires offset < |bytes|
    ensures seen != [] && seen[0] == bytes[offset]
  {
    if offset + 1 == |bytes| then [bytes[offset]]
    else [bytes[offset]] + seq(longest + 1, _ => bytes[offset + 1])
  }

  /** What following the list's opcodes from some undecided length on gives. */
  ghost function Lookup(list: seq<Expanded>, bytes: Opcode, length: nat): (lookup: OpcodeLookup)
    requires length <= |bytes|
    ensures Undecided(list, bytes, length) ==> Finds(list, bytes, lookup)
    decreases |bytes| - length
  {
    if length == |bytes| then ReadFault
    else if !Extends(list, bytes[..length + 1]) then UnsupportedOpcode(length + 1)
    else if HasOpcode(list, bytes[..length + 1]) then FoundLeaf(LeafFor(list, bytes[..length + 1]))
    else Lookup(list, bytes, length + 1)
  }

  /** Instructions of one opcode are told apart by their ids. */
  ghost predicate IdsDistinguish(list: seq<Expanded>) {
    forall j, k | 0 <= j < |list| && 0 <= k < |list| ::
      list[j].spec.id == list[k].spec.id && list[j].opcode == list[k].opcode ==> list[j] == list[k]
  }

  lemma LeavesUsable(list: seq<Expanded>, path: Opcode, size: OperandSize)
    requires IdsDistinguish(list)
    ensures Usable(SetFor(list, path, size))
  {
    hide Bucket;
    var buckets := BucketsFor(list, path, size);
    forall a, b, x: Expanded, y: Expanded | 0 <= a < 8 && 0 <= b < 8 && x in buckets[a] && y in buckets[b] && x.spec.id == y.spec.id
      ensures x == y
    {
      BucketMembers(list, path, size, Some(a), x);
      BucketMembers(list, path, size, Some(b), y);
    }
    forall reg, e: Expanded | 0 <= reg < 8 && e in buckets[reg] ensures Reg3Matches(RegMatch(e), reg) {
      BucketMembers(list, path, size, Some(reg), e);
    }
  }

  ghost function LookupOutcome(lookup: OpcodeLookup, size: OperandSize, bytes: Opcode, offset: nat, seen: Opcode, labels: Labels): Outcome
    requires lookup.FoundLeaf? ==>
               |lookup.leaf.At(size).modRmByReg| == 8 && 1 <= lookup.leaf.opcodeLength <= |seen|
  {
    match lookup
    case ReadFault => ExitDecodeFault(labels.exit)
    case UnsupportedOpcode(_) => ExitUnsupported(labels.exit)
    case FoundLeaf(leaf) => LeafOutcome(leaf, size, bytes, offset, seen[leaf.opcodeLength - 1], labels)
  }

  /** Control stands before the switch of a node whose path the code has seen, with the next byte loaded. */
  ghost predicate AtNode(list: seq<Expanded>, path: Opcode, reader: DecodeReader, locals: Locals, bytes: Opcode) {
    && OffsetOf(reader, locals) < |bytes|
    && var seen := Seen(bytes, OffsetOf(reader, locals), Longest(list));
       && |path| < |seen| && path == seen[..|path|] && Undecided(list, seen, |path|)
       && locals.byte == locals.opcode == seen[|path|]
  }

  ghost function NodeOutcome(list: seq<Expanded>, path: Opcode, context: Context, locals: Locals, bytes: Opcode, labels: Labels): (outcome: Outcome)
    requires AtNode(list, path, context.reader, locals, bytes)
    ensures !outcome.Next? && !outcome.Branch?
  {
    var seen := Seen(bytes, OffsetOf(context.reader, locals), Longest(list));
    LookupOutcome(Lookup(list, seen, |path|), context.size, bytes, OffsetOf(context.reader, locals), seen, labels)
  }

  /** Running the code of a node does what looking up the rest of the bytes it sees says. */
  lemma {:induction false} NodeRuns(list: seq<Expanded>, path: Opcode, context: Context, height: nat, locals: Locals,
      bytes: Opcode, fuel: nat, labels: Labels)
    requires IdsDistinguish(list) && |path| <= Longest(list) && Denotes(context, height, labels)
    requires AtNode(list, path, context.reader, locals, bytes) && !IsPrefixCase(path, locals.byte)
    ensures Exec(NodeCode(list, path, context), height, locals, bytes, fuel) ==
            NodeOutcome(list, path, context, locals, bytes, labels)
    decreases Longest(list) - |path|, 1
  {
    hide CaseCode, Exec, NodeOutcome, IdsDistinguish, AtNode, ByteBranch, Switch, ExecOne;
    var caseBytes := CaseBytes(list, path);
    var unsupported := Unsupported(context.exitDepth);
    NothingBeyond(list, path, context, locals, bytes, labels);
    UnsupportedRuns(context, height, locals, bytes, fuel, labels);
    if caseBytes != [] {
      var cases, branch := NodeCases(list, path, context), ByteBranch(caseBytes);
      assert NodeCode(list, path, context) == [Switch(cases, branch)] + [unsupported];
      ExecAppend([Switch(cases, branch)], [unsupported], height, locals, bytes, fuel);
      ExecSingle(Switch(cases, branch), height, locals, bytes, fuel);
      TableNamesCase(caseBytes, locals);
      var index := IndexOf(caseBytes, locals.byte);
      if index.Some? {
        DepthsFollowNesting(context, height, labels, index.value);
        SameNode(list, path, context, index.value, locals, bytes, labels);
        CaseRuns(list, path, context.InCase(index.value), height + 1 + index.value, locals, bytes, fuel, labels);
        SwitchSelects(cases, branch, height, index.value, locals, bytes, fuel);
      } else {
        SwitchDefault(cases, branch, height, locals, bytes, fuel);
      }
    }
  }

  lemma TableNamesCase(bytes: seq<Byte>, locals: Locals)
    ensures ByteBranch(bytes).BrTable?
    ensures TableDepth(ByteBranch(bytes).table, ByteBranch(bytes).default, OperandValue(ByteBranch(bytes).operand, locals)) ==
            var index := IndexOf(bytes, locals.byte);
            if index.Some? then |bytes| - 1 - index.value else |bytes|
  {
  }

  lemma SameNode(list: seq<Expanded>, path: Opcode, context: Context, index: nat, locals: Locals, bytes: Opcode, labels: Labels)
    requires AtNode(list, path, context.reader, locals, bytes)
    ensures AtNode(list, path, context.InCase(index).reader, locals, bytes)
    ensures NodeOutcome(list, path, context.InCase(index), locals, bytes, labels) ==
            NodeOutcome(list, path, context, locals, bytes, labels)
  {
  }

  lemma NothingBeyond(list: seq<Expanded>, path: Opcode, context: Context, locals: Locals, bytes: Opcode, labels: Labels)
    requires AtNode(list, path, context.reader, locals, bytes)
    ensures !Extends(list, path + [locals.byte]) ==>
              NodeOutcome(list, path, context, locals, bytes, labels) == ExitUnsupported(labels.exit)
  {
    var seen := Seen(bytes, OffsetOf(context.reader, locals), Longest(list));
    assert path + [locals.byte] == seen[..|path| + 1];
  }

  lemma {:induction false} CaseRuns(list: seq<Expanded>, path: Opcode, context: Context, height: nat, locals: Locals,
      bytes: Opcode, fuel: nat, labels: Labels)
    requires IdsDistinguish(list) && |path| <= Longest(list) && Denotes(context, height, labels)
    requires AtNode(list, path, context.reader, locals, bytes)
    requires !IsPrefixCase(path, locals.byte) && Extends(list, path + [locals.byte])
    ensures Exec(CaseCode(list, path, locals.byte, context), height, locals, bytes, fuel) ==
            NodeOutcome(list, path, context, locals, bytes, labels)
    decreases Longest(list) - |path|, 0
  {
    hide NodeCode, Exec, LeafOrExit, LeafOutcome, Usable, IdsDistinguish, SetFor, Extends;
    var offset := OffsetOf(context.reader, locals);
    var seen := Seen(bytes, offset, Longest(list));
    var next := path + [locals.byte];
    assert next == seen[..|path| + 1];
    ExtendsIsShort(list, next);
    var leaf := LeafAt(list, next);
    if leaf.Some? {
      LeavesUsable(list, next, context.size);
      LeafRuns(leaf.value, context, height, locals, bytes, fuel, labels);
    } else {
      var load := LoadByte(context.reader, 1, context.exitDepth);
      var child, exit := NodeCode(list, next, context.Child()), Unsupported(context.exitDepth);
      assert CaseCode(list, path, locals.byte, context) == [load] + ([KeepOpcode] + (child + [exit]));
      ExecAppend([load], [KeepOpcode] + (child + [exit]), height, locals, bytes, fuel);
      ExecSingle(load, height, locals, bytes, fuel);
      if offset + 1 < |bytes| {
        var loaded := locals.(byte := bytes[offset + 1]);
        var kept := loaded.(opcode := loaded.byte);
        ExecAppend([KeepOpcode], child + [exit], height, loaded, bytes, fuel);
        ExecSingle(KeepOpcode, height, loaded, bytes, fuel);
        ExecAppend(child, [exit], height, kept, bytes, fuel);
        StillUndecided(list, seen, |path|);
        assert AtNode(list, next, context.Child().reader, kept, bytes);
        NodeRuns(list, next, context.Child(), height, kept, bytes, fuel, labels);
      }
    }
  }

  lemma StillUndecided(list: seq<Expanded>, seen: Opcode, length: nat)
    requires length < |seen| && Undecided(list, seen, length)
    requires Extends(list, seen[..length + 1]) && !HasOpcode(list, seen[..length + 1])
    ensures Undecided(list, seen, length + 1)
  {
  }
}
