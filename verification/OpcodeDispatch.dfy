/**
 The decoder's opcode trie. Building it from an accepted instruction set never fails, and following it selects what a
 scan over all instructions would.
 */
module OpcodeDispatch {
  import opened X86Types
  import opened OpcodePaths
  import opened InstructionSet

  datatype Expanded = Expanded(spec: InstructionSpec, opcode: Opcode, lowBits: Option<nat>)

  function ExpandInstructionSpec(spec: InstructionSpec): (expanded: seq<Expanded>)
    requires ValidInstructionSpec(spec)
    ensures |expanded| == |Expansion(spec.opcode)|
    ensures forall k | 0 <= k < |expanded| :: expanded[k].spec == spec && expanded[k].opcode == Expansion(spec.opcode)[k]
  {
    var opcodes := Expansion(spec.opcode);
    seq(|opcodes|, k requires 0 <= k < |opcodes| => Expanded(spec, opcodes[k], LowBits(spec.opcode, opcodes[k])))
  }

  function ExpandAll(specs: seq<InstructionSpec>): seq<Expanded>
    requires AllValid(specs)
  {
    if specs == [] then [] else ExpandAll(specs[..|specs| - 1]) + ExpandInstructionSpec(specs[|specs| - 1])
  }

  function SizeOf(instruction: Expanded): OperandSize {
    OperandSizePrefixMode(instruction.spec)
  }

  predicate ReadsModRm(instruction: Expanded) {
    InstructionReadsModRm(instruction.spec)
  }

  function RegMatch(instruction: Expanded): Option<int> {
    FieldsOf(instruction.spec.modrm).reg
  }

  ghost predicate WellFormed(instruction: Expanded) {
    ValidReg3(RegMatch(instruction)) && instruction.opcode != []
  }

  ghost predicate AllWellFormed(list: seq<Expanded>) {
    forall k | 0 <= k < |list| :: WellFormed(list[k])
  }

  // ---------- candidate sets ----------

  datatype Kind = Empty | NoModRm | ModRm

  datatype CandidateSet = CandidateSet(kind: Kind, noModRm: seq<Expanded>, modRmByReg: seq<seq<Expanded>>)

  datatype Leaf = Leaf(opcodeLength: nat, default: CandidateSet, override: CandidateSet) {
    function At(size: OperandSize): CandidateSet {
      if size.Default? then default else override
    }
  }

  // A bucket is the form without a ModRM byte, or one value of ModRM.reg.
  predicate InBucket(instruction: Expanded, path: Opcode, size: OperandSize, bucket: Option<nat>) {
    && instruction.opcode == path && SizeOf(instruction) == size
    && match bucket
       case None => !ReadsModRm(instruction)
       case Some(reg) => ReadsModRm(instruction) && Reg3Matches(RegMatch(instruction), reg)
  }

  /** The instructions of a bucket, in the order of the list. */
  function Bucket(list: seq<Expanded>, path: Opcode, size: OperandSize, bucket: Option<nat>): seq<Expanded> {
    if list == [] then []
    else
      var last := list[|list| - 1];
      var before := Bucket(list[..|list| - 1], path, size, bucket);
      if InBucket(last, path, size, bucket) then before + [last] else before
  }

  ghost predicate HasOpcode(list: seq<Expanded>, path: Opcode) {
    exists k :: 0 <= k < |list| && list[k].opcode == path
  }

  predicate Begins(path: Opcode, opcode: Opcode) {
    path <= opcode
  }

  /** Some opcode extends the path. */
  ghost predicate Extends(list: seq<Expanded>, path: Opcode) {
    exists k :: 0 <= k < |list| && Begins(path, list[k].opcode)
  }

  ghost predicate HasKind(list: seq<Expanded>, path: Opcode, size: OperandSize, readsModRm: bool) {
    exists k :: 0 <= k < |list| && list[k].opcode == path && SizeOf(list[k]) == size && ReadsModRm(list[k]) == readsModRm
  }

  ghost function KindFor(list: seq<Expanded>, path: Opcode, size: OperandSize): Kind {
    if HasKind(list, path, size, false) then NoModRm else if HasKind(list, path, size, true) then ModRm else Empty
  }

  function BucketsFor(list: seq<Expanded>, path: Opcode, size: OperandSize): (buckets: seq<seq<Expanded>>)
    ensures |buckets| == 8 && forall reg | 0 <= reg < 8 :: buckets[reg] == Bucket(list, path, size, Some(reg))
  {
    seq(8, reg requires 0 <= reg => Bucket(list, path, size, Some(reg)))
  }

  ghost function SetFor(list: seq<Expanded>, path: Opcode, size: OperandSize): CandidateSet {
    CandidateSet(KindFor(list, path, size), Bucket(list, path, size, None), BucketsFor(list, path, size))
  }

  ghost function LeafFor(list: seq<Expanded>, path: Opcode): Leaf {
    Leaf(|path|, SetFor(list, path, Default), SetFor(list, path, Override))
  }

  ghost function LeafAt(list: seq<Expanded>, path: Opcode): Option<Leaf> {
    if HasOpcode(list, path) then Some(LeafFor(list, path)) else None
  }

  /** Forms with the same opcode and operand size agree on whether a ModRM byte follows. */
  ghost predicate Unmixed(list: seq<Expanded>) {
    forall j, k | 0 <= j < k < |list| :: Alike(list[j], list[k])
  }

  predicate Alike(left: Expanded, right: Expanded) {
    left.opcode == right.opcode && SizeOf(left) == SizeOf(right) ==> ReadsModRm(left) == ReadsModRm(right)
  }

  function EmptySet(): CandidateSet {
    CandidateSet(Empty, [], [[], [], [], [], [], [], [], []])
  }

  lemma {:induction false} BucketMembers(list: seq<Expanded>, path: Opcode, size: OperandSize, bucket: Option<nat>, e: Expanded)
    ensures e in Bucket(list, path, size, bucket) <==> e in list && InBucket(e, path, size, bucket)
  {
    hide InBucket;
    if list != [] {
      BucketMembers(list[..|list| - 1], path, size, bucket, e);
      assert list == list[..|list| - 1] + [list[|list| - 1]];
    }
  }

  lemma NothingThere(list: seq<Expanded>, path: Opcode, size: OperandSize)
    requires !HasOpcode(list, path)
    ensures SetFor(list, path, size) == EmptySet()
  {
    forall bucket: Option<nat> ensures Bucket(list, path, size, bucket) == [] {
      var found := Bucket(list, path, size, bucket);
      if found != [] { BucketMembers(list, path, size, bucket, found[0]); }
    }
  }

  lemma AddedKind(list: seq<Expanded>, e: Expanded, path: Opcode, size: OperandSize, readsModRm: bool)
    ensures HasKind(list + [e], path, size, readsModRm) ==
              (HasKind(list, path, size, readsModRm) ||
               (e.opcode == path && SizeOf(e) == size && ReadsModRm(e) == readsModRm))
  {
    var all := list + [e];
    assert all[|list|] == e;
    if HasKind(list, path, size, readsModRm) {
      var k :| 0 <= k < |list| && list[k].opcode == path && SizeOf(list[k]) == size && ReadsModRm(list[k]) == readsModRm;
      assert all[k] == list[k];
    }
  }

  lemma AddedElsewhere(list: seq<Expanded>, e: Expanded, path: Opcode, size: OperandSize)
    requires e.opcode != path || SizeOf(e) != size
    ensures SetFor(list + [e], path, size) == SetFor(list, path, size)
  {
    hide HasKind;
    AddedKind(list, e, path, size, false);
    AddedKind(list, e, path, size, true);
    assert (list + [e])[..|list|] == list;
    assert BucketsFor(list + [e], path, size) == BucketsFor(list, path, size);
  }

  lemma AddedBucket(list: seq<Expanded>, e: Expanded, bucket: Option<nat>)
    ensures Bucket(list + [e], e.opcode, SizeOf(e), bucket) ==
              var before := Bucket(list, e.opcode, SizeOf(e), bucket);
              if InBucket(e, e.opcode, SizeOf(e), bucket) then before + [e] else before
  {
    assert (list + [e])[..|list|] == list;
  }

  lemma LeafElsewhere(list: seq<Expanded>, e: Expanded, path: Opcode)
    requires e.opcode != path
    ensures LeafAt(list + [e], path) == LeafAt(list, path)
  {
    AddedElsewhere(list, e, path, Default);
    AddedElsewhere(list, e, path, Override);
    assert forall k | 0 <= k < |list| :: (list + [e])[k] == list[k];
  }

  /** Adding one instruction to its candidate set; it fails when the set already holds forms of the other kind. */
  method AddCandidate(candidates: CandidateSet, e: Expanded, ghost list: seq<Expanded>) returns (added: Option<CandidateSet>)
    requires WellFormed(e) && candidates == SetFor(list, e.opcode, SizeOf(e)) && Unmixed(list)
    ensures added.None? <==> HasKind(list, e.opcode, SizeOf(e), !ReadsModRm(e))
    ensures added.Some? ==> added.value == SetFor(list + [e], e.opcode, SizeOf(e))
  {
    hide HasKind, Bucket;
    AddedKind(list, e, e.opcode, SizeOf(e), false);
    AddedKind(list, e, e.opcode, SizeOf(e), true);
    KindsExclude(list, e.opcode, SizeOf(e));
    AddedBucket(list, e, None);
    forall reg: nat ensures Bucket(list + [e], e.opcode, SizeOf(e), Some(reg)) ==
      var before := Bucket(list, e.opcode, SizeOf(e), Some(reg));
      if InBucket(e, e.opcode, SizeOf(e), Some(reg)) then before + [e] else before
    {
      AddedBucket(list, e, Some(reg));
    }
    if !ReadsModRm(e) {
      if candidates.kind == ModRm { return None; }
      assert BucketsFor(list + [e], e.opcode, SizeOf(e)) == candidates.modRmByReg;
      return Some(CandidateSet(NoModRm, candidates.noModRm + [e], candidates.modRmByReg));
    }
    if candidates.kind == NoModRm { return None; }
    var buckets := candidates.modRmByReg;
    if RegMatch(e).Some? {
      var reg := RegMatch(e).value;
      buckets := buckets[reg := buckets[reg] + [e]];
    } else {
      for reg := 0 to 8
        invariant |buckets| == 8
        invariant forall r | 0 <= r < reg :: buckets[r] == candidates.modRmByReg[r] + [e]
        invariant forall r | reg <= r < 8 :: buckets[r] == candidates.modRmByReg[r]
      {
        buckets := buckets[reg := buckets[reg] + [e]];
      }
    }
    assert BucketsFor(list + [e], e.opcode, SizeOf(e)) == buckets;
    return Some(CandidateSet(ModRm, candidates.noModRm, buckets));
  }

  lemma KindsExclude(list: seq<Expanded>, path: Opcode, size: OperandSize)
    requires Unmixed(list)
    ensures !(HasKind(list, path, size, false) && HasKind(list, path, size, true))
  {
  }

  lemma UnmixedStep(list: seq<Expanded>, e: Expanded)
    requires Unmixed(list)
    ensures Unmixed(list + [e]) <==> !HasKind(list, e.opcode, SizeOf(e), !ReadsModRm(e))
  {
    var all := list + [e];
    assert all[|list|] == e;
    if HasKind(list, e.opcode, SizeOf(e), !ReadsModRm(e)) {
      var k :| 0 <= k < |list| && list[k].opcode == e.opcode && SizeOf(list[k]) == SizeOf(e) && ReadsModRm(list[k]) == !ReadsModRm(e);
      assert all[k] == list[k] && !Alike(all[k], all[|list|]);
    } else {
      forall j, k | 0 <= j < k < |all| ensures Alike(all[j], all[k]) {
        assert all[j] == list[j];
        if k < |list| { assert Alike(list[j], list[k]); }
      }
    }
  }

  // ---------- the trie ----------

  // Nodes refer to each other by their position in the node table.
  datatype OpcodeDispatchNode = OpcodeDispatchNode(leaf: Option<Leaf>, next: map<Byte, nat>)

  predicate IsChild(parent: Opcode, child: Opcode) {
    |child| == |parent| + 1 && child[..|parent|] == parent
  }

  // What following the trie can give: the leaf, an unsupported opcode of some length, or a read past the end.
  datatype OpcodeLookup = FoundLeaf(leaf: Leaf) | UnsupportedOpcode(length: nat) | ReadFault

  /**
   The shortest opcode of the list that begins the bytes, or the length at which they leave every opcode, or the end
   of the bytes before either.
   */
  ghost predicate Finds(list: seq<Expanded>, bytes: Opcode, lookup: OpcodeLookup) {
    match lookup
    case FoundLeaf(leaf) =>
      && 1 <= leaf.opcodeLength <= |bytes|
      && LeafAt(list, bytes[..leaf.opcodeLength]) == Some(leaf)
      && Undecided(list, bytes, leaf.opcodeLength - 1)
    case UnsupportedOpcode(length) =>
      && 1 <= length <= |bytes|
      && !Extends(list, bytes[..length])
      && Undecided(list, bytes, length - 1)
    case ReadFault => Undecided(list, bytes, |bytes|)
  }

  /** The first bytes, up to a length, begin some opcode but are none. */
  ghost predicate Undecided(list: seq<Expanded>, bytes: Opcode, length: nat)
    requires length <= |bytes|
  {
    forall n | 1 <= n <= length :: Extends(list, bytes[..n]) && !HasOpcode(list, bytes[..n])
  }

  /** Edges lead to one-byte extensions. */
  ghost predicate EdgesExtend(nodes: seq<OpcodeDispatchNode>, paths: seq<Opcode>) {
    |nodes| == |paths| &&
    forall i | 0 <= i < |nodes| :: forall b <- nodes[i].next ::
      nodes[i].next[b] < |nodes| && paths[nodes[i].next[b]] == paths[i] + [b]
  }

  /** There is an edge to every one-byte extension that has a node. */
  ghost predicate EdgesComplete(nodes: seq<OpcodeDispatchNode>, paths: seq<Opcode>) {
    |nodes| == |paths| &&
    forall i, j | 0 <= i < |paths| && 0 <= j < |paths| && IsChild(paths[i], paths[j]) ::
      paths[j][|paths[i]|] in nodes[i].next
  }

  ghost predicate ParentsPresent(paths: seq<Opcode>) {
    |paths| > 0 && paths[0] == [] &&
    forall j | 0 < j < |paths| :: paths[j] != [] && paths[j][..|paths[j]| - 1] in paths
  }

  function Grown(nodes: seq<OpcodeDispatchNode>, node: nat, byte: Byte): seq<OpcodeDispatchNode>
    requires node < |nodes|
  {
    nodes[node := nodes[node].(next := nodes[node].next[byte := |nodes|])] + [OpcodeDispatchNode(None, map[])]
  }

  lemma GrownEdgesExtend(nodes: seq<OpcodeDispatchNode>, paths: seq<Opcode>, node: nat, byte: Byte)
    requires EdgesExtend(nodes, paths) && node < |nodes|
    ensures EdgesExtend(Grown(nodes, node, byte), paths + [paths[node] + [byte]])
  {
  }

  lemma GrownEdgesComplete(nodes: seq<OpcodeDispatchNode>, paths: seq<Opcode>, node: nat, byte: Byte)
    requires EdgesComplete(nodes, paths) && ParentsPresent(paths) && NoRepeats(paths) && node < |nodes|
    requires paths[node] + [byte] !in paths
    ensures EdgesComplete(Grown(nodes, node, byte), paths + [paths[node] + [byte]])
  {
    var path := paths[node] + [byte];
    var all, grown := paths + [path], Grown(nodes, node, byte);
    forall i, j | 0 <= i < |all| && 0 <= j < |all| && IsChild(all[i], all[j]) ensures all[j][|all[i]|] in grown[i].next {
      if j == |paths| {
        assert all[i] == paths[node];
      } else if i == |paths| {
        assert false;
      }
    }
  }

  /** Each node stands for one byte string, and its edges lead to the one-byte extensions that have a node. */
  ghost predicate Shape(nodes: seq<OpcodeDispatchNode>, paths: seq<Opcode>) {
    && |nodes| == |paths| && EdgesExtend(nodes, paths) && EdgesComplete(nodes, paths)
    && ParentsPresent(paths) && NoRepeats(paths)
  }

  lemma ShapeHasRoot(nodes: seq<OpcodeDispatchNode>, paths: seq<Opcode>)
    requires Shape(nodes, paths)
    ensures |nodes| == |paths| > 0 && paths[0] == []
    ensures LeavesKept(nodes, paths, nodes, paths) && PathsAdded(paths, paths, [])
  {
    assert paths[0] in paths;
  }

  /** Nodes made on the way have no leaf; the leaves of the others stay. */
  ghost predicate LeavesKept(before: seq<OpcodeDispatchNode>, beforePaths: seq<Opcode>,
      after: seq<OpcodeDispatchNode>, afterPaths: seq<Opcode>) {
    && |before| == |beforePaths| <= |after| == |afterPaths|
    && afterPaths[..|before|] == beforePaths
    && (forall i | 0 <= i < |before| :: after[i].leaf == before[i].leaf)
    && (forall i | |before| <= i < |after| :: after[i].leaf.None?)
  }

  lemma LeavesKeptAgain(first: seq<OpcodeDispatchNode>, firstPaths: seq<Opcode>, second: seq<OpcodeDispatchNode>,
      secondPaths: seq<Opcode>, third: seq<OpcodeDispatchNode>, thirdPaths: seq<Opcode>)
    requires LeavesKept(first, firstPaths, second, secondPaths) && LeavesKept(second, secondPaths, third, thirdPaths)
    ensures LeavesKept(first, firstPaths, third, thirdPaths)
  {
    assert thirdPaths[..|first|] == thirdPaths[..|second|][..|first|];
  }

  lemma EdgeLeads(nodes: seq<OpcodeDispatchNode>, paths: seq<Opcode>, node: nat, byte: Byte)
    requires Shape(nodes, paths) && node < |nodes| && byte in nodes[node].next
    ensures nodes[node].next[byte] < |nodes| && paths[nodes[node].next[byte]] == paths[node] + [byte]
    ensures paths[node] + [byte] in paths
  {
  }

  lemma NoPathBeyond(nodes: seq<OpcodeDispatchNode>, paths: seq<Opcode>, node: nat, byte: Byte)
    requires Shape(nodes, paths) && node < |nodes| && byte !in nodes[node].next
    ensures paths[node] + [byte] !in paths
  {
    NoEdgeNoPath(nodes, paths, node, byte);
  }

  lemma GrownShape(nodes: seq<OpcodeDispatchNode>, paths: seq<Opcode>, node: nat, byte: Byte)
    requires Shape(nodes, paths) && node < |nodes| && byte !in nodes[node].next
    ensures paths[node] + [byte] !in paths
    ensures Shape(Grown(nodes, node, byte), paths + [paths[node] + [byte]])
    ensures LeavesKept(nodes, paths, Grown(nodes, node, byte), paths + [paths[node] + [byte]])
  {
    NoEdgeNoPath(nodes, paths, node, byte);
    GrownEdgesExtend(nodes, paths, node, byte);
    GrownEdgesComplete(nodes, paths, node, byte);
    hide EdgesExtend, EdgesComplete, NoRepeats, ParentsPresent;
    GrownPaths(paths, node, byte);
  }

  lemma GrownPaths(paths: seq<Opcode>, node: nat, byte: Byte)
    requires ParentsPresent(paths) && NoRepeats(paths) && node < |paths| && paths[node] + [byte] !in paths
    ensures ParentsPresent(paths + [paths[node] + [byte]]) && NoRepeats(paths + [paths[node] + [byte]])
  {
    var path := paths[node] + [byte];
    assert path[..|path| - 1] == paths[node];
    assert forall j | 0 <= j < |paths| :: paths[j] in paths;
  }

  ghost predicate PathsAdded(before: seq<Opcode>, after: seq<Opcode>, opcode: Opcode) {
    forall path: Opcode :: path in after <==> path in before || Begins(path, opcode)
  }

  lemma PathAdded(before: seq<Opcode>, middle: seq<Opcode>, after: seq<Opcode>, opcode: Opcode, n: nat)
    requires n < |opcode| && PathsAdded(before, middle, opcode[..n])
    requires after == if opcode[..n + 1] in middle then middle else middle + [opcode[..n + 1]]
    ensures PathsAdded(before, after, opcode[..n + 1])
  {
    forall path: Opcode ensures path in after <==> path in before || Begins(path, opcode[..n + 1]) {
      LongerPrefix(path, opcode, n);
    }
  }

  class OpcodeTrie {
    var nodes: seq<OpcodeDispatchNode>
    ghost var paths: seq<Opcode>

    constructor ()
      ensures Shaped() && nodes == [OpcodeDispatchNode(None, map[])] && paths == [[]]
    {
      nodes := [OpcodeDispatchNode(None, map[])];
      paths := [[]];
    }

    ghost predicate Shaped()
      reads this
    {
      Shape(nodes, paths)
    }

    /** The nodes are those of the opcodes' beginnings, and each opcode's node holds its instructions. */
    ghost predicate Valid(list: seq<Expanded>)
      reads this
    {
      Shaped() && AllWellFormed(list) && Unmixed(list) && NodesMatch(list, nodes, paths)
    }

    /** The child of a node along a byte, made when there is none. */
    method Child(node: nat, byte: Byte) returns (child: nat)
      requires Shaped() && node < |nodes|
      modifies this
      ensures Shaped() && child < |nodes| && paths[child] == old(paths)[node] + [byte]
      ensures if old(paths)[node] + [byte] in old(paths)
              then nodes == old(nodes) && paths == old(paths)
              else paths == old(paths) + [old(paths)[node] + [byte]]
      ensures LeavesKept(old(nodes), old(paths), nodes, paths)
    {
      hide Shape, LeavesKept;
      ShapeHasRoot(nodes, paths);
      if byte in nodes[node].next {
        EdgeLeads(nodes, paths, node, byte);
        return nodes[node].next[byte];
      }
      GrownShape(nodes, paths, node, byte);
      child := |nodes|;
      nodes := nodes[node := nodes[node].(next := nodes[node].next[byte := child])] + [OpcodeDispatchNode(None, map[])];
      paths := paths + [paths[node] + [byte]];
    }

    /** The node of a whole opcode; the nodes on the way are made as needed. */
    method Descend(opcode: Opcode) returns (node: nat)
      requires Shaped()
      modifies this
      ensures Shaped() && node < |nodes| == |paths| && paths[node] == opcode
      ensures PathsAdded(old(paths), paths, opcode)
      ensures LeavesKept(old(nodes), old(paths), nodes, paths)
    {
      hide Shape, PathsAdded, LeavesKept;
      ShapeHasRoot(nodes, paths);
      node := 0;
      assert opcode[..0] == [];
      for n := 0 to |opcode|
        invariant Shaped() && node < |nodes| && |nodes| == |paths| && paths[node] == opcode[..n]
        invariant PathsAdded(old(paths), paths, opcode[..n])
        invariant LeavesKept(old(nodes), old(paths), nodes, paths)
      {
        assert opcode[..n + 1] == opcode[..n] + [opcode[n]];
        ghost var middle, middlePaths := nodes, paths;
        node := Child(node, opcode[n]);
        PathAdded(old(paths), middlePaths, paths, opcode, n);
        LeavesKeptAgain(old(nodes), old(paths), middle, middlePaths, nodes, paths);
      }
      assert opcode[..|opcode|] == opcode;
    }

    /** Record one instruction; it fails when its opcode already has forms of the other kind. */
    method Add(instruction: Expanded, ghost list: seq<Expanded>) returns (ok: bool)
      requires Valid(list) && WellFormed(instruction)
      modifies this
      ensures ok <==> Unmixed(list + [instruction])
      ensures ok ==> Valid(list + [instruction])
    {
      hide Shape, PathsAdded, LeavesKept, Unmixed, SetFor, LeafAt, AllWellFormed, HasKind, NodesMatch;
      ghost var before, beforePaths := nodes, paths;
      var node := Descend(instruction.opcode);
      LeafFound(list, before, beforePaths, nodes, paths, node);
      var leaf := if nodes[node].leaf.Some? then nodes[node].leaf.value
                  else Leaf(|instruction.opcode|, EmptySet(), EmptySet());
      UnmixedStep(list, instruction);
      var added := AddCandidate(leaf.At(SizeOf(instruction)), instruction, list);
      if added.None? { return false; }
      leaf := if SizeOf(instruction).Default? then leaf.(default := added.value) else leaf.(override := added.value);
      LeafAfter(list, instruction, leaf);
      NodesAfter(list, instruction, before, beforePaths, nodes, paths, node, leaf);
      WellFormedAfter(list, instruction);
      nodes := nodes[node := nodes[node].(leaf := Some(leaf))];
      return true;
    }

    /** Follow the bytes to the first node with a leaf. */
    method OpcodeLeaf(bytes: Opcode, ghost list: seq<Expanded>) returns (lookup: OpcodeLookup)
      requires Valid(list)
      ensures Finds(list, bytes, lookup)
    {
      hide Shape, Unmixed, AllWellFormed, SetFor, HasOpcode, Extends;
      ShapeHasRoot(nodes, paths);
      var node, length := 0, 1;
      while length <= |bytes|
        invariant 1 <= length <= |bytes| + 1 && node < |nodes| && paths[node] == bytes[..length - 1]
        invariant Undecided(list, bytes, length - 1)
      {
        var byte := bytes[length - 1];
        assert bytes[..length] == bytes[..length - 1] + [byte];
        if byte !in nodes[node].next {
          NoPathBeyond(nodes, paths, node, byte);
          return UnsupportedOpcode(length);
        }
        EdgeLeads(nodes, paths, node, byte);
        var next := nodes[node].next[byte];
        if nodes[next].leaf.Some? { return FoundLeaf(nodes[next].leaf.value); }
        node, length := next, length + 1;
      }
      return ReadFault;
    }
  }

  method BuildOpcodeDispatch(list: seq<Expanded>) returns (ok: bool, trie: OpcodeTrie)
    requires AllWellFormed(list)
    ensures ok <==> Unmixed(list)
    ensures ok ==> fresh(trie) && trie.Valid(list)
  {
    hide Unmixed, Shape;
    trie := new OpcodeTrie();
    EmptyTrie();
    for k := 0 to |list|
      invariant fresh(trie) && trie.Valid(list[..k])
    {
      assert list[..k + 1] == list[..k] + [list[k]];
      ok := trie.Add(list[k], list[..k]);
      if !ok {
        UnmixedBefore(list, k + 1);
        return;
      }
    }
    assert list[..|list|] == list;
    ok := true;
  }

  lemma EmptyTrie()
    ensures NodesMatch([], [OpcodeDispatchNode(None, map[])], [[]]) && Unmixed([])
  {
  }

  lemma UnmixedBefore(list: seq<Expanded>, n: nat)
    requires n <= |list| && !Unmixed(list[..n])
    ensures !Unmixed(list)
  {
    var j, k :| 0 <= j < k < n && !Alike(list[..n][j], list[..n][k]);
    assert !Alike(list[j], list[k]);
  }

  /** Only one result is right. */
  lemma FindsOne(list: seq<Expanded>, bytes: Opcode, left: OpcodeLookup, right: OpcodeLookup)
    requires Finds(list, bytes, left) && Finds(list, bytes, right)
    ensures left == right
  {
    hide LeafFor;
    var l, r := DecidedAt(list, bytes, left), DecidedAt(list, bytes, right);
    if left.FoundLeaf? && l <= |bytes| { OpcodeExtends(list, bytes[..l]); }
    if right.FoundLeaf? && r <= |bytes| { OpcodeExtends(list, bytes[..r]); }
  }

  ghost function DecidedAt(list: seq<Expanded>, bytes: Opcode, lookup: OpcodeLookup): nat {
    match lookup
    case FoundLeaf(leaf) => leaf.opcodeLength
    case UnsupportedOpcode(length) => length
    case ReadFault => |bytes| + 1
  }

  lemma OpcodeExtends(list: seq<Expanded>, path: Opcode)
    requires HasOpcode(list, path)
    ensures Extends(list, path)
  {
    var k :| 0 <= k < |list| && list[k].opcode == path;
    assert Begins(path, list[k].opcode);
  }

  lemma LongerPrefix(path: Opcode, opcode: Opcode, n: nat)
    requires n < |opcode|
    ensures Begins(path, opcode[..n + 1]) <==> Begins(path, opcode[..n]) || path == opcode[..n + 1]
  {
    if |path| <= n {
      assert opcode[..n + 1][..|path|] == opcode[..n][..|path|];
    }
  }

  ghost predicate NodesMatch(list: seq<Expanded>, nodes: seq<OpcodeDispatchNode>, paths: seq<Opcode>) {
    && |nodes| == |paths|
    && (forall i | 0 <= i < |nodes| :: nodes[i].leaf == LeafAt(list, paths[i]))
    && (forall path: Opcode :: path in paths <==> path == [] || Extends(list, path))
  }

  lemma WellFormedAfter(list: seq<Expanded>, e: Expanded)
    requires AllWellFormed(list) && WellFormed(e)
    ensures AllWellFormed(list + [e])
  {
  }

  /** A node just made has no leaf, and indeed no instruction has its path as opcode. */
  lemma LeafFound(list: seq<Expanded>, before: seq<OpcodeDispatchNode>, beforePaths: seq<Opcode>,
      nodes: seq<OpcodeDispatchNode>, paths: seq<Opcode>, node: nat)
    requires NodesMatch(list, before, beforePaths) && LeavesKept(before, beforePaths, nodes, paths)
    requires node < |nodes| && Shape(nodes, paths)
    ensures nodes[node].leaf == LeafAt(list, paths[node])
    ensures nodes[node].leaf.None? ==> LeafFor(list, paths[node]) == Leaf(|paths[node]|, EmptySet(), EmptySet())
    ensures nodes[node].leaf.Some? ==> nodes[node].leaf.value == LeafFor(list, paths[node])
  {
    hide SetFor, EdgesExtend, EdgesComplete, ParentsPresent;
    NewPathIsNew(beforePaths, paths, node);
    LeafBefore(list, paths[node]);
    if HasOpcode(list, paths[node]) {
      var k :| 0 <= k < |list| && list[k].opcode == paths[node];
      assert Begins(paths[node], list[k].opcode);
      assert Extends(list, paths[node]);
    }
  }

  lemma NewPathIsNew(before: seq<Opcode>, after: seq<Opcode>, k: nat)
    requires NoRepeats(after) && |before| <= |after| && after[..|before|] == before && k < |after|
    ensures k >= |before| ==> after[k] !in before
    ensures k < |before| ==> after[k] == before[k]
  {
    assert forall j | 0 <= j < |before| :: before[j] == after[j];
  }

  lemma NodesAfter(list: seq<Expanded>, e: Expanded, before: seq<OpcodeDispatchNode>, beforePaths: seq<Opcode>,
      nodes: seq<OpcodeDispatchNode>, paths: seq<Opcode>, node: nat, leaf: Leaf)
    requires NodesMatch(list, before, beforePaths) && LeavesKept(before, beforePaths, nodes, paths)
    requires PathsAdded(beforePaths, paths, e.opcode) && Shape(nodes, paths)
    requires node < |nodes| && paths[node] == e.opcode && LeafAt(list + [e], e.opcode) == Some(leaf)
    ensures NodesMatch(list + [e], nodes[node := nodes[node].(leaf := Some(leaf))], paths)
    ensures Shape(nodes[node := nodes[node].(leaf := Some(leaf))], paths)
  {
    hide Shape, PathsAdded, LeavesKept, LeafAt, Extends;
    LeafKeepsShape(nodes, paths, node, Some(leaf));
    ShapeHasRoot(nodes, paths);
    PathsAfter(list, e, before, beforePaths, paths);
    forall i | 0 <= i < |nodes| && i != node ensures nodes[i].leaf == LeafAt(list + [e], paths[i]) {
      NodeAfter(list, e, before, beforePaths, nodes, paths, node, i);
    }
  }

  lemma NodeAfter(list: seq<Expanded>, e: Expanded, before: seq<OpcodeDispatchNode>, beforePaths: seq<Opcode>,
      nodes: seq<OpcodeDispatchNode>, paths: seq<Opcode>, node: nat, i: nat)
    requires NodesMatch(list, before, beforePaths) && LeavesKept(before, beforePaths, nodes, paths) && Shape(nodes, paths)
    requires node < |nodes| == |paths| && paths[node] == e.opcode && i < |nodes| && i != node
    ensures nodes[i].leaf == LeafAt(list + [e], paths[i])
  {
    hide NodesMatch, LeavesKept, LeafAt, EdgesExtend, EdgesComplete, ParentsPresent;
    LeafFound(list, before, beforePaths, nodes, paths, i);
    LeafElsewhere(list, e, paths[i]);
  }

  lemma PathsAfter(list: seq<Expanded>, e: Expanded, nodes: seq<OpcodeDispatchNode>, before: seq<Opcode>, after: seq<Opcode>)
    requires NodesMatch(list, nodes, before) && PathsAdded(before, after, e.opcode)
    ensures forall path: Opcode :: path in after <==> path == [] || Extends(list + [e], path)
  {
    hide Extends, HasOpcode, LeafAt;
    ExtendsAfter(list, e);
  }

  lemma LeafKeepsShape(nodes: seq<OpcodeDispatchNode>, paths: seq<Opcode>, node: nat, leaf: Option<Leaf>)
    requires Shape(nodes, paths) && node < |nodes|
    ensures Shape(nodes[node := nodes[node].(leaf := leaf)], paths)
  {
    LeafKeepsEdges(nodes, paths, node, leaf);
    hide EdgesExtend, EdgesComplete, NoRepeats, ParentsPresent;
  }

  lemma LeafKeepsEdges(nodes: seq<OpcodeDispatchNode>, paths: seq<Opcode>, node: nat, leaf: Option<Leaf>)
    requires EdgesExtend(nodes, paths) && EdgesComplete(nodes, paths) && node < |nodes|
    ensures EdgesExtend(nodes[node := nodes[node].(leaf := leaf)], paths)
    ensures EdgesComplete(nodes[node := nodes[node].(leaf := leaf)], paths)
  {
  }

  lemma ExtendsAfter(list: seq<Expanded>, e: Expanded)
    ensures forall path: Opcode :: Extends(list + [e], path) <==> Extends(list, path) || Begins(path, e.opcode)
    ensures forall path: Opcode :: HasOpcode(list, path) ==> Extends(list, path)
    ensures Begins([], e.opcode)
  {
    var all := list + [e];
    assert all[|list|] == e;
    forall path: Opcode ensures Extends(all, path) <==> Extends(list, path) || Begins(path, e.opcode) {
      if Extends(list, path) {
        var k :| 0 <= k < |list| && Begins(path, list[k].opcode);
        assert all[k] == list[k];
      }
    }
    forall path: Opcode | HasOpcode(list, path) ensures Extends(list, path) {
      var k :| 0 <= k < |list| && list[k].opcode == path;
      assert Begins(path, list[k].opcode);
    }
  }

  lemma LeafAfter(list: seq<Expanded>, e: Expanded, leaf: Leaf)
    requires leaf.opcodeLength == |e.opcode|
    requires leaf.At(SizeOf(e)) == SetFor(list + [e], e.opcode, SizeOf(e))
    requires forall size: OperandSize | size != SizeOf(e) :: leaf.At(size) == SetFor(list, e.opcode, size)
    ensures LeafAt(list + [e], e.opcode) == Some(leaf)
  {
    assert (list + [e])[|list|].opcode == e.opcode;
    var other := if SizeOf(e).Default? then Override else Default;
    assert leaf.At(other) == SetFor(list, e.opcode, other);
    AddedElsewhere(list, e, e.opcode, other);
  }

  lemma LeafBefore(list: seq<Expanded>, path: Opcode)
    ensures !HasOpcode(list, path) ==> LeafFor(list, path) == Leaf(|path|, EmptySet(), EmptySet())
  {
    if !HasOpcode(list, path) {
      NothingThere(list, path, Default);
      NothingThere(list, path, Override);
    }
  }

  lemma NoEdgeNoPath(nodes: seq<OpcodeDispatchNode>, paths: seq<Opcode>, node: nat, byte: Byte)
    requires EdgesComplete(nodes, paths) && node < |nodes| && byte !in nodes[node].next
    ensures paths[node] + [byte] !in paths
  {
    assert IsChild(paths[node], paths[node] + [byte]);
  }
}
