/** The handler that the interpreter's dispatch runs is the one for the form that the decoder selects. */
module HandlerAgreement {
  import opened X86Types
  import opened OpcodePaths
  import opened InstructionSet
  import opened OpcodeDispatch
  import opened StructuredCode
  import opened InterpreterDispatch
  import opened TrieCode
  import opened PrefixLoop
  import opened DispatchAgreement
  import opened DispatchEmission
  import opened DecoderUniqueness
  import D = Decoder

  /** The matches ask for nothing but ModRM.reg, the only field that the interpreter dispatches on. */
  ghost predicate MatchRegOnly(list: seq<Expanded>) {
    forall k | 0 <= k < |list| :: FieldsOf(list[k].spec.modrm).mod.None? && FieldsOf(list[k].spec.modrm).rm.None?
  }

  function HandledAs(instruction: Expanded, size: OperandSize, offset: nat, labels: Labels): Outcome
    requires instruction.opcode != []
  {
    Handled(instruction, size, instruction.opcode[|instruction.opcode| - 1], offset, labels.done, labels.exit)
  }

  /** The first of a bucket is the first of the list that could be read, when its match allows the ModRM byte. */
  lemma FirstIsPicked(list: seq<Expanded>, size: OperandSize, bytes: Opcode, leaf: Leaf, bucket: Option<nat>, byte: Option<Byte>) returns (k: nat)
    requires AllWellFormed(list) && Unmixed(list) && Finds(list, bytes, FoundLeaf(leaf))
    requires match leaf.At(size).kind
             case NoModRm => bucket.None? && byte.None?
             case ModRm =>
               var modrm := D.DecodeModRm(bytes[leaf.opcodeLength..]);
               modrm.Some? && byte == Some(modrm.value.byte) && bucket == Some(RegOf(modrm.value.byte))
             case Empty => false
    requires var candidates := Bucket(list, bytes[..leaf.opcodeLength], size, bucket);
             candidates != [] && D.MatchesByte(candidates[0], byte)
    ensures k < |list| && D.Picks(list, size, bytes, k) && list[k] == Bucket(list, bytes[..leaf.opcodeLength], size, bucket)[0]
  {
    hide Bucket, InBucket, D.Readable, D.CutShort, D.MatchesByte;
    k := D.FirstOfBucket(list, bytes[..leaf.opcodeLength], size, bucket, byte, 0);
    forall j: nat
      ensures D.Readable(list, j, size, bytes) == D.Chosen(list, bytes[..leaf.opcodeLength], size, bucket, byte, j)
    {
      D.ReadableIsChosen(list, size, bytes, leaf, bucket, byte, j);
    }
  }

  lemma RegOnlyMatches(list: seq<Expanded>, path: Opcode, size: OperandSize, byte: Byte)
    requires MatchRegOnly(list)
    ensures forall c <- Bucket(list, path, size, Some(RegOf(byte))) :: D.MatchesByte(c, Some(byte))
  {
    forall c | c in Bucket(list, path, size, Some(RegOf(byte))) ensures D.MatchesByte(c, Some(byte)) {
      BucketMembers(list, path, size, Some(RegOf(byte)), c);
    }
  }

  lemma SelectedIsPicked(list: seq<Expanded>, size: OperandSize, bytes: Opcode, decoded: D.Decoded, prefixLength: nat) returns (k: nat)
    requires D.DecodesTo(list, size, bytes, decoded, prefixLength) && decoded.Selected?
    ensures k < |list| && D.Picks(list, size, bytes, k) && list[k] == decoded.instruction
  {
    k :| D.Picks(list, size, bytes, k) && list[k] == decoded.instruction;
  }

  lemma PickedOnce(list: seq<Expanded>, size: OperandSize, bytes: Opcode, j: nat, k: nat)
    requires D.Picks(list, size, bytes, j) && D.Picks(list, size, bytes, k)
    ensures j == k
  {
  }

  /** At a leaf with a complete ModRM part, or without one, the bucket's first candidate runs; it is what is picked. */
  lemma BucketFollowsDecoder(list: seq<Expanded>, size: OperandSize, bytes: Opcode, offset: nat, leaf: Leaf, labels: Labels,
      bucket: Option<nat>, byte: Option<Byte>)
    requires AllWellFormed(list) && Unmixed(list) && MatchRegOnly(list) && offset < |bytes|
    requires Finds(list, bytes[offset..], FoundLeaf(leaf))
    requires match leaf.At(size).kind
             case NoModRm => bucket.None? && byte.None?
             case ModRm =>
               var modrm := D.DecodeModRm(bytes[offset..][leaf.opcodeLength..]);
               modrm.Some? && byte == Some(modrm.value.byte) && bucket == Some(RegOf(modrm.value.byte))
             case Empty => false
    ensures var candidates := Bucket(list, bytes[offset..][..leaf.opcodeLength], size, bucket);
            LeafOutcome(leaf, size, bytes, offset, bytes[offset..][leaf.opcodeLength - 1], labels) ==
            HandledOr(FirstOf(candidates), size, offset, bytes[offset..][leaf.opcodeLength - 1], labels)
    ensures var candidates := Bucket(list, bytes[offset..][..leaf.opcodeLength], size, bucket);
            if candidates == [] then forall k: nat :: !D.Readable(list, k, size, bytes[offset..])
            else exists k: nat | k < |list| :: D.Picks(list, size, bytes[offset..], k) && list[k] == candidates[0]
  {
    hide Bucket, InBucket, D.Readable, D.CutShort, D.MatchesByte, D.Picks, MatchRegOnly;
    var rest := bytes[offset..];
    var path := rest[..leaf.opcodeLength];
    var candidates := Bucket(list, path, size, bucket);
    if leaf.At(size).kind.ModRm? {
      assert rest[leaf.opcodeLength..][0] == bytes[offset + leaf.opcodeLength];
    }
    if candidates == [] {
      D.NoneOfBucket(list, path, size, bucket, byte);
      forall k: nat ensures !D.Readable(list, k, size, rest) {
        D.ReadableIsChosen(list, size, rest, leaf, bucket, byte, k);
      }
    } else {
      assert candidates[0] in candidates;
      if byte.Some? { RegOnlyMatches(list, path, size, byte.value); } else { NoByteMatches(candidates[0]); }
      var k := FirstIsPicked(list, size, rest, leaf, bucket, byte);
    }
  }

  lemma NoByteMatches(instruction: Expanded)
    ensures D.MatchesByte(instruction, None)
  {
  }

  lemma BucketHasPath(list: seq<Expanded>, path: Opcode, size: OperandSize, bucket: Option<nat>)
    requires Bucket(list, path, size, bucket) != []
    ensures Bucket(list, path, size, bucket)[0].opcode == path
  {
    BucketMembers(list, path, size, bucket, Bucket(list, path, size, bucket)[0]);
  }

  lemma LeafFollowsDecoder(list: seq<Expanded>, size: OperandSize, bytes: Opcode, offset: nat, leaf: Leaf, labels: Labels, decoded: D.Decoded)
    requires AllWellFormed(list) && Unmixed(list) && MatchRegOnly(list) && offset < |bytes|
    requires Finds(list, bytes[offset..], FoundLeaf(leaf)) && D.DecodesTo(list, size, bytes[offset..], decoded, offset)
    ensures var outcome := LeafOutcome(leaf, size, bytes, offset, bytes[offset..][leaf.opcodeLength - 1], labels);
            && (decoded.Selected? ==>
                  decoded.instruction.opcode != [] && outcome == HandledAs(decoded.instruction, size, offset, labels))
            && (decoded.Unsupported? ==> outcome == ExitUnsupported(labels.exit))
  {
    hide Bucket, InBucket, D.Readable, D.CutShort, MatchRegOnly, LeafOutcome, D.RunsOut, D.UnsupportedAt;
    var rest := bytes[offset..];
    var kind := leaf.At(size).kind;
    var modrm := D.DecodeModRm(rest[leaf.opcodeLength..]);
    if kind.ModRm? && modrm.None? {
      D.LeafCutShort(list, size, rest, leaf);
    } else if kind.Empty? {
      EmptyLeaf(list, size, bytes, offset, leaf, labels);
    } else {
      var bucket: Option<nat> := if kind.ModRm? then Some(RegOf(modrm.value.byte)) else None;
      var byte: Option<Byte> := if kind.ModRm? then Some(modrm.value.byte) else None;
      BucketFollowsDecoder(list, size, bytes, offset, leaf, labels, bucket, byte);
      var path := rest[..leaf.opcodeLength];
      if Bucket(list, path, size, bucket) != [] {
        BucketHasPath(list, path, size, bucket);
        var k: nat :| k < |list| && D.Picks(list, size, rest, k) && list[k] == Bucket(list, path, size, bucket)[0];
        if decoded.Selected? {
          var picked := SelectedIsPicked(list, size, rest, decoded, offset);
          PickedOnce(list, size, rest, k, picked);
        }
      }
    }
  }

  lemma EmptyLeaf(list: seq<Expanded>, size: OperandSize, bytes: Opcode, offset: nat, leaf: Leaf, labels: Labels)
    requires AllWellFormed(list) && Unmixed(list) && offset < |bytes|
    requires Finds(list, bytes[offset..], FoundLeaf(leaf)) && leaf.At(size).kind.Empty?
    ensures LeafOutcome(leaf, size, bytes, offset, bytes[offset..][leaf.opcodeLength - 1], labels) == ExitUnsupported(labels.exit)
    ensures forall k: nat :: !D.Readable(list, k, size, bytes[offset..])
  {
    forall k: nat ensures !D.Readable(list, k, size, bytes[offset..]) {
      D.ReadableIsChosen(list, size, bytes[offset..], leaf, None, None, k);
    }
  }

  /** On the bytes after the prefixes. */
  lemma OpcodeFollowsDecoder(list: seq<Expanded>, size: OperandSize, bytes: Opcode, offset: nat, labels: Labels, decoded: D.Decoded)
    requires AllWellFormed(list) && Unmixed(list) && MatchRegOnly(list) && Longest(list) <= 2 && offset < |bytes|
    requires D.DecodesTo(list, size, bytes[offset..], decoded, offset)
    ensures decoded.Selected? ==>
              decoded.instruction.opcode != [] &&
              OpcodeOutcome(list, size, bytes, offset, labels) == HandledAs(decoded.instruction, size, offset, labels)
    ensures decoded.Unsupported? ==> OpcodeOutcome(list, size, bytes, offset, labels) == ExitUnsupported(labels.exit)
  {
    hide LeafOutcome, LeafFor, HasOpcode, Extends, D.Readable, D.RunsOut, D.UnsupportedAt, OpcodeOutcome;
    ShortOpcodesSeenRight(list, size, bytes, offset, labels);
    var rest := bytes[offset..];
    var lookup := Lookup(list, rest, 0);
    if lookup.FoundLeaf? {
      LeafFollowsDecoder(list, size, bytes, offset, lookup.leaf, labels, decoded);
    } else {
      D.NoForm(list, size, rest, lookup, offset);
    }
  }

  /**
   For opcodes of at most two bytes and matches on ModRM.reg alone: when the decoder selects a form, dispatch runs that
   form's handler, with its operand size, its last opcode byte and the length of its prefixes; when the decoder reports
   an unsupported instruction, so does dispatch. Both leave by the labels they were given.
   */
  lemma DispatchFollowsDecoder(list: seq<Expanded>, bytes: Opcode, labels: Labels, decoded: D.Decoded)
    requires AllWellFormed(list) && Unmixed(list) && MatchRegOnly(list) && Longest(list) <= 2
    requires D.Decodes(list, bytes, decoded)
    ensures decoded.Selected? ==>
              && decoded.instruction.opcode != []
              && DispatchOutcome(list, Default, bytes, 0, labels) ==
                 HandledAs(decoded.instruction, D.PrefixedSize(decoded.prefixLength), decoded.prefixLength, labels)
    ensures decoded.Unsupported? ==> DispatchOutcome(list, Default, bytes, 0, labels) == ExitUnsupported(labels.exit)
  {
    hide OpcodeOutcome, D.Readable, D.RunsOut, D.UnsupportedAt;
    var length := D.PrefixLength(bytes);
    assert bytes[0..] == bytes;
    PrefixesCounted(list, Default, bytes, 0, labels);
    if length < |bytes| {
      OpcodeFollowsDecoder(list, D.PrefixedSize(length), bytes, length, labels, decoded);
    }
  }

  /**
   Dispatch looks at no other field of the ModRM byte: the first candidate of the bucket runs whatever they are. It is
   the decoder's selection exactly when its match allows the byte.
   */
  lemma HandlerIsSelectionIffMatching(list: seq<Expanded>, size: OperandSize, bytes: Opcode, offset: nat, leaf: Leaf,
      labels: Labels, decoded: D.Decoded, byte: Byte)
    requires AllWellFormed(list) && Unmixed(list) && offset < |bytes|
    requires Finds(list, bytes[offset..], FoundLeaf(leaf)) && D.DecodesTo(list, size, bytes[offset..], decoded, offset)
    requires leaf.At(size).kind.ModRm?
    requires var modrm := D.DecodeModRm(bytes[offset..][leaf.opcodeLength..]); modrm.Some? && modrm.value.byte == byte
    requires leaf.At(size).modRmByReg[RegOf(byte)] != []
    ensures var first := leaf.At(size).modRmByReg[RegOf(byte)][0];
            && first.opcode != []
            && LeafOutcome(leaf, size, bytes, offset, bytes[offset..][leaf.opcodeLength - 1], labels) ==
               HandledAs(first, size, offset, labels)
            && (decoded == D.Selected(first, offset) <==> ModRmMatches(first.spec.modrm, byte))
  {
    hide Bucket, D.Readable, D.CutShort, D.RunsOut, D.UnsupportedAt;
    var rest := bytes[offset..];
    var path := rest[..leaf.opcodeLength];
    var bucket := Bucket(list, path, size, Some(RegOf(byte)));
    assert rest[leaf.opcodeLength..][0] == bytes[offset + leaf.opcodeLength];
    BucketMembers(list, path, size, Some(RegOf(byte)), bucket[0]);
    if ModRmMatches(bucket[0].spec.modrm, byte) {
      var k := FirstIsPicked(list, size, rest, leaf, Some(RegOf(byte)), Some(byte));
      assert D.Readable(list, k, size, rest);
      var picked := SelectedIsPicked(list, size, rest, decoded, offset);
      PickedOnce(list, size, rest, k, picked);
    } else if decoded == D.Selected(bucket[0], offset) {
      var picked := SelectedIsPicked(list, size, rest, decoded, offset);
      ReadableReads(list, picked, size, rest);
    }
  }

  lemma ReadableReads(list: seq<Expanded>, k: nat, size: OperandSize, bytes: Opcode)
    requires D.Readable(list, k, size, bytes)
    ensures D.Reads(list[k], size, bytes)
  {
  }

  // ---------- accepted sets ----------

  lemma ExpandedByOpcode(spec: InstructionSpec, k: nat)
    requires ValidInstructionSpec(spec) && k < |ExpandInstructionSpec(spec)|
    ensures ExpandInstructionSpec(spec)[k] ==
            Expanded(spec, Expansion(spec.opcode)[k], LowBits(spec.opcode, Expansion(spec.opcode)[k]))
  {
  }

  lemma {:induction false} ExpandedIsDetermined(specs: seq<InstructionSpec>, k: nat)
    requires AllValid(specs) && k < |ExpandAll(specs)|
    ensures var e := ExpandAll(specs)[k];
            ValidInstructionSpec(e.spec) && e.lowBits == LowBits(e.spec.opcode, e.opcode)
  {
    hide Expansion;
    var n := |specs| - 1;
    var before := ExpandAll(specs[..n]);
    if k < |before| {
      ExpandedIsDetermined(specs[..n], k);
    } else {
      ExpandedByOpcode(specs[n], k - |before|);
    }
  }

  /** In an accepted set an id and an opcode determine the expanded instruction. */
  lemma AcceptedIdsDistinguish(specs: seq<InstructionSpec>)
    requires Accepted(specs)
    ensures IdsDistinguish(ExpandAll(specs))
  {
    hide Expansion, ExpandAll, SpecsOverlap;
    var list := ExpandAll(specs);
    forall j, k | 0 <= j < |list| && 0 <= k < |list| && list[j].spec.id == list[k].spec.id && list[j].opcode == list[k].opcode
      ensures list[j] == list[k]
    {
      var s := ExpandedFrom(specs, j);
      var t := ExpandedFrom(specs, k);
      assert s == t;
      ExpandedIsDetermined(specs, j);
      ExpandedIsDetermined(specs, k);
    }
  }

  /**
   For an accepted set of short opcodes, running the emitted dispatch ends in the handler of the form that the decoder
   selects, or in the exit for unsupported instructions when it selects none.
   */
  lemma RunningDispatchFollowsDecoder(specs: seq<InstructionSpec>, height: nat, locals: Locals, bytes: Opcode, fuel: nat,
      decoded: D.Decoded)
    requires Accepted(specs) && MatchRegOnly(ExpandAll(specs)) && Longest(ExpandAll(specs)) <= 2
    requires height >= 3 && bytes != [] && locals.byte == bytes[0] && fuel > |bytes|
    requires D.Decodes(ExpandAll(specs), bytes, decoded)
    ensures var outcome := Exec(DispatchCode(ExpandAll(specs)), height, locals, bytes, fuel);
            && (decoded.Selected? ==>
                  && decoded.instruction.opcode != []
                  && outcome == HandledAs(decoded.instruction, D.PrefixedSize(decoded.prefixLength), decoded.prefixLength,
                                          Labels(height - 1, height - 3, -1)))
            && (decoded.Unsupported? ==> outcome == ExitUnsupported(height - 3))
  {
    hide Exec, DispatchCode, DispatchOutcome, D.Decodes, ExpandAll, SpecsOverlap, IdsDistinguish, Distinguished;
    AcceptedSetBuilds(specs);
    AcceptedIdsDistinguish(specs);
    DispatchCodeRuns(ExpandAll(specs), height, locals, bytes, fuel);
    DispatchFollowsDecoder(ExpandAll(specs), bytes, Labels(height - 1, height - 3, -1), decoded);
  }
}
