/**
 The interpreter's dispatch and the decoder. The nested switches reach the leaf that a lookup finds as long as no
 opcode has more than two bytes, and only then; and the handler that runs is the decoder's selection.
 */
module DispatchAgreement {
  import opened X86Types
  import opened OpcodePaths
  import opened InstructionSet
  import opened OpcodeDispatch
  import opened StructuredCode
  import opened InterpreterDispatch
  import opened TrieCode
  import opened PrefixLoop
  import D = Decoder

  /** What a lookup in the bytes themselves says is to happen. */
  ghost function LookedUp(list: seq<Expanded>, size: OperandSize, bytes: Opcode, offset: nat, labels: Labels): Outcome
    requires offset < |bytes|
  {
    LookupOutcome(Lookup(list, bytes[offset..], 0), size, bytes, offset, bytes[offset..], labels)
  }

  lemma TwoBytesDecide(list: seq<Expanded>, bytes: Opcode)
    requires Longest(list) <= 2 && |bytes| >= 2
    ensures !Undecided(list, bytes, 2)
  {
    forall k | 0 <= k < |list| && Begins(bytes[..2], list[k].opcode) ensures list[k].opcode == bytes[..2] {
      assert |list[k].opcode| == 2;
    }
    if Extends(list, bytes[..2]) { assert HasOpcode(list, bytes[..2]); }
  }

  /** A lookup that two bytes decide is the same in any bytes with those two. */
  lemma SameFirstTwo(list: seq<Expanded>, left: Opcode, right: Opcode, lookup: OpcodeLookup)
    requires Longest(list) <= 2 && Finds(list, left, lookup)
    requires |left| >= 2 && |right| >= 2 && left[..2] == right[..2]
    ensures Finds(list, right, lookup)
    ensures lookup.FoundLeaf? ==> lookup.leaf.opcodeLength <= 2
  {
    hide LeafFor, HasOpcode, Extends;
    TwoBytesDecide(list, left);
    assert left[..1] == left[..2][..1] && right[..1] == right[..2][..1];
    DecidedEarly(list, left, lookup);
  }

  lemma DecidedEarly(list: seq<Expanded>, bytes: Opcode, lookup: OpcodeLookup)
    requires |bytes| >= 2 && !Undecided(list, bytes, 2) && Finds(list, bytes, lookup)
    ensures !lookup.ReadFault? && 1 <= DecidedAt(list, bytes, lookup) <= 2
  {
    hide LeafFor, HasOpcode, Extends;
    var n :| 1 <= n <= 2 && !(Extends(list, bytes[..n]) && !HasOpcode(list, bytes[..n]));
  }

  /** With opcodes of at most two bytes, the code reads what it should. */
  lemma ShortOpcodesSeenRight(list: seq<Expanded>, size: OperandSize, bytes: Opcode, offset: nat, labels: Labels)
    requires Longest(list) <= 2 && offset < |bytes|
    ensures OpcodeOutcome(list, size, bytes, offset, labels) == LookedUp(list, size, bytes, offset, labels)
  {
    hide LeafOutcome, LeafFor, HasOpcode, Extends;
    var seen, rest := Seen(bytes, offset, Longest(list)), bytes[offset..];
    var lookup := Lookup(list, rest, 0);
    if |rest| == 1 {
      assert seen == rest;
    } else {
      assert seen[..2] == [bytes[offset], bytes[offset + 1]] == rest[..2];
      SameFirstTwo(list, rest, seen, lookup);
      FindsOne(list, seen, lookup, Lookup(list, seen, 0));
    }
  }

  // ---------- longer opcodes ----------

  /** A handler that runs belongs to an opcode that the code has seen. */
  lemma HandledHasOpcode(list: seq<Expanded>, lookup: OpcodeLookup, size: OperandSize, bytes: Opcode, offset: nat,
      seen: Opcode, labels: Labels)
    requires Finds(list, seen, lookup)
    ensures var outcome := LookupOutcome(lookup, size, bytes, offset, seen, labels);
            outcome.Handled? ==> Begins(outcome.instruction.opcode, seen)
  {
    var outcome := LookupOutcome(lookup, size, bytes, offset, seen, labels);
    if outcome.Handled? {
      var path := seen[..lookup.leaf.opcodeLength];
      var candidates := SetFor(list, path, size);
      if candidates.kind.NoModRm? {
        BucketMembers(list, path, size, None, candidates.noModRm[0]);
      } else {
        var reg := RegOf(bytes[offset + lookup.leaf.opcodeLength]);
        BucketMembers(list, path, size, Some(reg), candidates.modRmByReg[reg][0]);
      }
    }
  }

  lemma OpcodeFound(list: seq<Expanded>, seen: Opcode, k: nat)
    requires AllWellFormed(list) && k < |list| && Begins(list[k].opcode, seen) && !D.Shadowed(list, list[k].opcode)
    ensures Finds(list, seen, FoundLeaf(LeafFor(list, list[k].opcode)))
  {
    hide SetFor;
    var opcode := list[k].opcode;
    assert WellFormed(list[k]);
    assert seen[..|opcode|] == opcode;
    assert HasOpcode(list, opcode);
    forall n | 1 <= n <= |opcode| - 1 ensures Extends(list, seen[..n]) && !HasOpcode(list, seen[..n]) {
      assert seen[..n] == opcode[..n];
      assert Begins(seen[..n], list[k].opcode);
      assert forall j | 0 <= j < |list| && list[j].opcode == seen[..n] :: Begins(list[j].opcode, opcode);
    }
  }

  /** When the code sees an opcode that nothing shadows, a handler of that opcode runs. */
  lemma SeenOpcodeIsHandled(list: seq<Expanded>, k: nat, lookup: OpcodeLookup, bytes: Opcode, offset: nat, seen: Opcode, labels: Labels)
    requires AllWellFormed(list) && Unmixed(list) && k < |list| && Finds(list, seen, lookup)
    requires Begins(list[k].opcode, seen) && !D.Shadowed(list, list[k].opcode)
    requires offset + |list[k].opcode| < |bytes| && Reg3Matches(RegMatch(list[k]), RegOf(bytes[offset + |list[k].opcode|]))
    ensures lookup.FoundLeaf? && lookup.leaf.opcodeLength == |list[k].opcode|
    ensures var outcome := LookupOutcome(lookup, SizeOf(list[k]), bytes, offset, seen, labels);
            outcome.Handled? && outcome.instruction.opcode == list[k].opcode
  {
    var opcode, size := list[k].opcode, SizeOf(list[k]);
    OpcodeFound(list, seen, k);
    FindsOne(list, seen, lookup, FoundLeaf(LeafFor(list, opcode)));
    KindsExclude(list, opcode, size);
    assert HasKind(list, opcode, size, ReadsModRm(list[k]));
    assert list[k] in list;
    if ReadsModRm(list[k]) {
      var reg := RegOf(bytes[offset + |opcode|]);
      BucketMembers(list, opcode, size, Some(reg), list[k]);
      BucketMembers(list, opcode, size, Some(reg), Bucket(list, opcode, size, Some(reg))[0]);
    } else {
      BucketMembers(list, opcode, size, None, list[k]);
      BucketMembers(list, opcode, size, None, Bucket(list, opcode, size, None)[0]);
    }
  }

  ghost predicate SeenRight(list: seq<Expanded>, labels: Labels) {
    forall size: OperandSize, bytes: Opcode | bytes != [] ::
      OpcodeOutcome(list, size, bytes, 0, labels) == LookedUp(list, size, bytes, 0, labels)
  }

  /**
   The nested switches reach what a lookup finds, for all bytes, exactly when no opcode has more than two bytes: the
   third byte of a longer opcode is never read.
   */
  lemma ReachesLookupIffShort(list: seq<Expanded>, labels: Labels)
    requires AllWellFormed(list) && Unmixed(list)
    requires forall k | 0 <= k < |list| :: !D.Shadowed(list, list[k].opcode)
    ensures SeenRight(list, labels) <==> Longest(list) <= 2
  {
    if Longest(list) <= 2 {
      forall size: OperandSize, bytes: Opcode | bytes != []
        ensures OpcodeOutcome(list, size, bytes, 0, labels) == LookedUp(list, size, bytes, 0, labels)
      {
        ShortOpcodesSeenRight(list, size, bytes, 0, labels);
      }
    } else {
      var k := SomeLong(list);
      LongOpcodeMisread(list, k, labels);
    }
  }

  lemma {:induction false} SomeLong(list: seq<Expanded>) returns (k: nat)
    requires Longest(list) > 2
    ensures k < |list| && |list[k].opcode| > 2
  {
    k := |list| - 1;
    if |list[k].opcode| <= 2 {
      var before := SomeLong(list[..k]);
      k := before;
    }
  }

  /** A ModRM byte with the wanted reg field. */
  function ByteForReg(instruction: Expanded): (byte: Byte)
    requires WellFormed(instruction)
    ensures Reg3Matches(RegMatch(instruction), RegOf(byte))
  {
    var reg := RegMatch(instruction);
    if reg.None? then 0 else 8 * reg.value
  }

  /** An opcode of three or more bytes is missed when it is there, or found when it is not. */
  lemma LongOpcodeMisread(list: seq<Expanded>, k: nat, labels: Labels)
    requires AllWellFormed(list) && Unmixed(list) && k < |list| && |list[k].opcode| > 2
    requires !D.Shadowed(list, list[k].opcode)
    ensures !SeenRight(list, labels)
  {
    hide LookupOutcome, Lookup, Longest, SetFor, Unmixed, AllWellFormed, Seen;
    var opcode := list[k].opcode;
    assert WellFormed(list[k]) by { WellFormedAt(list, k); }
    var byte := ByteForReg(list[k]);
    var bytes := opcode + [byte];
    var seen := Seen(bytes, 0, Longest(list));
    assert bytes[0..] == bytes;
    if Begins(opcode, seen) {
      var changed: Byte := if opcode[2] == 0 then 1 else 0;
      var other := opcode[2 := changed] + [byte];
      SeenTwoOnly(bytes, other, Longest(list));
      assert other[0..] == other;
      SeenOpcodeIsHandled(list, k, Lookup(list, seen, 0), other, 0, seen, labels);
      HandledHasOpcode(list, Lookup(list, other, 0), SizeOf(list[k]), other, 0, other, labels);
      assert other[2] != opcode[2];
      assert OpcodeOutcome(list, SizeOf(list[k]), other, 0, labels) != LookedUp(list, SizeOf(list[k]), other, 0, labels);
    } else {
      SeenOpcodeIsHandled(list, k, Lookup(list, bytes, 0), bytes, 0, bytes, labels);
      HandledHasOpcode(list, Lookup(list, seen, 0), SizeOf(list[k]), bytes, 0, seen, labels);
      assert OpcodeOutcome(list, SizeOf(list[k]), bytes, 0, labels) != LookedUp(list, SizeOf(list[k]), bytes, 0, labels);
    }
  }

  lemma WellFormedAt(list: seq<Expanded>, k: nat)
    requires AllWellFormed(list) && k < |list|
    ensures WellFormed(list[k])
  {
  }

  lemma SeenTwoOnly(left: Opcode, right: Opcode, longest: nat)
    requires |left| >= 2 && |right| >= 2 && left[0] == right[0] && left[1] == right[1]
    ensures Seen(left, 0, longest) == Seen(right, 0, longest)
  {
  }
}
