/**
 Decoding an instruction: prefixes, the opcode trie, then the candidates of the leaf. The form it selects is the first
 one that a scan over the whole list would find, unless a shorter opcode shadows it.
 */
module Decoder {
  import opened X86Types
  import opened OpcodePaths
  import opened InstructionSet
  import opened OpcodeDispatch

  const MAX_X86_INSTRUCTION_LENGTH: nat := 15

  const OPERAND_SIZE_PREFIX: Byte := 0x66

  /** The bytes that decoding may read: those there are, up to the longest instruction. */
  function Available(bytes: Opcode): (available: Opcode)
    ensures available <= bytes && |available| <= MAX_X86_INSTRUCTION_LENGTH
    ensures available == bytes || |available| == MAX_X86_INSTRUCTION_LENGTH
  {
    if |bytes| <= MAX_X86_INSTRUCTION_LENGTH then bytes else bytes[..MAX_X86_INSTRUCTION_LENGTH]
  }

  // ---------- prefixes ----------

  function PrefixLength(bytes: Opcode): (length: nat)
    ensures length <= |bytes| && forall i | 0 <= i < length :: bytes[i] == OPERAND_SIZE_PREFIX
    ensures length < |bytes| ==> bytes[length] != OPERAND_SIZE_PREFIX
  {
    if bytes == [] || bytes[0] != OPERAND_SIZE_PREFIX then 0 else 1 + PrefixLength(bytes[1..])
  }

  function PrefixedSize(length: nat): OperandSize {
    if length > 0 then Override else Default
  }

  /** None when the bytes end before something that is not a prefix. */
  method DecodePrefixes(bytes: Opcode) returns (length: Option<nat>)
    ensures length == if PrefixLength(bytes) < |bytes| then Some(PrefixLength(bytes)) else None
  {
    var count := 0;
    while count < |bytes| && bytes[count] == OPERAND_SIZE_PREFIX
      invariant count <= |bytes| && PrefixLength(bytes) == count + PrefixLength(bytes[count..])
    {
      count := count + 1;
    }
    return if count < |bytes| then Some(count) else None;
  }

  // ---------- the ModRM byte ----------

  datatype DecodedModRm = DecodedModRm(byte: Byte, length: nat)

  predicate HasSib(byte: Byte) {
    ModOf(byte) != 3 && RmOf(byte) == 4
  }

  /** The length of the ModRM byte with its SIB byte and displacement. */
  function ModRmLength(byte: Byte, sib: Byte): (length: nat)
    ensures length >= if HasSib(byte) then 2 else 1
  {
    match ModOf(byte)
    case 0 => if RmOf(byte) == 4 then (if sib % 8 == 5 then 6 else 2) else if RmOf(byte) == 5 then 5 else 1
    case 1 => if RmOf(byte) == 4 then 3 else 2
    case 2 => if RmOf(byte) == 4 then 6 else 5
    case _ => 1
  }

  /** None when the bytes end inside it. */
  function DecodeModRm(bytes: Opcode): (modrm: Option<DecodedModRm>)
    ensures modrm.Some? ==> 1 <= modrm.value.length <= |bytes| && modrm.value.byte == bytes[0]
  {
    if bytes == [] || (HasSib(bytes[0]) && |bytes| < 2) then None
    else
      var length := ModRmLength(bytes[0], if |bytes| > 1 then bytes[1] else 0);
      if |bytes| < length then None else Some(DecodedModRm(bytes[0], length))
  }

  // ---------- reading a form ----------

  /** The bytes, after their prefixes, can be read as the form, with its whole ModRM part. */
  predicate Reads(instruction: Expanded, size: OperandSize, bytes: Opcode) {
    && Begins(instruction.opcode, bytes) && SizeOf(instruction) == size
    && (ReadsModRm(instruction) ==>
          var modrm := DecodeModRm(bytes[|instruction.opcode|..]);
          modrm.Some? && ModRmMatches(instruction.spec.modrm, modrm.value.byte))
  }

  /** The opcode begins with a shorter one. */
  ghost predicate Shadowed(list: seq<Expanded>, opcode: Opcode) {
    exists k :: 0 <= k < |list| && Begins(list[k].opcode, opcode) && list[k].opcode != opcode
  }

  ghost predicate Readable(list: seq<Expanded>, k: nat, size: OperandSize, bytes: Opcode) {
    k < |list| && Reads(list[k], size, bytes) && !Shadowed(list, list[k].opcode)
  }

  ghost predicate Picks(list: seq<Expanded>, size: OperandSize, bytes: Opcode, k: nat) {
    Readable(list, k, size, bytes) && forall j: nat | j < k :: !Readable(list, j, size, bytes)
  }

  // ---------- the candidates of a leaf ----------

  datatype Decoded = Selected(instruction: Expanded, prefixLength: nat) | Unsupported(length: nat) | Fault

  // Forms without a ModRM byte match whatever follows.
  predicate MatchesByte(instruction: Expanded, byte: Option<Byte>) {
    byte.Some? ==> ModRmMatches(instruction.spec.modrm, byte.value)
  }

  ghost predicate IsFirstMatch(candidates: seq<Expanded>, byte: Option<Byte>, i: nat) {
    && i < |candidates| && MatchesByte(candidates[i], byte)
    && forall j | 0 <= j < i :: !MatchesByte(candidates[j], byte)
  }

  method SelectCandidate(candidates: seq<Expanded>, byte: Option<Byte>) returns (selected: Option<nat>)
    ensures selected.None? ==> forall i | 0 <= i < |candidates| :: !MatchesByte(candidates[i], byte)
    ensures selected.Some? ==> IsFirstMatch(candidates, byte, selected.value)
  {
    for i := 0 to |candidates|
      invariant forall j | 0 <= j < i :: !MatchesByte(candidates[j], byte)
    {
      if MatchesByte(candidates[i], byte) { return Some(i); }
    }
    return None;
  }

  ghost predicate Chosen(list: seq<Expanded>, path: Opcode, size: OperandSize, bucket: Option<nat>, byte: Option<Byte>, k: nat) {
    k < |list| && InBucket(list[k], path, size, bucket) && MatchesByte(list[k], byte)
  }

  /** The first match of a bucket is the first one of the list. */
  lemma {:induction false} FirstOfBucket(list: seq<Expanded>, path: Opcode, size: OperandSize, bucket: Option<nat>,
      byte: Option<Byte>, i: nat) returns (k: nat)
    requires IsFirstMatch(Bucket(list, path, size, bucket), byte, i)
    ensures Chosen(list, path, size, bucket, byte, k) && list[k] == Bucket(list, path, size, bucket)[i]
    ensures forall j: nat | j < k :: !Chosen(list, path, size, bucket, byte, j)
  {
    hide InBucket, MatchesByte;
    var n := |list| - 1;
    var before := Bucket(list[..n], path, size, bucket);
    assert forall j | 0 <= j < |before| :: before[j] == Bucket(list, path, size, bucket)[j];
    if i < |before| {
      k := FirstOfBucket(list[..n], path, size, bucket, byte, i);
      assert forall j: nat | j < k :: list[..n][j] == list[j];
      assert forall j: nat | j < k :: Chosen(list[..n], path, size, bucket, byte, j) == Chosen(list, path, size, bucket, byte, j);
    } else {
      k := n;
      forall j: nat | j < k ensures !Chosen(list, path, size, bucket, byte, j) {
        assert list[..n][j] == list[j];
        BucketMembers(list[..n], path, size, bucket, list[j]);
      }
    }
  }

  lemma NoneOfBucket(list: seq<Expanded>, path: Opcode, size: OperandSize, bucket: Option<nat>, byte: Option<Byte>)
    requires forall c <- Bucket(list, path, size, bucket) :: !MatchesByte(c, byte)
    ensures forall j: nat :: !Chosen(list, path, size, bucket, byte, j)
  {
    forall j: nat | j < |list| ensures !Chosen(list, path, size, bucket, byte, j) {
      BucketMembers(list, path, size, bucket, list[j]);
    }
  }

  // ---------- what the trie decides ----------

  ghost predicate Decisive(list: seq<Expanded>, bytes: Opcode, k: nat) {
    k < |list| && Begins(list[k].opcode, bytes) && !Shadowed(list, list[k].opcode)
  }

  lemma NotUndecided(list: seq<Expanded>, bytes: Opcode, length: nat, k: nat)
    requires length <= |bytes| && Undecided(list, bytes, length) && AllWellFormed(list)
    requires k < |list| && Begins(list[k].opcode, bytes)
    ensures |list[k].opcode| > length
  {
    var n := |list[k].opcode|;
    assert WellFormed(list[k]);
    if 1 <= n <= length { assert HasOpcode(list, bytes[..n]); }
  }

  /** The leaf found has the opcode of every form that could be read and is not shadowed. */
  lemma LeafDecides(list: seq<Expanded>, bytes: Opcode, leaf: Leaf, k: nat)
    requires AllWellFormed(list) && Finds(list, bytes, FoundLeaf(leaf)) && k < |list|
    ensures Decisive(list, bytes, k) <==> list[k].opcode == bytes[..leaf.opcodeLength]
  {
    hide LeafFor;
    var m := leaf.opcodeLength;
    var path := bytes[..m];
    if Decisive(list, bytes, k) {
      NotUndecided(list, bytes, m - 1, k);
      var j :| 0 <= j < |list| && list[j].opcode == path;
      assert Begins(path, list[k].opcode);
    }
    if list[k].opcode == path && Shadowed(list, path) {
      var j :| 0 <= j < |list| && Begins(list[j].opcode, path) && list[j].opcode != path;
      NotUndecided(list, bytes, m - 1, j);
    }
  }

  lemma NothingDecides(list: seq<Expanded>, bytes: Opcode, lookup: OpcodeLookup, k: nat)
    requires AllWellFormed(list) && Finds(list, bytes, lookup) && !lookup.FoundLeaf?
    ensures !Decisive(list, bytes, k)
  {
    if k < |list| && Begins(list[k].opcode, bytes) {
      match lookup {
        case UnsupportedOpcode(length) =>
          NotUndecided(list, bytes, length - 1, k);
        case ReadFault =>
          NotUndecided(list, bytes, |bytes|, k);
      }
    }
  }

  // ---------- decoding ----------

  /** The bytes end before the opcode is settled, or inside the ModRM part of a form that they begin. */
  ghost predicate RunsOut(list: seq<Expanded>, size: OperandSize, bytes: Opcode) {
    Undecided(list, bytes, |bytes|) || exists k: nat :: CutShort(list, size, bytes, k)
  }

  ghost predicate CutShort(list: seq<Expanded>, size: OperandSize, bytes: Opcode, k: nat) {
    && Decisive(list, bytes, k) && SizeOf(list[k]) == size && ReadsModRm(list[k])
    && DecodeModRm(bytes[|list[k].opcode|..]).None?
  }

  /** How far decoding had read when it found no form: the opcode, and the ModRM part where the forms have one. */
  ghost predicate UnsupportedAt(list: seq<Expanded>, size: OperandSize, bytes: Opcode, length: nat) {
    exists lookup: OpcodeLookup :: Finds(list, bytes, lookup) && length == ReadBy(lookup, size, bytes)
  }

  ghost function ReadBy(lookup: OpcodeLookup, size: OperandSize, bytes: Opcode): nat {
    match lookup
    case UnsupportedOpcode(length) => length
    case ReadFault => 0
    case FoundLeaf(leaf) =>
      var modrm := if leaf.opcodeLength <= |bytes| then DecodeModRm(bytes[leaf.opcodeLength..]) else None;
      leaf.opcodeLength + (if leaf.At(size).kind.ModRm? && modrm.Some? then modrm.value.length else 0)
  }

  /** What decoding the bytes after the prefixes gives, by a scan over the list. */
  ghost predicate DecodesTo(list: seq<Expanded>, size: OperandSize, bytes: Opcode, decoded: Decoded, prefixLength: nat) {
    match decoded
    case Selected(instruction, length) =>
      length == prefixLength && exists k: nat :: Picks(list, size, bytes, k) && list[k] == instruction
    case Unsupported(length) =>
      && !RunsOut(list, size, bytes) && (forall k: nat :: !Readable(list, k, size, bytes))
      && length >= prefixLength && UnsupportedAt(list, size, bytes, length - prefixLength)
    case Fault =>
      RunsOut(list, size, bytes) && forall k: nat :: !Readable(list, k, size, bytes)
  }

  ghost predicate Decodes(list: seq<Expanded>, bytes: Opcode, decoded: Decoded) {
    var length := PrefixLength(bytes);
    if length == |bytes| then decoded == Fault
    else DecodesTo(list, PrefixedSize(length), bytes[length..], decoded, length)
  }

  method DecodeInstruction(trie: OpcodeTrie, bytes: Opcode, ghost list: seq<Expanded>) returns (decoded: Decoded)
    requires trie.Valid(list)
    ensures Decodes(list, Available(bytes), decoded)
  {
    hide DecodesTo, Finds, Available, PrefixLength, Shape, NodesMatch, Unmixed, AllWellFormed;
    var available := Available(bytes);
    var prefix := DecodePrefixes(available);
    if prefix.None? { return Fault; }
    var rest, size := available[prefix.value..], PrefixedSize(prefix.value);
    var lookup := trie.OpcodeLeaf(rest, list);
    match lookup {
      case ReadFault =>
        NoForm(list, size, rest, lookup, prefix.value);
        decoded := Fault;
      case UnsupportedOpcode(length) =>
        NoForm(list, size, rest, lookup, prefix.value);
        decoded := Unsupported(prefix.value + length);
      case FoundLeaf(leaf) =>
        decoded := DispatchCandidates(leaf, size, rest, prefix.value, list);
    }
  }

  lemma NoForm(list: seq<Expanded>, size: OperandSize, bytes: Opcode, lookup: OpcodeLookup, prefixLength: nat)
    requires AllWellFormed(list) && Finds(list, bytes, lookup) && !lookup.FoundLeaf?
    ensures lookup.ReadFault? ==> DecodesTo(list, size, bytes, Fault, prefixLength)
    ensures lookup.UnsupportedOpcode? ==> DecodesTo(list, size, bytes, Unsupported(prefixLength + lookup.length), prefixLength)
  {
    forall k: nat ensures !Decisive(list, bytes, k) {
      NothingDecides(list, bytes, lookup, k);
    }
    assert forall k: nat :: Readable(list, k, size, bytes) ==> Decisive(list, bytes, k);
    if lookup.UnsupportedOpcode? {
      assert !Extends(list, bytes[..lookup.length]);
      assert !Undecided(list, bytes, |bytes|);
      assert ReadBy(lookup, size, bytes) == prefixLength + lookup.length - prefixLength;
    }
  }

  /** A form that could be read is one of those at the leaf, in the bucket that the ModRM byte picks. */
  lemma ReadableIsChosen(list: seq<Expanded>, size: OperandSize, bytes: Opcode, leaf: Leaf, bucket: Option<nat>,
      byte: Option<Byte>, k: nat)
    requires AllWellFormed(list) && Unmixed(list) && Finds(list, bytes, FoundLeaf(leaf))
    requires match leaf.At(size).kind
             case NoModRm => bucket.None? && byte.None?
             case ModRm =>
               var modrm := DecodeModRm(bytes[leaf.opcodeLength..]);
               modrm.Some? && byte == Some(modrm.value.byte) && bucket == Some(RegOf(modrm.value.byte))
             case Empty => true
    ensures !leaf.At(size).kind.Empty? ==>
              (Readable(list, k, size, bytes) <==> Chosen(list, bytes[..leaf.opcodeLength], size, bucket, byte, k))
    ensures leaf.At(size).kind.Empty? ==> !Readable(list, k, size, bytes)
    ensures !CutShort(list, size, bytes, k)
  {
    var path := bytes[..leaf.opcodeLength];
    if k < |list| {
      LeafDecides(list, bytes, leaf, k);
      KindsExclude(list, path, size);
      if list[k].opcode == path && SizeOf(list[k]) == size {
        assert HasKind(list, path, size, ReadsModRm(list[k]));
      }
    }
  }

  method DispatchCandidates(leaf: Leaf, size: OperandSize, bytes: Opcode, prefixLength: nat, ghost list: seq<Expanded>)
    returns (decoded: Decoded)
    requires AllWellFormed(list) && Unmixed(list) && Finds(list, bytes, FoundLeaf(leaf))
    ensures DecodesTo(list, size, bytes, decoded, prefixLength)
  {
    var candidates := leaf.At(size);
    var bucket, byte: Option<Byte>, read := None, None, leaf.opcodeLength;
    if candidates.kind.ModRm? {
      var modrm := DecodeModRm(bytes[leaf.opcodeLength..]);
      if modrm.None? {
        LeafCutShort(list, size, bytes, leaf);
        return Fault;
      }
      bucket, byte, read := Some(RegOf(modrm.value.byte)), Some(modrm.value.byte), read + modrm.value.length;
    }
    forall k: nat
      ensures if candidates.kind.Empty? then !Readable(list, k, size, bytes)
              else Readable(list, k, size, bytes) == Chosen(list, bytes[..leaf.opcodeLength], size, bucket, byte, k)
      ensures !CutShort(list, size, bytes, k)
    {
      ReadableIsChosen(list, size, bytes, leaf, bucket, byte, k);
    }
    if !candidates.kind.Empty? {
      var chosen := if bucket.None? then candidates.noModRm else candidates.modRmByReg[bucket.value];
      var selected := SelectCandidate(chosen, byte);
      if selected.Some? {
        ghost var k := FirstOfBucket(list, bytes[..leaf.opcodeLength], size, bucket, byte, selected.value);
        assert Picks(list, size, bytes, k);
        return Selected(chosen[selected.value], prefixLength);
      }
      NoneOfBucket(list, bytes[..leaf.opcodeLength], size, bucket, byte);
    }
    assert ReadBy(FoundLeaf(leaf), size, bytes) == read;
    return Unsupported(prefixLength + read);
  }

  lemma LeafCutShort(list: seq<Expanded>, size: OperandSize, bytes: Opcode, leaf: Leaf)
    requires AllWellFormed(list) && Unmixed(list) && Finds(list, bytes, FoundLeaf(leaf))
    requires leaf.At(size).kind.ModRm? && DecodeModRm(bytes[leaf.opcodeLength..]).None?
    ensures RunsOut(list, size, bytes) && forall k: nat :: !Readable(list, k, size, bytes)
  {
    var path := bytes[..leaf.opcodeLength];
    var k :| 0 <= k < |list| && list[k].opcode == path && SizeOf(list[k]) == size && ReadsModRm(list[k]);
    LeafDecides(list, bytes, leaf, k);
    assert CutShort(list, size, bytes, k);
    forall j: nat | j < |list| ensures !Readable(list, j, size, bytes) {
      LeafDecides(list, bytes, leaf, j);
      if list[j].opcode == path && SizeOf(list[j]) == size {
        assert HasKind(list, path, size, ReadsModRm(list[j]));
      }
    }
  }
}
