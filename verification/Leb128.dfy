/** LEB128 integers as in section 5.2.2 of the WebAssembly Core Specification. */
module Leb128 {
  import opened X86Types
  import Bits

  type Byte = x: nat | x < 0x100

  // ---------- unsigned ----------

  function EncodeUnsigned(value: nat): (bytes: seq<Byte>)
    ensures bytes != []
  {
    if value < 0x80 then [value] else [value % 0x80 + 0x80] + EncodeUnsigned(value / 0x80)
  }

  /** The number at the front of some bytes, and how many bytes it takes. */
  function DecodeUnsigned(bytes: seq<Byte>): Option<(nat, nat)> {
    if bytes == [] then None
    else if bytes[0] < 0x80 then Some((bytes[0], 1))
    else
      var rest := DecodeUnsigned(bytes[1..]);
      if rest.Some? then Some((bytes[0] - 0x80 + 0x80 * rest.value.0, rest.value.1 + 1)) else None
  }

  lemma {:induction false} UnsignedRoundTrip(value: nat, tail: seq<Byte>)
    ensures DecodeUnsigned(EncodeUnsigned(value) + tail) == Some((value, |EncodeUnsigned(value)|))
  {
    if value >= 0x80 {
      UnsignedRoundTrip(value / 0x80, tail);
      var rest := EncodeUnsigned(value / 0x80);
      assert (EncodeUnsigned(value) + tail)[1..] == rest + tail;
    }
  }

  /** No byte string that decodes to a value is shorter than its encoding. */
  lemma {:induction false} UnsignedMinimal(bytes: seq<Byte>)
    ensures
      var decoded := DecodeUnsigned(bytes);
      decoded.Some? ==> |EncodeUnsigned(decoded.value.0)| <= decoded.value.1 <= |bytes|
  {
    if bytes != [] && bytes[0] >= 0x80 {
      UnsignedMinimal(bytes[1..]);
      var rest := DecodeUnsigned(bytes[1..]);
      if rest.Some? {
        Bits.DivisionUnique(bytes[0] - 0x80 + 0x80 * rest.value.0, 0x80, rest.value.0, bytes[0] - 0x80);
      }
    }
  }

  function Power128(n: nat): (p: nat)
    ensures p > 0
  {
    if n == 0 then 1 else 0x80 * Power128(n - 1)
  }

  lemma {:induction false} UnsignedLength(value: nat, n: nat)
    requires n > 0
    ensures |EncodeUnsigned(value)| <= n <==> value < Power128(n)
  {
    if n == 1 {
      assert Power128(1) == 0x80 * Power128(0);
    } else if value >= 0x80 {
      UnsignedLength(value / 0x80, n - 1);
    } else {
      assert Power128(n) >= 0x80;
    }
  }

  lemma PowersOf128()
    ensures Power128(4) == 0x1000_0000 && Power128(5) == 0x8_0000_0000
    ensures Power128(9) == 0x8000_0000_0000_0000
  {
    assert Power128(2) == 0x4000;
    assert Power128(4) == 0x4000 * 0x4000;
    assert Power128(6) == 0x4000 * Power128(4);
    assert Power128(8) == 0x4000 * Power128(6);
  }

  /** Values out of range are rejected. */
  method EncodeU32Leb128(value: int) returns (encoded: Option<seq<Byte>>)
    ensures encoded.Some? <==> 0 <= value < 0x1_0000_0000
    ensures encoded.Some? ==> encoded.value == EncodeUnsigned(value) && |encoded.value| <= 5
  {
    if value < 0 || value > 0xffff_ffff {
      return None;
    }
    var bytes: seq<Byte> := [];
    var remaining: nat := value;
    var done := false;
    while !done
      invariant !done ==> bytes + EncodeUnsigned(remaining) == EncodeUnsigned(value)
      invariant done ==> bytes == EncodeUnsigned(value)
      decreases if done then 0 else remaining + 1
    {
      var low := remaining % 0x80;
      remaining := remaining / 0x80;
      bytes := AppendLeb128Byte(bytes, low, remaining != 0);
      done := remaining == 0;
    }
    PowersOf128();
    UnsignedLength(value, 5);
    encoded := Some(bytes);
  }

  function AppendLeb128Byte(bytes: seq<Byte>, low: nat, more: bool): (after: seq<Byte>)
    requires low < 0x80
    ensures |after| == |bytes| + 1 && (after[|bytes|] >= 0x80 <==> more)
  {
    bytes + [if more then low + 0x80 else low]
  }

  // ---------- signed ----------

  predicate Last(rest: int, low: nat) {
    (rest == 0 && low < 0x40) || (rest == -1 && low >= 0x40)
  }

  function EncodeSigned(value: int): (bytes: seq<Byte>)
    ensures bytes != []
    decreases if value < 0 then -value else value
  {
    var low, rest := value % 0x80, value / 0x80;
    if Last(rest, low) then [low] else [low + 0x80] + EncodeSigned(rest)
  }

  function DecodeSigned(bytes: seq<Byte>): Option<(int, nat)> {
    if bytes == [] then None
    else
      var first: int := bytes[0];
      if first < 0x40 then Some((first, 1))
      else if first < 0x80 then Some((first - 0x80, 1))
      else
        var rest := DecodeSigned(bytes[1..]);
        if rest.Some? then Some((first - 0x80 + 0x80 * rest.value.0, rest.value.1 + 1)) else None
  }

  lemma {:induction false} SignedRoundTrip(value: int, tail: seq<Byte>)
    ensures DecodeSigned(EncodeSigned(value) + tail) == Some((value, |EncodeSigned(value)|))
    decreases if value < 0 then -value else value
  {
    var low, rest := value % 0x80, value / 0x80;
    if !Last(rest, low) {
      SignedRoundTrip(rest, tail);
      assert (EncodeSigned(value) + tail)[1..] == EncodeSigned(rest) + tail;
    }
  }

  lemma {:induction false} SignedMinimal(bytes: seq<Byte>)
    ensures
      var decoded := DecodeSigned(bytes);
      decoded.Some? ==> |EncodeSigned(decoded.value.0)| <= decoded.value.1 <= |bytes|
  {
    if bytes != [] {
      if bytes[0] < 0x80 {
        var first: int := bytes[0];
        var value := if first < 0x40 then first else first - 0x80;
        assert Last(value / 0x80, value % 0x80);
      } else {
        SignedMinimal(bytes[1..]);
        var rest := DecodeSigned(bytes[1..]);
        if rest.Some? {
          Bits.DivisionUnique(bytes[0] - 0x80 + 0x80 * rest.value.0, 0x80, rest.value.0, bytes[0] - 0x80);
        }
      }
    }
  }

  lemma {:induction false} SignedLength(value: int, n: nat)
    requires n > 0
    ensures |EncodeSigned(value)| <= n <==> -0x40 * Power128(n - 1) <= value < 0x40 * Power128(n - 1)
    decreases n
  {
    var low, rest := value % 0x80, value / 0x80;
    if n == 1 {
      assert Last(rest, low) <==> -0x40 <= value < 0x40;
    } else if !Last(rest, low) {
      SignedLength(rest, n - 1);
    } else {
      assert Power128(n - 1) >= 1 && -0x40 <= value < 0x40;
    }
  }

  method EncodeSignedLeb128(value: int) returns (bytes: seq<Byte>)
    ensures bytes == EncodeSigned(value)
  {
    bytes := [];
    var remaining, more := value, true;
    while more
      invariant more ==> bytes + EncodeSigned(remaining) == EncodeSigned(value)
      invariant !more ==> bytes == EncodeSigned(value)
      decreases if more then 1 else 0, if remaining < 0 then -remaining else remaining
    {
      var low := remaining % 0x80;
      remaining := remaining / 0x80;
      if Last(remaining, low) {
        more := false;
      }
      bytes := AppendLeb128Byte(bytes, low, more);
    }
  }

  method EncodeI32Leb128(value: int) returns (encoded: Option<seq<Byte>>)
    ensures encoded.Some? <==> -0x8000_0000 <= value < 0x8000_0000
    ensures encoded.Some? ==> encoded.value == EncodeSigned(value) && |encoded.value| <= 5
  {
    if value < -0x8000_0000 || value > 0x7fff_ffff {
      return None;
    }
    PowersOf128();
    SignedLength(value, 5);
    var bytes := EncodeSignedLeb128(value);
    encoded := Some(bytes);
  }

  method EncodeI64Leb128(value: int) returns (encoded: Option<seq<Byte>>)
    ensures encoded.Some? <==> -0x8000_0000_0000_0000 <= value < 0x8000_0000_0000_0000
    ensures encoded.Some? ==> encoded.value == EncodeSigned(value) && |encoded.value| <= 10
  {
    if value < -0x8000_0000_0000_0000 || value > 0x7fff_ffff_ffff_ffff {
      return None;
    }
    PowersOf128();
    SignedLength(value, 10);
    var bytes := EncodeSignedLeb128(value);
    encoded := Some(bytes);
  }

  /** No encoding is a prefix of a different one. */
  lemma PrefixFree(a: int, b: int, tail: seq<Byte>)
    ensures EncodeSigned(a) + tail == EncodeSigned(b) ==> a == b && tail == []
    ensures a >= 0 && b >= 0 && EncodeUnsigned(a) + tail == EncodeUnsigned(b) ==> a == b && tail == []
  {
    SignedRoundTrip(a, tail);
    SignedRoundTrip(b, []);
    assert EncodeSigned(b) + [] == EncodeSigned(b);
    if a >= 0 && b >= 0 {
      UnsignedRoundTrip(a, tail);
      UnsignedRoundTrip(b, []);
      assert EncodeUnsigned(b) + [] == EncodeUnsigned(b);
    }
  }
}
