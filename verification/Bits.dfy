/** Bitwise operations on non-negative integers, characterised bit by bit. */
module Bits {

  predicate Bit(x: nat, i: nat) {
    if i == 0 then x % 2 == 1 else Bit(x / 2, i - 1)
  }

  function Pow2(n: nat): (p: nat)
    ensures p > 0
  {
    if n == 0 then 1 else 2 * Pow2(n - 1)
  }

  function And(a: nat, b: nat): (r: nat)
    ensures r <= a && r <= b
  {
    if a == 0 || b == 0 then 0 else 2 * And(a / 2, b / 2) + (if a % 2 == 1 && b % 2 == 1 then 1 else 0)
  }

  function Or(a: nat, b: nat): (r: nat)
    ensures r <= a + b
    decreases a + b
  {
    if a == 0 && b == 0 then 0 else 2 * Or(a / 2, b / 2) + (if a % 2 == 1 || b % 2 == 1 then 1 else 0)
  }

  function Xor(a: nat, b: nat): (r: nat)
    ensures r <= a + b
    decreases a + b
  {
    if a == 0 && b == 0 then 0 else 2 * Xor(a / 2, b / 2) + (if a % 2 != b % 2 then 1 else 0)
  }

  lemma {:induction false} ZeroHasNoBits(i: nat)
    ensures !Bit(0, i)
  {
    if i > 0 { ZeroHasNoBits(i - 1); }
  }

  lemma {:induction false} AndBit(a: nat, b: nat, i: nat)
    ensures Bit(And(a, b), i) == (Bit(a, i) && Bit(b, i))
  {
    if a == 0 || b == 0 {
      ZeroHasNoBits(i);
    } else if i > 0 {
      AndBit(a / 2, b / 2, i - 1);
    }
  }

  lemma {:induction false} OrBit(a: nat, b: nat, i: nat)
    ensures Bit(Or(a, b), i) == (Bit(a, i) || Bit(b, i))
  {
    if a == 0 && b == 0 {
      ZeroHasNoBits(i);
    } else if i > 0 {
      OrBit(a / 2, b / 2, i - 1);
    }
  }

  lemma {:induction false} XorBit(a: nat, b: nat, i: nat)
    ensures Bit(Xor(a, b), i) == (Bit(a, i) != Bit(b, i))
  {
    if a == 0 && b == 0 {
      ZeroHasNoBits(i);
    } else if i > 0 {
      XorBit(a / 2, b / 2, i - 1);
    }
  }

  /** Numbers below a power of two are determined by their bits. */
  lemma {:induction false} SameBits(a: nat, b: nat, n: nat)
    requires a < Pow2(n) && b < Pow2(n)
    requires forall i: nat | i < n :: Bit(a, i) == Bit(b, i)
    ensures a == b
  {
    if n > 0 {
      assert Bit(a, 0) == Bit(b, 0);
      forall i: nat | i < n - 1 ensures Bit(a / 2, i) == Bit(b / 2, i) {
        assert Bit(a, i + 1) == Bit(b, i + 1);
      }
      SameBits(a / 2, b / 2, n - 1);
    }
  }

  lemma AndOddMask(x: nat, m: nat)
    ensures And(x, 2 * m + 1) == 2 * And(x / 2, m) + x % 2
  {
    assert (2 * m + 1) / 2 == m;
  }

  /** Masking with a run of low ones keeps the remainder. */
  lemma {:induction false} AndLowMask(x: nat, n: nat)
    ensures And(x, Pow2(n) - 1) == x % Pow2(n)
    decreases n
  {
    if n > 0 {
      var p := Pow2(n - 1);
      AndLowMask(x / 2, n - 1);
      AndOddMask(x, p - 1);
      HalfMod(x, p);
      assert Pow2(n) - 1 == 2 * (p - 1) + 1;
    }
  }

  lemma HalfMod(x: nat, p: nat)
    requires p > 0
    ensures x % (2 * p) == 2 * ((x / 2) % p) + x % 2
    ensures x / (2 * p) == (x / 2) / p
  {
    var q, s := (x / 2) / p, (x / 2) % p;
    assert x / 2 == p * q + s;
    assert x == (2 * p) * q + (2 * s + x % 2);
    DivisionUnique(x, 2 * p, q, 2 * s + x % 2);
  }

  lemma DivisionUnique(x: int, d: int, q: int, r: int)
    requires d > 0 && x == d * q + r && 0 <= r < d
    ensures x / d == q && x % d == r
  {
    var q' := x / d;
    if q < q' { Multiples(d, q + 1, q'); }
    if q > q' { Multiples(d, q' + 1, q); }
  }

  lemma Multiples(d: int, low: int, high: int)
    requires d > 0 && low <= high
    ensures d * low <= d * high
  {
    assert d * (high - low) >= 0;
  }

  /** A bit is a digit of the binary expansion. */
  lemma {:induction false} BitIsDigit(x: nat, n: nat)
    ensures Bit(x, n) == ((x / Pow2(n)) % 2 == 1)
  {
    if n > 0 {
      BitIsDigit(x / 2, n - 1);
      HalfMod(x, Pow2(n - 1));
    }
  }

  lemma {:induction false} PowerBits(n: nat, i: nat)
    ensures Bit(Pow2(n), i) == (i == n)
  {
    if n > 0 && i > 0 {
      PowerBits(n - 1, i - 1);
    } else if n == 0 && i > 0 {
      ZeroHasNoBits(i - 1);
    }
  }

  /** Testing a single-bit mask tests that bit. */
  lemma {:induction false} AndPower(x: nat, n: nat)
    ensures And(x, Pow2(n)) != 0 <==> Bit(x, n)
  {
    if x == 0 {
      ZeroHasNoBits(n);
    } else if n > 0 {
      AndPower(x / 2, n - 1);
    }
  }

  /** Flipping the top bit of an (n+1)-bit value adds half its range, wrapping. */
  lemma {:induction false} XorPower(x: nat, n: nat)
    requires x < 2 * Pow2(n)
    ensures Xor(x, Pow2(n)) == if x < Pow2(n) then x + Pow2(n) else x - Pow2(n)
  {
    if n > 0 {
      XorPower(x / 2, n - 1);
    } else {
      assert x == 0 || x == 1;
      assert Xor(0, 0) == 0;
    }
  }

  lemma {:induction false} XorZeroMeansEqual(a: nat, b: nat)
    ensures Xor(a, b) == 0 <==> a == b
    decreases a + b
  {
    if a != 0 || b != 0 {
      XorZeroMeansEqual(a / 2, b / 2);
    }
  }

  // ---------- parts of a number ----------

  function ShiftRight(x: nat, n: nat): nat {
    if n == 0 then x else ShiftRight(x / 2, n - 1)
  }

  lemma {:induction false} ShiftDivides(x: nat, n: nat)
    ensures x / Pow2(n) == ShiftRight(x, n)
  {
    if n > 0 {
      ShiftDivides(x / 2, n - 1);
      HalfMod(x, Pow2(n - 1));
    }
  }

  lemma {:induction false} ShiftShrinks(x: nat, n: nat)
    ensures ShiftRight(x, n) <= x
  {
    if n > 0 { ShiftShrinks(x / 2, n - 1); }
  }

  lemma {:induction false} BitShifted(x: nat, n: nat, i: nat)
    ensures Bit(ShiftRight(x, n), i) == Bit(x, n + i)
  {
    if n > 0 { BitShifted(x / 2, n - 1, i); }
  }

  lemma {:induction false} BitLow(x: nat, n: nat, i: nat)
    ensures Bit(x % Pow2(n), i) == (i < n && Bit(x, i))
  {
    if n == 0 {
      ZeroHasNoBits(i);
    } else {
      HalfMod(x, Pow2(n - 1));
      if i > 0 { BitLow(x / 2, n - 1, i - 1); }
    }
  }

  lemma {:induction false} OnesBits(n: nat, i: nat)
    ensures Bit(Pow2(n) - 1, i) == (i < n)
  {
    if n == 0 {
      ZeroHasNoBits(i);
    } else if i > 0 {
      OnesBits(n - 1, i - 1);
      assert (Pow2(n) - 1) / 2 == Pow2(n - 1) - 1;
    }
  }

  /** A number below a power of two with another one above it. */
  lemma {:induction false} BitJoined(low: nat, high: nat, n: nat, i: nat)
    requires low < Pow2(n)
    ensures Bit(low + Pow2(n) * high, i) == if i < n then Bit(low, i) else Bit(high, i - n)
  {
    if n > 0 {
      var p := Pow2(n - 1);
      var x := low + Pow2(n) * high;
      assert Pow2(n) * high == 2 * (p * high);
      assert x % 2 == low % 2 && x / 2 == low / 2 + p * high;
      if i > 0 { BitJoined(low / 2, high, n - 1, i - 1); }
    } else {
      assert low == 0 && Pow2(n) * high == high;
    }
  }

  /** A byte with something above it. */
  lemma ByteBelow(byte: int, above: int)
    requires 0 <= byte < 0x100
    ensures (byte + 0x100 * above) % 0x100 == byte && (byte + 0x100 * above) / 0x100 == above
  {
  }

  lemma ByteByByte(v: int)
    ensures v / 0x100 / 0x100 == v / 0x1_0000 && v / 0x1_0000 / 0x100 == v / 0x100_0000
  {
  }

  /** The bytes of a word, and the word of its bytes. */
  lemma BytesJoin(b0: int, b1: int, b2: int, b3: int)
    requires 0 <= b0 < 0x100 && 0 <= b1 < 0x100 && 0 <= b2 < 0x100 && 0 <= b3 < 0x100
    ensures
      var v := b0 + 0x100 * b1 + 0x1_0000 * b2 + 0x100_0000 * b3;
      v % 0x100 == b0 && v / 0x100 % 0x100 == b1 && v / 0x1_0000 % 0x100 == b2 && v / 0x100_0000 == b3
  {
    var v := b0 + 0x100 * b1 + 0x1_0000 * b2 + 0x100_0000 * b3;
    ByteBelow(b0, b1 + 0x100 * b2 + 0x1_0000 * b3);
    ByteBelow(b1, b2 + 0x100 * b3);
    ByteBelow(b2, b3);
    ByteByByte(v);
  }

  lemma Digits(v: int)
    requires 0 <= v < 0x1_0000_0000
    ensures v == v % 0x100 + 0x100 * (v / 0x100 % 0x100) + 0x1_0000 * (v / 0x1_0000 % 0x100) +
                 0x100_0000 * (v / 0x100_0000 % 0x100)
    ensures v < 0x1_0000 ==> v / 0x1_0000 == 0 && v / 0x100_0000 == 0
    ensures v < 0x100 ==> v / 0x100 == 0
  {
    ByteByByte(v);
    var w, x := v / 0x100, v / 0x1_0000;
    assert v == v % 0x100 + 0x100 * w && w == w % 0x100 + 0x100 * x && x == x % 0x100 + 0x100 * (v / 0x100_0000);
    assert v / 0x100_0000 < 0x100;
  }

  // ---------- counting ones ----------

  function Popcount(x: nat): nat {
    if x == 0 then 0 else x % 2 + Popcount(x / 2)
  }

  lemma {:induction false} AndSelf(x: nat)
    ensures And(x, x) == x
  {
    if x > 0 { AndSelf(x / 2); }
  }

  /** Clearing the lowest set bit removes exactly one of the ones. */
  lemma {:induction false} ClearLowestBit(x: nat)
    requires x > 0
    ensures And(x, x - 1) < x
    ensures Popcount(And(x, x - 1)) + 1 == Popcount(x)
  {
    if x % 2 == 1 {
      assert (x - 1) / 2 == x / 2 && (x - 1) % 2 == 0;
      AndSelf(x / 2);
      assert And(x, x - 1) == 2 * (x / 2);
    } else {
      ClearLowestBit(x / 2);
      assert (x - 1) / 2 == x / 2 - 1;
      assert And(x, x - 1) == 2 * And(x / 2, x / 2 - 1);
    }
  }

  /** The places below `n` that hold a one. */
  function OnePlaces(x: nat, n: nat): set<nat> {
    set i: nat | i < n && Bit(x, i)
  }

  /** The number of ones below a place is the number of places below it that hold one. */
  lemma {:induction false} PopcountIsBits(x: nat, n: nat)
    ensures Popcount(x % Pow2(n)) == |OnePlaces(x, n)|
  {
    OnesFromBelow(x, n);
    OnesAreBits(x, n);
  }

  function Ones(x: nat, n: nat): nat {
    if n == 0 then 0 else Ones(x, n - 1) + (if Bit(x, n - 1) then 1 else 0)
  }

  lemma {:induction false} OnesAreBits(x: nat, n: nat)
    ensures Ones(x, n) == |OnePlaces(x, n)|
  {
    if n > 0 {
      OnesAreBits(x, n - 1);
      assert OnePlaces(x, n) == OnePlaces(x, n - 1) + (if Bit(x, n - 1) then {n - 1} else {});
    } else {
      assert OnePlaces(x, n) == {};
    }
  }

  lemma {:induction false} OnesShift(x: nat, n: nat)
    ensures Ones(x, n + 1) == x % 2 + Ones(x / 2, n)
  {
    if n > 0 { OnesShift(x, n - 1); }
  }

  lemma {:induction false} OnesFromBelow(x: nat, n: nat)
    ensures Popcount(x % Pow2(n)) == Ones(x, n)
  {
    if n > 0 {
      OnesFromBelow(x / 2, n - 1);
      OnesShift(x, n - 1);
      HalfMod(x, Pow2(n - 1));
      var low := x % Pow2(n);
      assert low % 2 == x % 2 && low / 2 == (x / 2) % Pow2(n - 1);
    }
  }

  predicate EvenParity(value: nat) {
    Popcount(value % 0x100) % 2 == 0
  }

  /** Parity is that of the number of ones among the low eight bits. */
  lemma EvenParityCountsBits(value: nat)
    ensures EvenParity(value) <==> |OnePlaces(value, 8)| % 2 == 0
  {
    assert Pow2(8) == 0x100;
    PopcountIsBits(value, 8);
  }

  /** The parity loop: drop set bits one at a time, flipping the answer each time. */
  method HasEvenParityLowByte(value: nat) returns (isEven: bool)
    ensures isEven == EvenParity(value)
    ensures isEven <==> |OnePlaces(value, 8)| % 2 == 0
  {
    EvenParityCountsBits(value);
    var remaining: nat := value % 0x100;
    isEven := true;
    ghost var ones: int := Popcount(remaining);
    assert Popcount(0) == 0 && (EvenParity(value) <==> ones % 2 == 0);
    hide Bit, OnePlaces, Popcount, EvenParity, And;
    while remaining != 0
      invariant isEven <==> (ones - Popcount(remaining)) % 2 == 0
    {
      ClearLowestBit(remaining);
      isEven := !isEven;
      remaining := And(remaining, remaining - 1);
    }
  }
}
