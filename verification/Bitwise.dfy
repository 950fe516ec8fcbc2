/** Bitwise operations on machine integers, read as binary numerals. */
module Bitwise {
  import opened Words

  // ----- on the low n bits of natural numbers -----

  function And(a: nat, b: nat, n: nat): nat {
    if n == 0 then 0 else (a % 2) * (b % 2) + 2 * And(a / 2, b / 2, n - 1)
  }

  function Or(a: nat, b: nat, n: nat): nat {
    if n == 0 then 0 else (if a % 2 == 1 || b % 2 == 1 then 1 else 0) + 2 * Or(a / 2, b / 2, n - 1)
  }

  function Xor(a: nat, b: nat, n: nat): nat {
    if n == 0 then 0 else (a + b) % 2 + 2 * Xor(a / 2, b / 2, n - 1)
  }

  lemma Halve(a: nat, n: nat)
    requires n > 0 && a < Pow2(n)
    ensures a == a % 2 + 2 * (a / 2) && a / 2 < Pow2(n - 1)
  {
  }

  lemma {:induction false} AndOnes(a: nat, n: nat)
    requires a < Pow2(n)
    ensures And(Pow2(n) - 1, a, n) == a
  {
    if n > 0 {
      Halve(a, n);
      Halve(Pow2(n) - 1, n);
      AndOnes(a / 2, n - 1);
    }
  }

  lemma {:induction false} AndZero(a: nat, n: nat)
    ensures And(0, a, n) == 0
  {
    if n > 0 {
      AndZero(a / 2, n - 1);
    }
  }

  lemma {:induction false} XorZero(a: nat, n: nat)
    requires a < Pow2(n)
    ensures Xor(a, 0, n) == a
  {
    if n > 0 {
      Halve(a, n);
      XorZero(a / 2, n - 1);
    }
  }

  /** Exclusive or with the difference of two numbers turns the first into the second. */
  lemma {:induction false} XorDifference(a: nat, b: nat, n: nat)
    requires a < Pow2(n) && b < Pow2(n)
    ensures Xor(a, Xor(a, b, n), n) == b
  {
    if n > 0 {
      Halve(a, n);
      Halve(b, n);
      XorDifference(a / 2, b / 2, n - 1);
      hide Pow2;
      XorParity(a % 2, b % 2, Xor(a / 2, b / 2, n - 1));
      XorStep(a, b, n);
      XorStep(a, Xor(a, b, n), n);
      hide Xor;
    }
  }

  lemma {:induction false} XorCommutes(a: nat, b: nat, n: nat)
    ensures Xor(a, b, n) == Xor(b, a, n)
  {
    if n > 0 {
      XorCommutes(a / 2, b / 2, n - 1);
    }
  }

  lemma XorStep(a: nat, x: nat, n: nat)
    requires n > 0
    ensures Xor(a, x, n) == (a % 2 + x % 2) % 2 + 2 * Xor(a / 2, x / 2, n - 1)
  {
    FloorBelow(a, 2);
    FloorBelow(x, 2);
    AddMultiple(a % 2 + x % 2, a / 2 + x / 2, 2);
  }

  lemma XorParity(p: nat, q: nat, y: nat)
    requires p < 2 && q < 2
    ensures ((p + q) % 2 + 2 * y) % 2 == (p + q) % 2 && ((p + q) % 2 + 2 * y) / 2 == y
    ensures (p + (p + q) % 2) % 2 == q && (q + (p + q) % 2) % 2 == p
  {
  }

  /** Numbers with no common bits: or is addition. */
  lemma {:induction false} OrDisjoint(a: nat, b: nat, k: nat, n: nat)
    requires k <= n && a < Pow2(k) && b * Pow2(k) < Pow2(n)
    ensures Or(a, b * Pow2(k), n) == a + b * Pow2(k)
  {
    if n > 0 {
      if k == 0 {
        OrZero(b, n);
      } else {
        Halve(a, k);
        ShiftedHalves(b, k, n);
        OrDisjoint(a / 2, b, k - 1, n - 1);
        hide Pow2;
      }
    }
  }

  lemma ShiftedHalves(b: nat, k: nat, n: nat)
    requires 0 < k <= n && b * Pow2(k) < Pow2(n)
    ensures b * Pow2(k) == 2 * (b * Pow2(k - 1)) && b * Pow2(k - 1) < Pow2(n - 1)
  {
  }

  lemma {:induction false} OrZero(b: nat, n: nat)
    requires b < Pow2(n)
    ensures Or(0, b, n) == b
  {
    if n > 0 {
      Halve(b, n);
      OrZero(b / 2, n - 1);
    }
  }

  // ----- on bytes -----

  lemma EightBits()
    ensures Pow2(8) == 256
  {
  }

  function XorByte(a: byte, b: byte): byte {
    XorBelow(a, b, 8);
    EightBits();
    Xor(a, b, 8)
  }

  function DigitAt(x: nat, k: nat): nat { if k == 0 then x % 2 else DigitAt(x / 2, k - 1) }

  /** Every bit of an exclusive or is the sum of the two bits, without a carry. */
  lemma {:induction false} XorBit(a: nat, b: nat, n: nat, k: nat)
    requires k < n
    ensures DigitAt(Xor(a, b, n), k) == (DigitAt(a, k) + DigitAt(b, k)) % 2
  {
    XorStep(a, b, n);
    XorParity(a % 2, b % 2, Xor(a / 2, b / 2, n - 1));
    if k > 0 {
      XorBit(a / 2, b / 2, n - 1, k - 1);
    } else {
      SumParity(a, b);
    }
    hide Xor;
  }

  lemma SumParity(a: nat, b: nat)
    ensures (a % 2 + b % 2) % 2 == (a + b) % 2
  {
  }

  lemma XorByteBits(a: byte, b: byte, k: nat)
    requires k < 8
    ensures DigitAt(XorByte(a, b), k) == (DigitAt(a, k) + DigitAt(b, k)) % 2
  {
    XorBit(a, b, 8, k);
    hide Xor;
  }

  lemma XorByteTwice(a: byte, b: byte)
    ensures XorByte(XorByte(a, b), b) == a && XorByte(b, XorByte(a, b)) == a
  {
    EightBits();
    XorBelow(a, b, 8);
    XorDifference(b, a, 8);
    XorCommutes(a, b, 8);
    XorCommutes(Xor(a, b, 8), b, 8);
    hide Xor;
  }

  // ----- on signed 32-bit integers -----

  function Unsigned32(v: i32): u32 { if v < 0 then v + TWO32 else v }

  function Signed32(u: u32): i32 { if u >= TWO31 then u - TWO32 else u }

  function Xor32(a: i32, b: i32): i32 {
    XorBelow(Unsigned32(a), Unsigned32(b), 32);
    WordSize();
    Signed32(Xor(Unsigned32(a), Unsigned32(b), 32))
  }

  function And32(a: i32, b: i32): i32 {
    AndBelow(Unsigned32(a), Unsigned32(b), 32);
    WordSize();
    Signed32(And(Unsigned32(a), Unsigned32(b), 32))
  }

  lemma {:induction false} XorBelow(a: nat, b: nat, n: nat)
    ensures Xor(a, b, n) < Pow2(n)
  {
    if n > 0 {
      XorBelow(a / 2, b / 2, n - 1);
    }
  }

  lemma {:induction false} AndBelow(a: nat, b: nat, n: nat)
    ensures And(a, b, n) < Pow2(n)
  {
    if n > 0 {
      AndBelow(a / 2, b / 2, n - 1);
      assert (a % 2) * (b % 2) <= 1;
    }
  }

  lemma SignedUnsigned()
    ensures forall v: i32 :: Signed32(Unsigned32(v)) == v
    ensures forall u: u32 :: Unsigned32(Signed32(u)) == u
  {
  }

  /** A mask of all ones keeps a word, a mask of zeros clears it. */
  lemma Masked(mask: i32, a: i32)
    requires mask == 0 || mask == -1
    ensures And32(mask, a) == if mask == 0 then 0 else a
  {
    SignedUnsigned();
    WordSize();
    AndOnes(Unsigned32(a), 32);
    AndZero(Unsigned32(a), 32);
    hide And, Pow2;
  }

  lemma XorSwaps(a: i32, b: i32)
    ensures Xor32(a, Xor32(a, b)) == b && Xor32(b, Xor32(a, b)) == a
    ensures Xor32(a, 0) == a
  {
    SignedUnsigned();
    WordSize();
    XorDifference(Unsigned32(a), Unsigned32(b), 32);
    XorDifference(Unsigned32(b), Unsigned32(a), 32);
    XorCommutes(Unsigned32(a), Unsigned32(b), 32);
    XorBelow(Unsigned32(a), Unsigned32(b), 32);
    XorZero(Unsigned32(a), 32);
    hide Xor, Pow2;
  }

  lemma WordSize()
    ensures Pow2(32) == TWO32
  {
    assert Pow2(8) == 0x100;
    assert Pow2(16) == 0x1_0000;
    assert Pow2(24) == 0x100_0000;
  }

  // ----- on 32-bit vectors -----

  function Vector(x: u32): bv32 { x as bv32 }

  function Number(b: bv32): (x: u32) { b as int }

  lemma VectorOf(a: bv32)
    ensures Vector(Number(a)) == a
  {
  }

  lemma Doubles(b: bv32)
    requires b as int < TWO31
    ensures (b << 1) as int == 2 * (b as int)
  {
  }

  lemma DoublesAndOne(b: bv32)
    requires b as int < TWO31
    ensures ((b << 1) | 1) as int == 2 * (b as int) + 1
  {
    assert b & 0x8000_0000 == 0;
  }

  lemma {:induction false} VectorFor(x: nat) returns (b: bv32)
    requires x < TWO32
    ensures Number(b) == x
  {
    if x == 0 {
      b := 0;
    } else {
      b := VectorFor(x / 2);
      if x % 2 == 0 {
        Doubles(b);
        b := b << 1;
      } else {
        DoublesAndOne(b);
        b := (b << 1) | 1;
      }
    }
  }

  /** Every 32-bit word survives the way through a bit vector. */
  lemma ThroughVector(x: u32)
    ensures Number(Vector(x)) == x
  {
    var b := VectorFor(x);
    VectorOf(b);
    hide Vector, Number;
  }

  /** Arithmetic right shift by 31: the sign in every bit. */
  function SignFill(a: bv32): bv32 { 0 - (a >> 31) }

  function EqualBits(a: bv32, b: bv32): (r: bv32)
    ensures r == if a == b then 0xFFFF_FFFF else 0
  {
    var e := !(a ^ b);
    var e16 := e & (e << 16);
    var e8 := e16 & (e16 << 8);
    var e4 := e8 & (e8 << 4);
    var e2 := e4 & (e4 << 2);
    var e1 := e2 & (e2 << 1);
    SignFill(e1)
  }

  /** s32_eq: all ones if the words are equal, else zero. */
  function S32Eq(a: i32, b: i32): (r: i32)
    ensures r == if a == b then -1 else 0
  {
    EqualWords(Unsigned32(a), Unsigned32(b));
    SignedUnsigned();
    Signed32(Number(EqualBits(Vector(Unsigned32(a)), Vector(Unsigned32(b)))))
  }

  lemma EqualWords(x: u32, y: u32)
    ensures Number(EqualBits(Vector(x), Vector(y))) == if x == y then 0xFFFF_FFFF else 0
  {
    ThroughVector(x);
    ThroughVector(y);
    MaskNumbers();
    hide Vector, Number, EqualBits;
  }

  lemma MaskNumbers()
    ensures Number(0xFFFF_FFFF) == 0xFFFF_FFFF && Number(0) == 0
  {
  }

  /** s32_gte, for words that are not negative; a complement is -1 less the word. */
  function S32Gte(a: i32, b: i32): (r: i32)
    requires 0 <= a && 0 <= b
    ensures r == if a >= b then -1 else 0
  {
    -1 - (a - b) / TWO31
  }
}
