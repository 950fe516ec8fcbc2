/** Multiplication and squaring modulo 2^255 - 19 on ten signed 32-bit limbs (lib/ed25519/src/fe.c). */
module FieldMul {
  import opened Words
  import opened Limbs

  // ----- limb bounds -----

  /** Limbs at most e in the even places and e / 2 in the odd ones. */
  ghost predicate Bounded(f: seq<int>, e: int) {
    |f| == 10 && forall i :: 0 <= i < 10 ==> Abs(f[i]) <= if i % 2 == 0 then e else e / 2
  }

  /** 1.65 * 2^26, which the multipliers accept. */
  const LOOSE: int := 110729625

  /** 1.01 * 2^25, which they return. */
  const TIGHT: int := 33889976

  // ----- one carry -----

  function Radix(i: nat): (r: int)
    ensures r > 0
  {
    if i % 2 == 0 then 0x400_0000 else 0x200_0000
  }

  /** The rounded carry out of limb i; the arithmetic right shift rounds down. */
  function Carry(x: int, i: nat): (c: int)
  {
    (x + Radix(i) / 2) / Radix(i)
  }

  lemma CarrySplits(x: int, i: nat)
    ensures -(Radix(i) / 2) <= x - Carry(x, i) * Radix(i) < Radix(i) / 2
  {
  }

  /** c is carried out of limb i into the next limb, or 19-fold into limb 0. */
  function CarryOut(t: seq<int>, i: nat, c: int): (r: seq<int>)
    requires |t| == 10 && i < 10
    ensures |r| == 10
  {
    if i < 9 then t[i := t[i] - c * Radix(i)][i + 1 := t[i + 1] + c]
    else t[9 := t[9] - c * Radix(9)][0 := t[0] + c * 19]
  }

  /** Limb i is rounded. */
  function Carried(t: seq<int>, i: nat): (r: seq<int>)
    requires |t| == 10 && i < 10
    ensures |r| == 10
  {
    CarryOut(t, i, Carry(t[i], i))
  }

  lemma WeightStep(i: nat)
    requires i < 9
    ensures Weight(i + 1) == Radix(i) * Weight(i)
  {
    hide Position, Pow2, Radix;
    var width := if i % 2 == 0 then 26 else 25;
    PositionStep(i);
    RadixIsPower(i);
    Pow2Sum(Position(i), width);
  }

  lemma RadixIsPower(i: nat)
    ensures Radix(i) == Pow2(if i % 2 == 0 then 26 else 25)
  {
    Pow2Of26();
    hide Pow2;
  }

  lemma PositionStep(i: nat)
    ensures Position(i + 1) == Position(i) + if i % 2 == 0 then 26 else 25
  {
    HalfPosition(i);
    HalfPosition(i + 1);
    hide Position;
  }

  lemma Pow2Of26()
    ensures Pow2(26) == 0x400_0000 && Pow2(25) == 0x200_0000
  {
    assert Pow2(13) == 0x2000 && Pow2(12) == 0x1000;
    Pow2Sum(13, 13);
    Pow2Sum(13, 12);
  }

  lemma LastWeight()
    ensures Radix(9) * Weight(9) == P + 19
    ensures Weight(0) == 1
  {
    assert Position(9) == 230 && Position(0) == 0;
    Pow2Of26();
    Pow2Sum(230, 25);
    Pow2Of255();
    assert Pow2(0) == 1;
    hide Pow2, Position;
  }

  /** A carry does not change the value, modulo P. */
  lemma CarryOutValue(t: seq<int>, i: nat, c: int)
    requires |t| == 10 && i < 10
    ensures Congruent(Value(CarryOut(t, i, c)), Value(t))
    ensures i < 9 ==> Value(CarryOut(t, i, c)) == Value(t)
  {
    if i < 9 {
      CarryOutInside(t, i, c);
      Reflexive(Value(t));
    } else {
      CarryOutWraps(t, c);
    }
    hide *;
  }

  lemma CarryOutInside(t: seq<int>, i: nat, c: int)
    requires |t| == 10 && i < 9
    ensures Value(CarryOut(t, i, c)) == Value(t)
  {
    var s := t[i := t[i] - c * Radix(i)];
    PartialUpdate(t, 10, i, s[i]);
    PartialUpdate(s, 10, i + 1, t[i + 1] + c);
    WeightStep(i);
    hide *;
    CarryCancels(Weight(i), Radix(i), c);
  }

  lemma CarryOutWraps(t: seq<int>, c: int)
    requires |t| == 10
    ensures Congruent(Value(CarryOut(t, 9, c)), Value(t))
  {
    var s := t[9 := t[9] - c * Radix(9)];
    PartialUpdate(t, 10, 9, s[9]);
    PartialUpdate(s, 10, 0, t[0] + c * 19);
    LastWeight();
    hide *;
    CarryCancels(Weight(9), Radix(9), c);
    CongruentBy(Value(CarryOut(t, 9, c)), Value(t), -c);
  }

  lemma CarryCancels(w: int, r: int, c: int)
    ensures w * (-(c * r)) + (r * w) * c == 0
  {
  }

  /** Limbs this wide leave room for a carry in 64 bits. */
  const WIDE: int := 0x6000_1000_0000_0000

  /** What a carry out of limb i does to the sizes of the limbs, if limb i is at most m * 2^25. */
  ghost predicate Resized(t: seq<int>, r: seq<int>, i: nat, m: nat) {
    && |t| == |r| == 10 && i < 10
    && Abs(r[i]) <= Radix(i) / 2
    && (if i < 9 then Abs(r[i + 1]) <= Abs(t[i + 1]) + m + 1 else Abs(r[0]) <= Abs(t[0]) + 19 * (m + 1))
    && forall k :: 0 <= k < 10 && k != i && k != (if i == 9 then 0 else i + 1) ==> r[k] == t[k]
  }

  lemma CarriedResizes(t: seq<int>, i: nat, m: nat)
    requires |t| == 10 && i < 10 && Abs(t[i]) <= m * 0x200_0000
    ensures Resized(t, Carried(t, i), i, m)
  {
    CarrySplits(t[i], i);
    assert Abs(Carry(t[i], i)) <= m + 1;
  }

  /** One carry in place, in 64-bit arithmetic. Any value v that the limbs stood for, they still
   *  stand for. */
  method CarryLimb(t: array<i64>, i: nat, ghost m: nat, ghost v: int)
    requires t.Length == 10 && i < 10
    requires forall k :: 0 <= k < 10 ==> Abs(t[k]) <= WIDE
    requires Abs(t[i]) <= m * 0x200_0000
    requires Congruent(Value(t[..]), v)
    modifies t
    ensures t[..] == Carried(old(t[..]), i)
    ensures Resized(old(t[..]), t[..], i, m)
    ensures Congruent(Value(t[..]), v)
  {
    hide Value, Congruent, Resized;
    CarrySplits(t[i], i);
    CarriedResizes(t[..], i, m);
    CarryOutValue(t[..], i, Carry(t[i], i));
    Transitive(Value(Carried(t[..], i)), Value(t[..]), v);
    var rounded: i64 := t[i] + Radix(i) / 2;
    var c: i64 := rounded / Radix(i);
    assert c == Carry(t[i], i);
    var back: i64 := c * Radix(i);
    if i < 9 {
      t[i + 1] := t[i + 1] + c;
      t[i] := t[i] - back;
    } else {
      t[0] := t[0] + c * 19;
      t[9] := t[9] - back;
    }
    assert back == Carry(old(t[i]), i) * Radix(i);
    hide Carry, Radix;
  }

  /** The widest column that leaves the carry chain enough room. */
  const COLUMN: int := 0x6000_0000_0000_0000

  /** The twelve carries that end every multiplication. */
  method CarryChain(t: array<i64>, ghost v: int)
    requires t.Length == 10
    requires forall k :: 0 <= k < 10 ==> Abs(t[k]) <= COLUMN
    requires Congruent(Value(t[..]), v)
    modifies t
    ensures Bounded(t[..], TIGHT)
    ensures Congruent(Value(t[..]), v)
  {
    hide Value, Congruent, Carried;
    FirstCarries(t, v);
    MiddleCarries(t, v);
    CarryLimb(t, 8, 0x30_0000_2000, v);
    CarryLimb(t, 9, 0x30_0000_2000, v);
    CarryLimb(t, 0, 0x1_C802, v);
  }

  /** Limbs first..last - 1 lie within half their radix. */
  ghost predicate Rounded(t: seq<int>, first: nat, last: nat) {
    && |t| == 10
    && forall k :: first <= k < last <= 10 ==> Abs(t[k]) <= Radix(k) / 2
  }

  method FirstCarries(t: array<i64>, ghost v: int)
    requires t.Length == 10
    requires forall k :: 0 <= k < 10 ==> Abs(t[k]) <= COLUMN
    requires Congruent(Value(t[..]), v)
    modifies t
    ensures Rounded(t[..], 0, 2) && Rounded(t[..], 4, 6)
    ensures Abs(t[2]) <= COLUMN + 0x30_0000_2001 && Abs(t[6]) <= COLUMN + 0x30_0000_2001
    ensures forall k :: k in {3, 7, 8, 9} ==> Abs(t[k]) <= COLUMN
    ensures Congruent(Value(t[..]), v)
  {
    hide Value, Congruent, Carried;
    CarryLimb(t, 0, 0x30_0000_0000, v);
    CarryLimb(t, 4, 0x30_0000_0000, v);
    CarryLimb(t, 1, 0x30_0000_2000, v);
    CarryLimb(t, 5, 0x30_0000_2000, v);
  }

  method MiddleCarries(t: array<i64>, ghost v: int)
    requires t.Length == 10
    requires Rounded(t[..], 0, 2) && Rounded(t[..], 4, 6)
    requires Abs(t[2]) <= COLUMN + 0x30_0000_2001 && Abs(t[6]) <= COLUMN + 0x30_0000_2001
    requires forall k :: k in {3, 7, 8, 9} ==> Abs(t[k]) <= COLUMN
    requires Congruent(Value(t[..]), v)
    modifies t
    ensures Rounded(t[..], 0, 5) && Rounded(t[..], 6, 8)
    ensures Abs(t[5]) <= 0x100_1803
    ensures Abs(t[8]) <= COLUMN + 0x30_0000_2001 && Abs(t[9]) <= COLUMN
    ensures Congruent(Value(t[..]), v)
  {
    hide Value, Congruent, Carried;
    CarryLimb(t, 2, 0x30_0000_2000, v);
    CarryLimb(t, 6, 0x30_0000_2000, v);
    CarryLimb(t, 3, 0x30_0000_2000, v);
    CarryLimb(t, 7, 0x30_0000_2000, v);
    CarryLimb(t, 4, 0x1802, v);
  }

  // ----- columns -----

  function Mul0(f: seq<int>, g: seq<int>): (h: int)
    requires |f| == |g| == 10
    ensures h == Folded(Product(f, g))[0]
  {
    TenTerms(f, g, 0); TenTerms(f, g, 10);
    f[0] * g[0] + (2 * f[1]) * (19 * g[9]) + f[2] * (19 * g[8]) + (2 * f[3]) * (19 * g[7])
    + f[4] * (19 * g[6]) + (2 * f[5]) * (19 * g[5]) + f[6] * (19 * g[4]) + (2 * f[7]) * (19 * g[3])
    + f[8] * (19 * g[2]) + (2 * f[9]) * (19 * g[1])
  }

  function Mul1(f: seq<int>, g: seq<int>): (h: int)
    requires |f| == |g| == 10
    ensures h == Folded(Product(f, g))[1]
  {
    TenTerms(f, g, 1); TenTerms(f, g, 11);
    f[0] * g[1] + f[1] * g[0] + f[2] * (19 * g[9]) + f[3] * (19 * g[8]) + f[4] * (19 * g[7])
    + f[5] * (19 * g[6]) + f[6] * (19 * g[5]) + f[7] * (19 * g[4]) + f[8] * (19 * g[3])
    + f[9] * (19 * g[2])
  }

  function Mul2(f: seq<int>, g: seq<int>): (h: int)
    requires |f| == |g| == 10
    ensures h == Folded(Product(f, g))[2]
  {
    TenTerms(f, g, 2); TenTerms(f, g, 12);
    f[0] * g[2] + (2 * f[1]) * g[1] + f[2] * g[0] + (2 * f[3]) * (19 * g[9]) + f[4] * (19 * g[8])
    + (2 * f[5]) * (19 * g[7]) + f[6] * (19 * g[6]) + (2 * f[7]) * (19 * g[5]) + f[8] * (19 * g[4])
    + (2 * f[9]) * (19 * g[3])
  }

  function Mul3(f: seq<int>, g: seq<int>): (h: int)
    requires |f| == |g| == 10
    ensures h == Folded(Product(f, g))[3]
  {
    TenTerms(f, g, 3); TenTerms(f, g, 13);
    f[0] * g[3] + f[1] * g[2] + f[2] * g[1] + f[3] * g[0] + f[4] * (19 * g[9]) + f[5] * (19 * g[8])
    + f[6] * (19 * g[7]) + f[7] * (19 * g[6]) + f[8] * (19 * g[5]) + f[9] * (19 * g[4])
  }

  function Mul4(f: seq<int>, g: seq<int>): (h: int)
    requires |f| == |g| == 10
    ensures h == Folded(Product(f, g))[4]
  {
    TenTerms(f, g, 4); TenTerms(f, g, 14);
    f[0] * g[4] + (2 * f[1]) * g[3] + f[2] * g[2] + (2 * f[3]) * g[1] + f[4] * g[0]
    + (2 * f[5]) * (19 * g[9]) + f[6] * (19 * g[8]) + (2 * f[7]) * (19 * g[7]) + f[8] * (19 * g[6])
    + (2 * f[9]) * (19 * g[5])
  }

  function Mul5(f: seq<int>, g: seq<int>): (h: int)
    requires |f| == |g| == 10
    ensures h == Folded(Product(f, g))[5]
  {
    TenTerms(f, g, 5); TenTerms(f, g, 15);
    f[0] * g[5] + f[1] * g[4] + f[2] * g[3] + f[3] * g[2] + f[4] * g[1] + f[5] * g[0]
    + f[6] * (19 * g[9]) + f[7] * (19 * g[8]) + f[8] * (19 * g[7]) + f[9] * (19 * g[6])
  }

  function Mul6(f: seq<int>, g: seq<int>): (h: int)
    requires |f| == |g| == 10
    ensures h == Folded(Product(f, g))[6]
  {
    TenTerms(f, g, 6); TenTerms(f, g, 16);
    f[0] * g[6] + (2 * f[1]) * g[5] + f[2] * g[4] + (2 * f[3]) * g[3] + f[4] * g[2]
    + (2 * f[5]) * g[1] + f[6] * g[0] + (2 * f[7]) * (19 * g[9]) + f[8] * (19 * g[8])
    + (2 * f[9]) * (19 * g[7])
  }

  function Mul7(f: seq<int>, g: seq<int>): (h: int)
    requires |f| == |g| == 10
    ensures h == Folded(Product(f, g))[7]
  {
    TenTerms(f, g, 7); TenTerms(f, g, 17);
    f[0] * g[7] + f[1] * g[6] + f[2] * g[5] + f[3] * g[4] + f[4] * g[3] + f[5] * g[2] + f[6] * g[1]
    + f[7] * g[0] + f[8] * (19 * g[9]) + f[9] * (19 * g[8])
  }

  function Mul8(f: seq<int>, g: seq<int>): (h: int)
    requires |f| == |g| == 10
    ensures h == Folded(Product(f, g))[8]
  {
    TenTerms(f, g, 8); TenTerms(f, g, 18);
    f[0] * g[8] + (2 * f[1]) * g[7] + f[2] * g[6] + (2 * f[3]) * g[5] + f[4] * g[4]
    + (2 * f[5]) * g[3] + f[6] * g[2] + (2 * f[7]) * g[1] + f[8] * g[0] + (2 * f[9]) * (19 * g[9])
  }

  function Mul9(f: seq<int>, g: seq<int>): (h: int)
    requires |f| == |g| == 10
    ensures h == Folded(Product(f, g))[9]
  {
    TenTerms(f, g, 9);
    f[0] * g[9] + f[1] * g[8] + f[2] * g[7] + f[3] * g[6] + f[4] * g[5] + f[5] * g[4] + f[6] * g[3]
    + f[7] * g[2] + f[8] * g[1] + f[9] * g[0]
  }

  function Square0(f: seq<int>): (h: int)
    requires |f| == 10
    ensures h == Folded(Product(f, f))[0]
  {
    TenTerms(f, f, 0); TenTerms(f, f, 10);
    f[0] * f[0] + (2 * f[1]) * (38 * f[9]) + (2 * f[2]) * (19 * f[8]) + (2 * f[3]) * (38 * f[7])
    + (2 * f[4]) * (19 * f[6]) + f[5] * (38 * f[5])
  }

  function Square1(f: seq<int>): (h: int)
    requires |f| == 10
    ensures h == Folded(Product(f, f))[1]
  {
    TenTerms(f, f, 1); TenTerms(f, f, 11);
    (2 * f[0]) * f[1] + f[2] * (38 * f[9]) + (2 * f[3]) * (19 * f[8]) + f[4] * (38 * f[7])
    + (2 * f[5]) * (19 * f[6])
  }

  function Square2(f: seq<int>): (h: int)
    requires |f| == 10
    ensures h == Folded(Product(f, f))[2]
  {
    TenTerms(f, f, 2); TenTerms(f, f, 12);
    (2 * f[0]) * f[2] + (2 * f[1]) * f[1] + (2 * f[3]) * (38 * f[9]) + (2 * f[4]) * (19 * f[8])
    + (2 * f[5]) * (38 * f[7]) + f[6] * (19 * f[6])
  }

  function Square3(f: seq<int>): (h: int)
    requires |f| == 10
    ensures h == Folded(Product(f, f))[3]
  {
    TenTerms(f, f, 3); TenTerms(f, f, 13);
    (2 * f[0]) * f[3] + (2 * f[1]) * f[2] + f[4] * (38 * f[9]) + (2 * f[5]) * (19 * f[8])
    + f[6] * (38 * f[7])
  }

  function Square4(f: seq<int>): (h: int)
    requires |f| == 10
    ensures h == Folded(Product(f, f))[4]
  {
    TenTerms(f, f, 4); TenTerms(f, f, 14);
    (2 * f[0]) * f[4] + (2 * f[1]) * (2 * f[3]) + f[2] * f[2] + (2 * f[5]) * (38 * f[9])
    + (2 * f[6]) * (19 * f[8]) + f[7] * (38 * f[7])
  }

  function Square5(f: seq<int>): (h: int)
    requires |f| == 10
    ensures h == Folded(Product(f, f))[5]
  {
    TenTerms(f, f, 5); TenTerms(f, f, 15);
    (2 * f[0]) * f[5] + (2 * f[1]) * f[4] + (2 * f[2]) * f[3] + f[6] * (38 * f[9])
    + (2 * f[7]) * (19 * f[8])
  }

  function Square6(f: seq<int>): (h: int)
    requires |f| == 10
    ensures h == Folded(Product(f, f))[6]
  {
    TenTerms(f, f, 6); TenTerms(f, f, 16);
    (2 * f[0]) * f[6] + (2 * f[1]) * (2 * f[5]) + (2 * f[2]) * f[4] + (2 * f[3]) * f[3]
    + (2 * f[7]) * (38 * f[9]) + f[8] * (19 * f[8])
  }

  function Square7(f: seq<int>): (h: int)
    requires |f| == 10
    ensures h == Folded(Product(f, f))[7]
  {
    TenTerms(f, f, 7); TenTerms(f, f, 17);
    (2 * f[0]) * f[7] + (2 * f[1]) * f[6] + (2 * f[2]) * f[5] + (2 * f[3]) * f[4]
    + f[8] * (38 * f[9])
  }

  function Square8(f: seq<int>): (h: int)
    requires |f| == 10
    ensures h == Folded(Product(f, f))[8]
  {
    TenTerms(f, f, 8); TenTerms(f, f, 18);
    (2 * f[0]) * f[8] + (2 * f[1]) * (2 * f[7]) + (2 * f[2]) * f[6] + (2 * f[3]) * (2 * f[5])
    + f[4] * f[4] + f[9] * (38 * f[9])
  }

  function Square9(f: seq<int>): (h: int)
    requires |f| == 10
    ensures h == Folded(Product(f, f))[9]
  {
    TenTerms(f, f, 9);
    (2 * f[0]) * f[9] + (2 * f[1]) * f[8] + (2 * f[2]) * f[7] + (2 * f[3]) * f[6]
    + (2 * f[4]) * f[5]
  }

  // ----- fe_mul and fe_sq -----

  /** No column overflows 64 bits, whatever the order its terms are added in, and the 32-bit
   *  multiples prepared beforehand fit as well. */
  lemma ColumnsFit(f: seq<int>, g: seq<int>)
    requires Bounded(f, LOOSE) && Bounded(g, LOOSE)
    ensures forall k :: 0 <= k < 10 ==> 2 * Abs(Folded(Product(f, g))[k]) <= COLUMN
    ensures forall k :: 0 <= k < 9 ==> 2 * (Magnitude(f, g, k, 10) + 19 * Magnitude(f, g, k + 10, 10)) <= COLUMN
    ensures 2 * Magnitude(f, g, 9, 10) <= COLUMN
    ensures forall i :: 0 <= i < 10 ==> Fits32(19 * f[i]) && Fits32(2 * f[i]) && (i % 2 == 1 ==> Fits32(38 * f[i]))
  {
    hide Magnitude, Coefficient;
    forall k | 0 <= k < 19
      ensures Abs(Coefficient(f, g, k, 10)) <= Magnitude(f, g, k, 10) <= 14 * (LOOSE * LOOSE)
    {
      MagnitudeBound(f, g, k, 10, LOOSE, LOOSE);
      TermsAtMost14(k);
    }
  }

  predicate Fits32(x: int) { -0x8000_0000 <= x < 0x8000_0000 }

  method Store(h: array<i32>, t: array<i64>)
    requires h.Length == t.Length == 10 && Bounded(t[..], TIGHT)
    modifies h
    ensures h[..] == t[..]
  {
    forall k | 0 <= k < 10 {
      h[k] := t[k];
    }
  }

  function MulColumns(f: seq<int>, g: seq<int>): (h: seq<int>)
    requires |f| == |g| == 10
    ensures h == Folded(Product(f, g))
  {
    [Mul0(f, g), Mul1(f, g), Mul2(f, g), Mul3(f, g), Mul4(f, g),
     Mul5(f, g), Mul6(f, g), Mul7(f, g), Mul8(f, g), Mul9(f, g)]
  }

  function SquareColumns(f: seq<int>): (h: seq<int>)
    requires |f| == 10
    ensures h == Folded(Product(f, f))
  {
    [Square0(f), Square1(f), Square2(f), Square3(f), Square4(f),
     Square5(f), Square6(f), Square7(f), Square8(f), Square9(f)]
  }

  /** h = f * g. The arrays may be the same one. */
  method FeMul(h: array<i32>, f: array<i32>, g: array<i32>)
    requires h.Length == 10
    requires Bounded(f[..], LOOSE) && Bounded(g[..], LOOSE)
    modifies h
    ensures Bounded(h[..], TIGHT)
    ensures Congruent(Value(h[..]), old(Value(f[..])) * old(Value(g[..])))
  {
    hide Value, Congruent;
    var x, y := f[..], g[..];
    ColumnsFit(x, y);
    FoldedProduct(x, y);
    var c := MulColumns(x, y);
    var t := new i64[10](k requires 0 <= k < 10 => c[k]);
    assert t[..] == c;
    CarryChain(t, Value(x) * Value(y));
    Store(h, t);
  }

  /** h = f * f. The arrays may be the same one. */
  method FeSq(h: array<i32>, f: array<i32>)
    requires h.Length == 10
    requires Bounded(f[..], LOOSE)
    modifies h
    ensures Bounded(h[..], TIGHT)
    ensures Congruent(Value(h[..]), old(Value(f[..])) * old(Value(f[..])))
  {
    hide Value, Congruent;
    var x := f[..];
    ColumnsFit(x, x);
    FoldedProduct(x, x);
    var c := SquareColumns(x);
    var t := new i64[10](k requires 0 <= k < 10 => c[k]);
    assert t[..] == c;
    CarryChain(t, Value(x) * Value(x));
    Store(h, t);
  }

  function Twice(x: int): int { x + x }

  /** h = 2 * f * f. The arrays may be the same one. */
  method FeSq2(h: array<i32>, f: array<i32>)
    requires h.Length == 10
    requires Bounded(f[..], LOOSE)
    modifies h
    ensures Bounded(h[..], TIGHT)
    ensures Congruent(Value(h[..]), 2 * (old(Value(f[..])) * old(Value(f[..]))))
  {
    hide Value, Congruent;
    var x := f[..];
    ColumnsFit(x, x);
    FoldedProduct(x, x);
    var c := SquareColumns(x);
    var t := new i64[10](k requires 0 <= k < 10 => Twice(c[k]));
    DoubledValue(c, t[..], Value(x) * Value(x));
    CarryChain(t, 2 * (Value(x) * Value(x)));
    Store(h, t);
  }

  lemma DoubledValue(c: seq<int>, t: seq<int>, v: int)
    requires |c| == |t| == 10 && forall k :: 0 <= k < 10 ==> t[k] == c[k] + c[k]
    requires Congruent(Value(c), v)
    ensures Congruent(Value(t), 2 * v)
  {
    PartialLinear(c, 1, c, t, 10);
    CongruentLinear(Value(c), v, Value(c), v, 1);
  }
}
