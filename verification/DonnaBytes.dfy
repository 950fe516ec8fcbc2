/** Field elements as bytes in curve25519-donna: fcontract and fexpand. */
module DonnaBytes {
  import opened Words
  import opened Bitwise
  import opened Recoding
  import opened Limbs
  import opened FieldMul
  import opened FieldBytes
  import opened DonnaField

  // ----- the borrow passes of fcontract -----

  /** What limb i must borrow, counted negative. */
  function Borrow(x: int, i: nat): int { if x < 0 then x / Radix(i) else 0 }

  /** The first n steps of a pass that makes limbs non-negative. */
  function Borrowed(t: seq<int>, n: nat): (r: seq<int>)
    requires |t| == 10 && n <= 10
    ensures |r| == 10
  {
    if n == 0 then t
    else
      var s := Borrowed(t, n - 1);
      CarryOut(s, n - 1, Borrow(s[n - 1], n - 1))
  }

  /** The first n steps of a pass that carries every limb down to its own bits. */
  function Raised(t: seq<int>, n: nat): (r: seq<int>)
    requires |t| == 10 && n <= 10
    ensures |r| == 10
  {
    if n == 0 then t
    else
      var s := Raised(t, n - 1);
      CarryOut(s, n - 1, s[n - 1] / Radix(n - 1))
  }

  lemma {:induction false} BorrowedValue(t: seq<int>, n: nat)
    requires |t| == 10 && n <= 10
    ensures Congruent(Value(Borrowed(t, n)), Value(t))
  {
    hide Value, Congruent, CarryOut;
    if n == 0 {
      Reflexive(Value(t));
    } else {
      var s := Borrowed(t, n - 1);
      BorrowedValue(t, n - 1);
      CarryOutValue(s, n - 1, Borrow(s[n - 1], n - 1));
      Transitive(Value(Borrowed(t, n)), Value(s), Value(t));
    }
  }

  lemma {:induction false} RaisedValue(t: seq<int>, n: nat)
    requires |t| == 10 && n <= 10
    ensures Congruent(Value(Raised(t, n)), Value(t))
  {
    hide Value, Congruent, CarryOut;
    if n == 0 {
      Reflexive(Value(t));
    } else {
      var s := Raised(t, n - 1);
      RaisedValue(t, n - 1);
      CarryOutValue(s, n - 1, s[n - 1] / Radix(n - 1));
      Transitive(Value(Raised(t, n)), Value(s), Value(t));
    }
  }

  lemma BorrowSize(x: int, i: nat)
    requires -BELOW26 - 3 <= x <= BELOW26
    ensures -3 <= Borrow(x, i) <= 0
    ensures 0 <= x - Borrow(x, i) * Radix(i) <= BELOW26
    ensures -1 <= x ==> -1 <= Borrow(x, i)
    ensures -57 <= x < 0 && i == 0 ==> x - Borrow(x, i) * Radix(i) >= 0x400_0000 - 57
  {
  }

  /** First pass, n steps done: limb n may have gone three lower. */
  lemma {:induction false} FirstBorrows(t: seq<int>, n: nat)
    requires |t| == 10 && n <= 9 && Within(t, BELOW26)
    ensures forall k :: 0 <= k < n ==> 0 <= Borrowed(t, n)[k] <= BELOW26
    ensures -BELOW26 - 3 <= Borrowed(t, n)[n] <= BELOW26
    ensures forall k :: n < k < 10 ==> Borrowed(t, n)[k] == t[k]
  {
    if n > 0 {
      var s := Borrowed(t, n - 1);
      FirstBorrows(t, n - 1);
      BorrowSize(s[n - 1], n - 1);
      hide Borrow, Radix;
    }
  }

  /** After it only limb 0 may be negative, and not by much. */
  lemma FirstPass(t: seq<int>)
    requires |t| == 10 && Within(t, BELOW26)
    ensures -57 <= Borrowed(t, 10)[0] <= BELOW26
    ensures forall k :: 1 <= k < 10 ==> 0 <= Borrowed(t, 10)[k] <= BELOW26
  {
    var s := Borrowed(t, 9);
    FirstBorrows(t, 9);
    BorrowSize(s[9], 9);
    hide Borrow, Radix;
  }

  /** Second pass: limb n is -1 only if limb 0 has borrowed, and is then near the top of its range. */
  lemma {:induction false} SecondBorrows(t: seq<int>, n: nat)
    requires |t| == 10 && 1 <= n <= 9
    requires -57 <= t[0] <= BELOW26 && forall k :: 1 <= k < 10 ==> 0 <= t[k] <= BELOW26
    ensures var s := Borrowed(t, n);
      && (forall k :: 0 <= k < 10 && k != n ==> 0 <= s[k] <= BELOW26)
      && -1 <= s[n] <= BELOW26 && (s[n] == -1 ==> s[0] >= 0x400_0000 - 57)
      && forall k :: n < k < 10 ==> s[k] == t[k]
  {
    var s := Borrowed(t, n - 1);
    if n > 1 {
      SecondBorrows(t, n - 1);
    } else {
      assert s == t;
    }
    BorrowSize(s[n - 1], n - 1);
    NoBorrow(s[n - 1], n - 1);
    hide Borrow, Radix;
  }

  lemma NoBorrow(x: int, i: nat)
    ensures x >= 0 ==> Borrow(x, i) == 0
  {
  }

  lemma SecondPass(t: seq<int>)
    requires |t| == 10
    requires -57 <= t[0] <= BELOW26 && forall k :: 1 <= k < 10 ==> 0 <= t[k] <= BELOW26
    ensures forall k :: 0 <= k < 10 ==> 0 <= Borrowed(t, 10)[k] <= BELOW26
  {
    var s := Borrowed(t, 9);
    SecondBorrows(t, 9);
    BorrowSize(s[9], 9);
    NoBorrow(s[9], 9);
    hide Borrow, Radix;
  }

  // ----- its carry passes -----

  lemma RaiseSize(x: int, i: nat)
    requires 0 <= x <= BELOW26 + 2
    ensures 0 <= x / Radix(i) <= 2
    ensures 0 <= x - (x / Radix(i)) * Radix(i) < Radix(i)
    ensures x < Radix(i) ==> x / Radix(i) == 0
    ensures x <= Radix(i) ==> x / Radix(i) <= 1
    ensures x == Radix(i) ==> x - (x / Radix(i)) * Radix(i) == 0
  {
  }

  lemma {:induction false} FirstRaises(t: seq<int>, n: nat)
    requires |t| == 10 && n <= 9 && forall k :: 0 <= k < 10 ==> 0 <= t[k] <= BELOW26
    ensures forall k :: 0 <= k < n ==> 0 <= Raised(t, n)[k] < Radix(k)
    ensures 0 <= Raised(t, n)[n] <= BELOW26 + 2
    ensures forall k :: n < k < 10 ==> Raised(t, n)[k] == t[k]
  {
    if n > 0 {
      var s := Raised(t, n - 1);
      FirstRaises(t, n - 1);
      RaiseSize(s[n - 1], n - 1);
      hide Radix;
    }
  }

  lemma FirstRaise(t: seq<int>)
    requires |t| == 10 && forall k :: 0 <= k < 10 ==> 0 <= t[k] <= BELOW26
    ensures 0 <= Raised(t, 10)[0] <= BELOW26 + 38
    ensures forall k :: 1 <= k < 10 ==> 0 <= Raised(t, 10)[k] < Radix(k)
  {
    var s := Raised(t, 9);
    FirstRaises(t, 9);
    RaiseSize(s[9], 9);
    assert s[0] <= BELOW26;
    hide Radix;
  }

  /** Second pass: limb n is one too large only if limb 0 has overflowed, and is then small. */
  lemma {:induction false} SecondRaises(t: seq<int>, n: nat)
    requires |t| == 10 && 1 <= n <= 9
    requires 0 <= t[0] <= BELOW26 + 38 && forall k :: 1 <= k < 10 ==> 0 <= t[k] < Radix(k)
    ensures var s := Raised(t, n);
      && (forall k :: 0 <= k < 10 && k != n ==> 0 <= s[k] < Radix(k))
      && 0 <= s[n] <= Radix(n) && (s[n] == Radix(n) ==> s[0] <= 37)
      && forall k :: n < k < 10 ==> s[k] == t[k]
  {
    var s := Raised(t, n - 1);
    if n > 1 {
      SecondRaises(t, n - 1);
      RaiseSize(s[n - 1], n - 1);
      hide Radix;
    } else {
      assert s == t;
      FirstLimbRaise(t[0]);
    }
  }

  lemma FirstLimbRaise(x: int)
    requires 0 <= x <= BELOW26 + 38
    ensures 0 <= x / Radix(0) <= 1 && 0 <= x - (x / Radix(0)) * Radix(0) < Radix(0)
    ensures x / Radix(0) == 1 ==> x - (x / Radix(0)) * Radix(0) <= 37
  {
  }

  lemma SecondRaise(t: seq<int>)
    requires |t| == 10
    requires 0 <= t[0] <= BELOW26 + 38 && forall k :: 1 <= k < 10 ==> 0 <= t[k] < Radix(k)
    ensures Canonical(Raised(t, 10))
  {
    var s := Raised(t, 9);
    SecondRaises(t, 9);
    RaiseSize(s[9], 9);
    hide Raised;
  }

  // ----- its last subtraction -----

  /** The limbs of P itself: all full but the lowest, which is nineteen short. */
  ghost predicate AtLeastP(t: seq<int>) {
    |t| == 10 && t[0] >= 0x3FF_FFED && forall k :: 1 <= k < 10 ==> t[k] == Radix(k) - 1
  }

  lemma {:induction false} FullLimbs(t: seq<int>, m: nat)
    requires |t| == 10 && 1 <= m <= 10 && forall k :: 1 <= k < m ==> t[k] == Radix(k) - 1
    ensures Partial(t, m) == Weight(m) - Radix(0) + t[0]
  {
    hide Weight, Radix;
    if m == 1 {
      LastWeight();
      AnyWeight(0);
      assert Partial(t, 1) == Partial(t, 0) + Weight(0) * t[0];
    } else {
      FullLimbs(t, m - 1);
      AnyWeight(m - 1);
      assert Weight(m - 1) * (Radix(m - 1) - 1) == Radix(m - 1) * Weight(m - 1) - Weight(m - 1);
    }
  }

  lemma WeightAbove(k: nat)
    requires 1 <= k < 10
    ensures Weight(k) >= 19
  {
    var p := Position(k);
    assert p >= 26;
    Pow2Sum(5, p - 5);
    assert Pow2(5) == 32;
    hide Pow2, Position;
  }

  /** Limbs within their bits hold at least P just when fcontract's mask says so. */
  lemma MaskMeansP(t: seq<int>)
    requires Canonical(t)
    ensures AtLeastP(t) <==> Value(t) >= P
    ensures 0 <= Value(t) < D
  {
    hide Weight;
    CanonicalBelow(t, 10);
    TopWeights();
    if forall k :: 1 <= k < 10 ==> t[k] == Radix(k) - 1 {
      FullLimbs(t, 10);
    } else {
      var k :| 1 <= k < 10 && t[k] != Radix(k) - 1;
      var u := t[k := t[k] + 1];
      PartialUpdate(t, 10, k, t[k] + 1);
      CanonicalBelow(u, 10);
      WeightAbove(k);
    }
  }

  function Subtracted(t: seq<int>): (r: seq<int>)
    requires |t| == 10
    ensures |r| == 10
  {
    seq(10, k requires 0 <= k < 10 => t[k] - if k == 0 then 0x3FF_FFED else Radix(k) - 1)
  }

  lemma SubtractedValue(t: seq<int>)
    requires Canonical(t) && AtLeastP(t)
    ensures Canonical(Subtracted(t)) && Value(Subtracted(t)) == Value(t) - P
  {
    hide Weight;
    var r := Subtracted(t);
    FullLimbs(t, 10);
    LastWeight();
    TopWeights();
    ZeroAbove(r, 10);
  }

  lemma {:induction false} ZeroAbove(r: seq<int>, m: nat)
    requires |r| == 10 && 1 <= m <= 10 && forall k :: 1 <= k < 10 ==> r[k] == 0
    ensures Partial(r, m) == r[0]
  {
    hide Weight;
    if m == 1 {
      LastWeight();
      assert Partial(r, 1) == Partial(r, 0) + Weight(0) * r[0];
    } else {
      ZeroAbove(r, m - 1);
    }
  }

  // ----- the passes in place -----

  /** A step of a borrow pass, without a branch on the limb. */
  method BorrowLimb(t: array<i32>, i: nat)
    requires t.Length == 10 && i < 10
    requires forall k :: 0 <= k < 10 ==> Abs(t[k]) <= BELOW26 + 64
    requires t[i] - Borrow(t[i], i) * Radix(i) <= BELOW26
    modifies t
    ensures t[..] == CarryOut(old(t[..]), i, Borrow(old(t[i]), i))
  {
    hide And32, Borrow;
    ghost var s := t[..];
    BorrowMasked(t[i], i);
    var mask := t[i] / TWO31;
    var carry := -(And32(mask, t[i]) / Radix(i));
    t[i] := t[i] + carry * Radix(i);
    if i < 9 {
      t[i + 1] := t[i + 1] - carry;
    } else {
      t[0] := t[0] - carry * 19;
    }
    assert t[..] == CarryOut(s, i, -carry);
  }

  /** The mask of the sign leaves a negative limb and clears any other. */
  lemma BorrowMasked(x: i32, i: nat)
    requires Abs(x) <= BELOW26 + 64
    ensures And32(x / TWO31, x) / Radix(i) == Borrow(x, i)
    ensures -3 <= Borrow(x, i) <= 0 && 0 <= -Borrow(x, i) * Radix(i) <= 0x800_0000
  {
    Masked(x / TWO31, x);
    SmallBorrow(x, -Borrow(x, i), i);
    hide And32;
  }

  lemma SmallBorrow(x: int, c: int, i: nat)
    requires Abs(x) <= BELOW26 + 64 && c == if x < 0 then -(x / Radix(i)) else 0
    ensures 0 <= c <= 3 && 0 <= c * Radix(i) <= 0x800_0000
  {
  }

  /** Limbs stay within these bounds through either pass. */
  lemma BorrowRoom(t: seq<int>, n: nat)
    requires |t| == 10 && n < 10 && Within(t, BELOW26)
    ensures forall k :: 0 <= k < 10 ==> Abs(Borrowed(t, n)[k]) <= BELOW26 + 64
    ensures var x := Borrowed(t, n)[n]; x - Borrow(x, n) * Radix(n) <= BELOW26
  {
    FirstBorrows(t, n);
    BorrowSize(Borrowed(t, n)[n], n);
    hide Borrowed, Radix, Borrow;
  }

  method BorrowPass(t: array<i32>)
    requires t.Length == 10 && Within(t[..], BELOW26)
    modifies t
    ensures t[..] == Borrowed(old(t[..]), 10)
  {
    hide Radix, CarryOut, Borrow;
    ghost var s := t[..];
    var i := 0;
    while i < 10
      invariant 0 <= i <= 10
      invariant t[..] == Borrowed(s, i)
    {
      BorrowRoom(s, i);
      BorrowLimb(t, i);
      i := i + 1;
    }
  }

  /** A step of a carry pass. */
  method RaiseLimb(t: array<i32>, i: nat)
    requires t.Length == 10 && i < 10
    requires forall k :: 0 <= k < 10 ==> 0 <= t[k] <= BELOW26 + 38
    modifies t
    ensures t[..] == CarryOut(old(t[..]), i, old(t[i]) / Radix(i))
  {
    ghost var s := t[..];
    var carry := t[i] / Radix(i);
    SmallRaise(t[i], i);
    t[i] := t[i] % Radix(i);
    if i < 9 {
      t[i + 1] := t[i + 1] + carry;
    } else {
      t[0] := t[0] + 19 * carry;
    }
    assert t[..] == CarryOut(s, i, carry);
  }

  lemma SmallRaise(x: int, i: nat)
    requires 0 <= x <= BELOW26 + 38
    ensures 0 <= x / Radix(i) <= 2 && x % Radix(i) == x - (x / Radix(i)) * Radix(i)
    ensures 0 <= x % Radix(i) <= BELOW26
  {
  }

  method RaisePass(t: array<i32>)
    requires t.Length == 10
    requires forall i :: 0 <= i < 10 ==> forall k :: 0 <= k < 10 ==> 0 <= Raised(t[..], i)[k] <= BELOW26 + 38
    modifies t
    ensures t[..] == Raised(old(t[..]), 10)
  {
    hide Radix, CarryOut;
    ghost var s := t[..];
    var i := 0;
    while i < 10
      invariant 0 <= i <= 10
      invariant t[..] == Raised(s, i)
    {
      RaiseLimb(t, i);
      i := i + 1;
    }
  }

  lemma FirstRoom(t: seq<int>)
    requires |t| == 10 && forall k :: 0 <= k < 10 ==> 0 <= t[k] <= BELOW26
    ensures forall i :: 0 <= i < 10 ==> forall k :: 0 <= k < 10 ==> 0 <= Raised(t, i)[k] <= BELOW26 + 38
  {
    forall i | 0 <= i < 10
      ensures forall k :: 0 <= k < 10 ==> 0 <= Raised(t, i)[k] <= BELOW26 + 38
    {
      FirstRaises(t, i);
      hide Raised;
    }
  }

  lemma SecondRoom(t: seq<int>)
    requires |t| == 10
    requires 0 <= t[0] <= BELOW26 + 38 && forall k :: 1 <= k < 10 ==> 0 <= t[k] < Radix(k)
    ensures forall i :: 0 <= i < 10 ==> forall k :: 0 <= k < 10 ==> 0 <= Raised(t, i)[k] <= BELOW26 + 38
  {
    forall i | 0 <= i < 10
      ensures forall k :: 0 <= k < 10 ==> 0 <= Raised(t, i)[k] <= BELOW26 + 38
    {
      if i > 0 {
        SecondRaises(t, i);
        hide Raised;
      }
    }
  }

  /** Bring limbs below 2^26 in magnitude within their own bits: two borrow passes, a last borrow,
   *  two carry passes. */
  method FullyReduce(t: array<i32>)
    requires t.Length == 10 && Within(t[..], BELOW26)
    modifies t
    ensures Canonical(t[..]) && Congruent(Value(t[..]), old(Value(t[..])))
  {
    hide Value, Congruent, Borrowed, Raised, Borrow;
    ghost var v := Value(t[..]);
    Reflexive(v);
    BorrowBoth(t, v);
    ghost var s := t[..];
    NoBorrow(t[0], 0);
    BorrowLimb(t, 0);
    NothingCarried(s, 0);
    RaiseBoth(t, v);
  }

  lemma NothingCarried(t: seq<int>, i: nat)
    requires |t| == 10 && i < 10
    ensures CarryOut(t, i, 0) == t
  {
  }

  method BorrowBoth(t: array<i32>, ghost v: int)
    requires t.Length == 10 && Within(t[..], BELOW26) && Congruent(Value(t[..]), v)
    modifies t
    ensures (forall k :: 0 <= k < 10 ==> 0 <= t[k] <= BELOW26) && Congruent(Value(t[..]), v)
  {
    hide Value, Congruent, Borrowed;
    ghost var s := t[..];
    FirstPass(s);
    BorrowedValue(s, 10);
    BorrowPass(t);
    Transitive(Value(t[..]), Value(s), v);
    s := t[..];
    SecondPass(s);
    BorrowedValue(s, 10);
    BorrowPass(t);
    Transitive(Value(t[..]), Value(s), v);
  }

  method RaiseBoth(t: array<i32>, ghost v: int)
    requires t.Length == 10 && Congruent(Value(t[..]), v)
    requires forall k :: 0 <= k < 10 ==> 0 <= t[k] <= BELOW26
    modifies t
    ensures Canonical(t[..]) && Congruent(Value(t[..]), v)
  {
    hide Value, Congruent, Raised;
    ghost var s := t[..];
    FirstRaise(s);
    FirstRoom(s);
    RaisedValue(s, 10);
    RaisePass(t);
    Transitive(Value(t[..]), Value(s), v);
    s := t[..];
    SecondRaise(s);
    SecondRoom(s);
    RaisedValue(s, 10);
    RaisePass(t);
    Transitive(Value(t[..]), Value(s), v);
  }

  /** Subtract P if the limbs hold at least P, by a mask. */
  method SubtractP(t: array<i32>)
    requires t.Length == 10 && Canonical(t[..])
    modifies t
    ensures Canonical(t[..]) && 0 <= Value(t[..]) < P && Congruent(Value(t[..]), old(Value(t[..])))
  {
    hide Value, Congruent, And32;
    ghost var s := t[..];
    MaskMeansP(s);
    var mask := FullMask(t);
    Masked(mask, 0x3FF_FFED);
    Masked(mask, 0x3FF_FFFF);
    Masked(mask, 0x1FF_FFFF);
    t[0] := t[0] - And32(mask, 0x3FF_FFED);
    var i := 1;
    while i < 10
      invariant 1 <= i <= 10
      invariant t[0] == s[0] - (if mask == 0 then 0 else 0x3FF_FFED)
      invariant forall k :: 1 <= k < i ==> t[k] == s[k] - if mask == 0 then 0 else Radix(k) - 1
      invariant forall k :: i <= k < 10 ==> t[k] == s[k]
    {
      t[i] := t[i] - And32(mask, if i % 2 == 1 then 0x1FF_FFFF else 0x3FF_FFFF);
      i := i + 1;
    }
    if mask == 0 {
      assert t[..] == s;
      Reflexive(Value(s));
    } else {
      assert t[..] == Subtracted(s);
      SubtractedValue(s);
      CongruentBy(Value(t[..]), Value(s), -1);
    }
  }

  method FullMask(t: array<i32>) returns (mask: i32)
    requires t.Length == 10 && Canonical(t[..])
    ensures mask == if AtLeastP(t[..]) then -1 else 0
  {
    hide And32;
    mask := S32Gte(t[0], 0x3FF_FFED);
    var i := 1;
    while i < 10
      invariant 1 <= i <= 10
      invariant mask == if t[0] >= 0x3FF_FFED && forall k :: 1 <= k < i ==> t[k] == Radix(k) - 1 then -1 else 0
    {
      var eq := S32Eq(t[i], if i % 2 == 1 then 0x1FF_FFFF else 0x3FF_FFFF);
      Masked(mask, eq);
      mask := And32(mask, eq);
      i := i + 1;
    }
  }

  // ----- fcontract: the bytes -----

  /** Shift left in 32 bits; the top bit may end up as the sign. */
  function ShiftLeft(x: int, m: nat): i32 { Signed32(Wrap32(x * m)) }

  /** The bytes of a word do not depend on its sign. */
  lemma SignedBytes(d: nat)
    requires d < TWO32
    ensures Signed32(d) % 256 == d % 256
    ensures Signed32(d) / 0x100 % 256 == d / 256 % 256
    ensures Signed32(d) / 0x1_0000 % 256 == d / 256 / 256 % 256
    ensures Signed32(d) / 0x100_0000 % 256 == d / 256 / 256 / 256
  {
    DivideTwice(d, 256);
    DivideTwice(d, 0x1_0000);
    if d >= TWO31 {
      LowerByWord(d);
      WholeBytes(d / 0x100);
      WholeBytes(d / 0x1_0000);
      WholeBytes(d / 0x100_0000);
    }
    BelowWord(d);
  }

  lemma BelowWord(d: nat)
    requires d < TWO32
    ensures 0 <= d / 0x100_0000 < 256
  {
  }

  lemma LowerByWord(d: int)
    ensures (d - TWO32) % 256 == d % 256
    ensures (d - TWO32) / 0x100 == d / 0x100 - 0x100_0000
    ensures (d - TWO32) / 0x1_0000 == d / 0x1_0000 - 0x1_0000
    ensures (d - TWO32) / 0x100_0000 == d / 0x100_0000 - 0x100
  {
  }

  lemma WholeBytes(x: int)
    ensures (x - 0x100_0000) % 256 == x % 256 && (x - 0x1_0000) % 256 == x % 256
    ensures (x - 0x100) % 256 == x % 256
  {
  }

  /** The limbs below i are in the bytes below s, but for what byte s already holds of limb i - 1. */
  ghost predicate Written(output: seq<byte>, t: seq<int>, i: nat, s: nat) {
    && |output| == 32 && |t| == 10 && i <= 10 && s < 32
    && BytesValue(output[..s]) + Pow2(8 * s) * output[s] == Partial(t, i)
  }

  /** Limb i of input is limb i of t, shifted to where it begins in its byte. */
  ghost predicate Shifted(input: seq<i32>, t: seq<int>) {
    && |input| == |t| == 10
    && input[0] == t[0] && input[1] == ShiftLeft(t[1], 4) && input[2] == ShiftLeft(t[2], 8)
    && input[3] == ShiftLeft(t[3], 32) && input[4] == ShiftLeft(t[4], 64)
    && input[5] == t[5] && input[6] == ShiftLeft(t[6], 2) && input[7] == ShiftLeft(t[7], 8)
    && input[8] == ShiftLeft(t[8], 16) && input[9] == ShiftLeft(t[9], 64)
  }

  /** The macro F for limb i, whose bits begin sh bits into byte s: or the low byte into output[s],
   *  store the other three. The limb leaves room above its next bits in byte s + 3. */
  method WriteLimb(output: array<byte>, ghost t: seq<int>, input: i32, i: nat, s: nat, ghost sh: nat, ghost next: nat)
    requires output.Length == 32 && Canonical(t) && i < 10 && s + 4 <= 32
    requires 8 * s + sh == Position(i) && sh <= 6 && output[s] < Pow2(sh)
    requires 8 * s + 24 + next == Position(i + 1)
    requires input == Signed32(Wrap32(t[i] * Pow2(sh)))
    requires Written(output[..], t, i, s)
    modifies output
    ensures forall k :: s + 4 <= k < 32 ==> output[k] == old(output[k])
    ensures Written(output[..], t, i + 1, s + 3) && output[s + 3] < Pow2(next)
  {
    hide BytesValue, Pow2, Partial, Position, Canonical, U8, Or;
    ghost var before := output[..];
    ghost var hi, d := output[s], output[s] + t[i] * Pow2(sh);
    LimbIsNatural(t, i);
    LimbFits(t, i, s, sh, next, hi);
    FourBytes(hi, t[i], sh, input, d);
    output[s] := U8(Or(output[s], input % 256, 8));
    output[s + 1] := U8(input / 0x100);
    output[s + 2] := U8(input / 0x1_0000);
    output[s + 3] := U8(input / 0x100_0000);
    assert output[..s] == before[..s];
    PackLimb(output[..], t, i, s, sh, hi, d);
    assert output[..][..s + 3] == output[..s + 3];
  }

  lemma LimbFits(t: seq<int>, i: nat, s: nat, sh: nat, next: nat, hi: nat)
    requires Canonical(t) && i < 10 && sh <= 6 && hi < Pow2(sh)
    requires 8 * s + sh == Position(i) && 8 * s + 24 + next == Position(i + 1)
    ensures 0 <= t[i] * Pow2(sh) < TWO32
    ensures (hi + t[i] * Pow2(sh)) / 256 / 256 / 256 < Pow2(next)
  {
    LimbTop(i, s, sh, next);
    hide Pow2, Position;
    BelowTop(t[i], hi, Pow2(sh), Radix(i));
    DivideTwice(hi + t[i] * Pow2(sh), 256);
    DivideTwice(hi + t[i] * Pow2(sh), 0x1_0000);
    hide Radix;
    QuotientBelow(hi + t[i] * Pow2(sh), Pow2(next));
  }

  lemma QuotientBelow(d: int, p: int)
    requires 0 <= d < 0x100_0000 * p
    ensures d / 0x100_0000 < p
  {
  }

  lemma BelowTop(c: int, hi: int, m: int, r: int)
    requires 0 <= c < r && 0 <= hi < m
    ensures 0 <= c * m && hi + c * m < r * m
  {
    NonNegative(c, m);
    NonNegative(r - 1 - c, m);
    assert (r - 1 - c) * m == r * m - m - c * m;
  }

  lemma LimbTop(i: nat, s: nat, sh: nat, next: nat)
    requires i < 10 && sh <= 6
    requires 8 * s + sh == Position(i) && 8 * s + 24 + next == Position(i + 1)
    ensures Radix(i) * Pow2(sh) == 0x100_0000 * Pow2(next) <= TWO32
  {
    PositionStep(i);
    Pow2Of26();
    ByteSizes();
    hide Position;
    Pow2Sum(if i % 2 == 0 then 26 else 25, sh);
    Pow2Sum(24, next);
    PowersUpTo(next);
    hide Pow2;
  }

  lemma PowersUpTo(n: nat)
    requires n <= 8
    ensures Pow2(n) <= 256
  {
    Pow2Sum(n, 8 - n);
    ByteSizes();
    hide Pow2;
  }

  lemma FourBytes(hi: nat, c: nat, sh: nat, input: i32, d: nat)
    requires sh <= 6 && hi < Pow2(sh) && d == hi + c * Pow2(sh)
    requires c * Pow2(sh) < TWO32 && input == Signed32(c * Pow2(sh))
    ensures U8(Or(hi, input % 256, 8)) == d % 256
    ensures U8(input / 0x100) == d / 256 % 256
    ensures U8(input / 0x1_0000) == d / 256 / 256 % 256
    ensures U8(input / 0x100_0000) == d / 256 / 256 / 256
  {
    LowByteOr(hi, c, sh);
    SameHighBytes(hi, c, sh);
    WordBytes(hi, c * Pow2(sh), input, d);
    hide *;
  }

  lemma WordBytes(hi: nat, x: u32, input: i32, d: nat)
    requires input == Signed32(x) && d / 256 == x / 256
    requires Or(hi, x % 256, 8) == d % 256
    ensures U8(Or(hi, input % 256, 8)) == d % 256
    ensures U8(input / 0x100) == d / 256 % 256
    ensures U8(input / 0x1_0000) == d / 256 / 256 % 256
    ensures U8(input / 0x100_0000) == d / 256 / 256 / 256
  {
    hide Or, Signed32;
    SignedBytes(x);
  }

  lemma LimbIsNatural(t: seq<int>, i: nat)
    requires Canonical(t) && i < 10
    ensures t[i] >= 0
  {
  }

  lemma SmallPower(sh: nat)
    requires sh <= 6
    ensures Pow2(8 - sh) * Pow2(sh) == 256
  {
    Pow2Sum(8 - sh, sh);
    ByteSizes();
    hide Pow2;
  }

  lemma LowByteOr(hi: nat, c: nat, sh: nat)
    requires sh <= 6 && hi < Pow2(sh)
    ensures Or(hi, c * Pow2(sh) % 256, 8) == (hi + c * Pow2(sh)) % 256
  {
    SmallPower(sh);
    LowByteAlgebra(hi, c, Pow2(sh), Pow2(8 - sh));
    hide Pow2;
    LowBitsOr(hi, c % Pow2(8 - sh), sh, c * Pow2(sh) % 256);
  }

  lemma LowBitsOr(hi: nat, c: nat, sh: nat, low: nat)
    requires sh <= 6 && hi < Pow2(sh) && low == c * Pow2(sh) < 256
    ensures Or(hi, low, 8) == hi + low
  {
    ByteSizes();
    hide Pow2;
    OrDisjoint(hi, c, sh, 8);
  }

  lemma LowByteAlgebra(hi: nat, c: nat, m: nat, n: nat)
    requires hi < m && n * m == 256 && n > 0
    ensures c * m % 256 == (c % n) * m < 256 && (hi + c * m) % 256 == hi + (c % n) * m < 256
  {
    var q, r := c / n, c % n;
    RemainderBelow(c, n);
    ShiftAlgebra(q, r, m, n);
    TopByte(r, m, n);
    DivideIs(c * m, 256, q, r * m);
    DivideIs(hi + c * m, 256, q, hi + r * m);
  }

  lemma TopByte(r: nat, m: nat, n: nat)
    requires r < n && m > 0 && n * m == 256
    ensures 0 <= r * m <= 256 - m
  {
    NonNegative(n - 1 - r, m);
    assert (n - 1 - r) * m == n * m - m - r * m;
    NonNegative(r, m);
  }

  lemma SameHighBytes(hi: nat, c: nat, sh: nat)
    requires sh <= 6 && hi < Pow2(sh)
    ensures (hi + c * Pow2(sh)) / 256 == c * Pow2(sh) / 256
  {
    var m, n := Pow2(sh), Pow2(8 - sh);
    SmallPower(sh);
    ShiftedDigits(hi, c, m, n);
    ShiftedDigits(0, c, m, n);
    hide Pow2;
  }

  method WriteAll(output: array<byte>, input: seq<i32>, ghost t: seq<int>)
    requires output.Length == 32 && Canonical(t) && Shifted(input, t)
    modifies output
    ensures BytesValue(output[..]) == Value(t)
  {
    hide Written, Canonical, BytesValue, Value;
    SmallPowers();
    output[0] := 0;
    output[16] := 0;
    NothingWritten(output[..], t);
    hide Pow2;
    WriteLimb(output, t, input[0], 0, 0, 0, 2);
    WriteLimb(output, t, input[1], 1, 3, 2, 3);
    WriteLimb(output, t, input[2], 2, 6, 3, 5);
    WriteLimb(output, t, input[3], 3, 9, 5, 6);
    WriteLimb(output, t, input[4], 4, 12, 6, 8);
    HalfWritten(output[..], t);
    WriteLimb(output, t, input[5], 5, 16, 0, 1);
    WriteLimb(output, t, input[6], 6, 19, 1, 3);
    WriteLimb(output, t, input[7], 7, 22, 3, 4);
    WriteLimb(output, t, input[8], 8, 25, 4, 6);
    WriteLimb(output, t, input[9], 9, 28, 6, 7);
    AllWritten(output[..], t);
  }

  lemma NothingWritten(output: seq<byte>, t: seq<int>)
    requires |output| == 32 && |t| == 10 && output[0] == 0
    ensures Written(output, t, 0, 0)
  {
  }

  /** Limb 4 ends where byte 15 does. */
  lemma HalfWritten(output: seq<byte>, t: seq<int>)
    requires Written(output, t, 5, 15) && output[16] == 0
    ensures Written(output, t, 5, 16)
  {
    hide BytesValue, Pow2;
    BytesAppend(output, 15);
  }

  lemma AllWritten(output: seq<byte>, t: seq<int>)
    requires Written(output, t, 10, 31)
    ensures BytesValue(output) == Value(t)
  {
    hide BytesValue, Pow2;
    BytesAppend(output, 31);
    assert output[..32] == output;
  }

  method ShiftLimbs(input: array<i32>)
    requires input.Length == 10
    modifies input
    ensures Shifted(input[..], old(input[..]))
  {
    input[1] := ShiftLeft(input[1], 4);
    input[2] := ShiftLeft(input[2], 8);
    input[3] := ShiftLeft(input[3], 32);
    input[4] := ShiftLeft(input[4], 64);
    input[6] := ShiftLeft(input[6], 2);
    input[7] := ShiftLeft(input[7], 8);
    input[8] := ShiftLeft(input[8], 16);
    input[9] := ShiftLeft(input[9], 64);
  }

  /** The 32 bytes are the least natural number congruent to the limbs. */
  method FContract(output: array<byte>, inputLimbs: array<i64>)
    requires output.Length == 32 && Fits(inputLimbs, BELOW26)
    modifies output
    ensures BytesValue(output[..]) == Held(inputLimbs) % P
  {
    hide Value, Congruent, BytesValue, Shifted;
    var limbs := inputLimbs[..10];
    var input := new i32[10](k requires 0 <= k < 10 => limbs[k]);
    assert input[..] == limbs;
    FullyReduce(input);
    ghost var v := Value(input[..]);
    SubtractP(input);
    Transitive(Value(input[..]), v, Value(limbs));
    ghost var t := input[..];
    ShiftLimbs(input);
    WriteAll(output, input[..], t);
    CongruentIffMod(Value(t), Value(limbs));
  }

  // ----- fexpand -----

  /** The macro F: a load, shifted down and masked. */
  function Expanded(s: seq<byte>): (c: seq<nat>)
    requires |s| == 32
    ensures |c| == 10
  {
    [Load4(s, 0) % 0x400_0000, Load4(s, 3) / 4 % 0x200_0000, Load4(s, 6) / 8 % 0x400_0000,
     Load4(s, 9) / 32 % 0x200_0000, Load4(s, 12) / 64 % 0x400_0000, Load4(s, 16) % 0x200_0000,
     Load4(s, 19) / 2 % 0x400_0000, Load4(s, 22) / 8 % 0x200_0000, Load4(s, 25) / 16 % 0x400_0000,
     Load4(s, 28) / 64 % 0x200_0000]
  }

  lemma {:induction false} BytesSplit(s: seq<byte>, k: nat)
    requires k <= |s|
    ensures BytesValue(s) == BytesValue(s[..k]) + Pow2(8 * k) * BytesValue(s[k..])
  {
    if k == 0 {
      assert s[0..] == s;
    } else {
      BytesSplit(s[1..], k - 1);
      assert s[..k][1..] == s[1..][..k - 1] && s[1..][k - 1..] == s[k..];
      EightMore(k - 1);
      hide Pow2;
      SplitAlgebra(256, s[0], BytesValue(s[..k][1..]), Pow2(8 * (k - 1)), BytesValue(s[k..]));
    }
  }

  /** A load and what is above it. */
  lemma LoadedTail(s: seq<byte>, k: nat)
    requires k + 4 <= |s|
    ensures BytesValue(s[k..]) == Load4(s, k) + TWO32 * BytesValue(s[k + 4..])
  {
    hide Pow2, Load4, BytesValue;
    var r := s[k..];
    BytesSplit(r, 4);
    assert r[4..] == s[k + 4..];
    Loaded4(r, 0);
    LoadFrom(s, k);
    NothingBelow(r);
    ByteSizes();
  }

  lemma LoadFrom(s: seq<byte>, k: nat)
    requires k + 4 <= |s|
    ensures Load4(s[k..], 0) == Load4(s, k)
  {
  }

  lemma NothingBelow(r: seq<byte>)
    ensures BytesValue(r[..0]) == 0 && Pow2(8 * 0) == 1
  {
  }

  /** The number above bit 8 * k + sh, in terms of one load. */
  lemma BitsAbove(s: seq<byte>, k: nat, sh: nat, r: nat, g: nat)
    requires |s| == 32 && k + 4 <= 32 && sh <= 6 && r > 0
    requires Pow2(sh) * (r * g) == TWO32
    ensures BytesValue(s) / Pow2(8 * k + sh) % r == Load4(s, k) / Pow2(sh) % r
  {
    var m, low, y, z, load := Pow2(sh), BytesValue(s[..k]), BytesValue(s[k..]), BytesValue(s[k + 4..]), Load4(s, k);
    BytesSplit(s, k);
    BytesBelow(s, k);
    LoadedTail(s, k);
    Pow2Sum(8 * k, sh);
    hide *;
    var w := Pow2(8 * k);
    LowDropped(low, y, w, m);
    HighDropped(load, z, m, r, g);
  }

  lemma LowDropped(low: nat, y: nat, w: nat, m: nat)
    requires low < w && m > 0
    ensures (low + w * y) / (w * m) == y / m
  {
    RemainderBelow(y, m);
    LowAlgebra(low, y, w, m, y / m, y % m);
    DivideIs(low + w * y, w * m, y / m, low + w * (y % m));
  }

  lemma LowAlgebra(low: int, y: int, w: int, m: int, q: int, t: int)
    requires y == q * m + t && 0 <= t < m && 0 <= low < w
    ensures low + w * y == q * (w * m) + (low + w * t) && 0 <= low + w * t < w * m
  {
    assert w * (q * m + t) == q * (w * m) + w * t;
    NonNegative(w, t);
    NonNegative(w, m - 1 - t);
    assert w * (m - 1 - t) == w * m - w - w * t;
  }

  lemma HighDropped(load: nat, z: nat, m: nat, r: nat, g: nat)
    requires m > 0 && r > 0 && m * (r * g) == TWO32
    ensures (load + TWO32 * z) / m % r == load / m % r
  {
    RemainderBelow(load, m);
    HighAlgebra(z, m, r * g);
    DivideIs(load + TWO32 * z, m, load / m + r * g * z, load % m);
    RemainderBelow(load / m, r);
    assert r * g * z == g * z * r;
    DivideIs(load / m + r * g * z, r, load / m / r + g * z, load / m % r);
  }

  lemma HighAlgebra(z: int, m: int, h: int)
    requires m * h == TWO32
    ensures TWO32 * z == h * z * m
  {
  }

  /** The first n limbs hold the low bits of the number. */
  ghost predicate ExpandedUpTo(s: seq<byte>, n: nat) {
    |s| == 32 && n <= 10 && Partial(Expanded(s), n) == BytesValue(s) % Weight(n)
  }

  lemma ExpandedStep(s: seq<byte>, n: nat, k: nat, sh: nat, m: nat, r: nat, g: nat)
    requires ExpandedUpTo(s, n) && n < 10 && k + 4 <= 32 && sh <= 6
    requires 8 * k + sh == Position(n) && m == Pow2(sh) && r == Radix(n) && m * (r * g) == TWO32
    requires Expanded(s)[n] == Load4(s, k) / m % Radix(n)
    ensures ExpandedUpTo(s, n + 1)
  {
    hide BytesValue, Expanded, Radix, Load4, Pow2, Position;
    BitsAbove(s, k, sh, Radix(n), g);
    AnyWeight(n);
    hide Weight;
    assert Weight(n) == Pow2(8 * k + sh) by {
      WeightIs(n);
    }
    RemainderOfProduct(BytesValue(s), Weight(n), Radix(n));
  }

  lemma WeightIs(n: nat)
    ensures Weight(n) == Pow2(Position(n))
  {
  }

  lemma RemainderOfProduct(x: nat, w: nat, r: nat)
    requires w > 0 && r > 0
    ensures x % (r * w) == x % w + w * (x / w % r)
  {
    RemainderBelow(x, w);
    RemainderBelow(x / w, r);
    ProductRemainder(x, w, r, x / w, x % w, x / w / r, x / w % r);
    DivideIs(x, r * w, x / w / r, x % w + w * (x / w % r));
  }

  lemma ProductRemainder(x: int, w: int, r: int, q: int, t: int, p: int, u: int)
    requires w > 0 && r > 0 && x == q * w + t && 0 <= t < w && q == p * r + u && 0 <= u < r
    ensures x == p * (r * w) + (t + w * u) && 0 <= t + w * u < r * w
  {
    assert (p * r + u) * w == p * (r * w) + w * u;
    NonNegative(w, u);
    NonNegative(w, r - 1 - u);
    assert w * (r - 1 - u) == r * w - w - w * u;
  }

  lemma ExpandedLimbs(s: seq<byte>)
    requires |s| == 32
    ensures var c := Expanded(s);
      && c[0] == Load4(s, 0) / 1 % Radix(0) && c[1] == Load4(s, 3) / 4 % Radix(1)
      && c[2] == Load4(s, 6) / 8 % Radix(2) && c[3] == Load4(s, 9) / 32 % Radix(3)
      && c[4] == Load4(s, 12) / 64 % Radix(4) && c[5] == Load4(s, 16) / 1 % Radix(5)
      && c[6] == Load4(s, 19) / 2 % Radix(6) && c[7] == Load4(s, 22) / 8 % Radix(7)
      && c[8] == Load4(s, 25) / 16 % Radix(8) && c[9] == Load4(s, 28) / 64 % Radix(9)
  {
    hide Load4;
  }

  /** The limbs hold the low 255 bits. */
  lemma ExpandedValue(s: seq<byte>)
    requires |s| == 32
    ensures Value(Expanded(s)) == BytesValue(s) % D
  {
    FirstExpanded(s);
    SmallPowers();
    ExpandedLimbs(s);
    hide *;
    Places();
    ExpandedStep(s, 5, 16, 0, 1, 0x200_0000, 128);
    ExpandedStep(s, 6, 19, 1, 2, 0x400_0000, 32);
    ExpandedStep(s, 7, 22, 3, 8, 0x200_0000, 16);
    ExpandedStep(s, 8, 25, 4, 16, 0x400_0000, 4);
    ExpandedStep(s, 9, 28, 6, 64, 0x200_0000, 2);
    AllExpanded(s);
  }

  lemma FirstExpanded(s: seq<byte>)
    requires |s| == 32
    ensures ExpandedUpTo(s, 5)
  {
    TwoExpanded(s);
    SmallPowers();
    ExpandedLimbs(s);
    hide *;
    Places();
    ExpandedStep(s, 2, 6, 3, 8, 0x400_0000, 8);
    ExpandedStep(s, 3, 9, 5, 32, 0x200_0000, 4);
    ExpandedStep(s, 4, 12, 6, 64, 0x400_0000, 1);
  }

  lemma Places()
    ensures Position(0) == 0 && Position(1) == 26 && Position(2) == 51 && Position(3) == 77 && Position(4) == 102
    ensures Position(5) == 128 && Position(6) == 153 && Position(7) == 179 && Position(8) == 204 && Position(9) == 230
    ensures Radix(0) == Radix(2) == Radix(4) == Radix(6) == Radix(8) == 0x400_0000
    ensures Radix(1) == Radix(3) == Radix(5) == Radix(7) == Radix(9) == 0x200_0000
  {
  }

  lemma TwoExpanded(s: seq<byte>)
    requires |s| == 32
    ensures ExpandedUpTo(s, 2)
  {
    NothingExpanded(s);
    SmallPowers();
    ExpandedLimbs(s);
    hide *;
    Places();
    ExpandedStep(s, 0, 0, 0, 1, 0x400_0000, 64);
    ExpandedStep(s, 1, 3, 2, 4, 0x200_0000, 32);
  }

  lemma NothingExpanded(s: seq<byte>)
    requires |s| == 32
    ensures ExpandedUpTo(s, 0)
  {
    LastWeight();
    hide Weight;
  }

  lemma AllExpanded(s: seq<byte>)
    requires ExpandedUpTo(s, 10)
    ensures Value(Expanded(s)) == BytesValue(s) % D
  {
    TopWeights();
    hide Weight, Partial, Expanded, BytesValue;
  }

  /** The top bit of the input is ignored. */
  method FExpand(output: array<i64>, input: seq<byte>)
    requires output.Length >= 10 && |input| == 32
    modifies output
    ensures Fits(output, BELOW26) && Held(output) == BytesValue(input) % D
  {
    hide Value, BytesValue;
    ExpandedValue(input);
    ExpandedBelow(input);
    var c := Expanded(input);
    hide Expanded;
    forall k | 0 <= k < 10 {
      output[k] := c[k];
    }
    assert output[..10] == c;
  }

  lemma ExpandedBelow(s: seq<byte>)
    requires |s| == 32
    ensures forall k :: 0 <= k < 10 ==> 0 <= Expanded(s)[k] <= BELOW26
  {
    hide Load4;
    assert forall x: nat :: x % 0x400_0000 <= BELOW26 && x % 0x200_0000 <= BELOW26;
  }

  /** Writing what was read gives the number in the low 255 bits, reduced modulo P. */
  method ExpandThenContract(output: array<byte>, input: seq<byte>)
    requires output.Length == 32 && |input| == 32
    modifies output
    ensures BytesValue(output[..]) == BytesValue(input) % D % P
  {
    hide Value, BytesValue;
    var limbs := new i64[10];
    FExpand(limbs, input);
    FContract(output, limbs);
  }
}
