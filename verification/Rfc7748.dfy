/** The 256 steps of cmult against the 255 of section 5 of RFC 7748: the step for the top bit, which is
 *  clear, changes the scale of the coordinates alone, and the final division takes the scale out. */
module Rfc7748 {
  import opened Words
  import opened Recoding
  import opened Limbs
  import opened FieldChains
  import opened FieldBytes
  import opened DonnaLadder
  import opened Curve25519
  import opened Fermat

  /** The function X25519 as section 5 of RFC 7748 has it, from bit 254 down. */
  function RfcX25519(k: seq<byte>, u: int): int
    requires |k| == 32
  {
    var r := RfcLadder(u, TopBits(k)[1..]);
    r.x2 * Power(r.z2, P - 2) % P
  }

  // ----- a scale of the two points -----

  ghost predicate Scaled(s: Rungs, t: Rungs, a: int, b: int) {
    t.x2 == a * s.x2 && t.z2 == a * s.z2 && t.x3 == b * s.x3 && t.z3 == b * s.z3
  }

  lemma SquareOf(a: int, x: int)
    ensures (a * x) * (a * x) == a * a * (x * x)
  {
  }

  lemma Cross(a: int, x: int, b: int, y: int)
    ensures (a * x) * (b * y) == a * b * (x * y)
  {
  }

  lemma Factor(a: int, x: int, y: int)
    ensures a * x + a * y == a * (x + y) && a * x - a * y == a * (x - y)
  {
  }

  lemma StepScales(x1: int, s: Rungs, t: Rungs, a: int, b: int)
    requires Scaled(s, t, a, b)
    ensures Scaled(Step(x1, s), Step(x1, t), a * a * (a * a), a * b * (a * b))
  {
    Factor(a, s.x2, s.z2);
    Factor(b, s.x3, s.z3);
    FirstScales(s.x2 + s.z2, s.x2 - s.z2, a);
    SecondScales(x1, s.x2 + s.z2, s.x2 - s.z2, s.x3 + s.z3, s.x3 - s.z3, a, b);
  }

  /** The doubled point, from the sum and the difference of its coordinates. */
  lemma FirstScales(y: int, w: int, a: int)
    ensures var aa, bb := a * y * (a * y), a * w * (a * w);
      && aa * bb == a * a * (a * a) * (y * y * (w * w))
      && (aa - bb) * (aa + A24 * (aa - bb)) == a * a * (a * a) * ((y * y - w * w) * (y * y + A24 * (y * y - w * w)))
  {
    var q := a * a;
    SquareOf(a, y);
    SquareOf(a, w);
    Cross(q, y * y, q, w * w);
    Factor(q, y * y, w * w);
    var e := y * y - w * w;
    Reassociate(A24, q, e);
    Factor(q, y * y, A24 * e);
    Cross(q, e, q, y * y + A24 * e);
  }

  lemma Reassociate(x: int, y: int, z: int)
    ensures x * (y * z) == y * (x * z)
  {
  }

  /** The sum of the points. */
  lemma SecondScales(x1: int, y: int, w: int, c: int, d: int, a: int, b: int)
    ensures var da, cb := b * d * (a * y), b * c * (a * w);
      && (da + cb) * (da + cb) == a * b * (a * b) * ((d * y + c * w) * (d * y + c * w))
      && x1 * ((da - cb) * (da - cb)) == a * b * (a * b) * (x1 * ((d * y - c * w) * (d * y - c * w)))
  {
    var q := a * b;
    Cross(b, d, a, y);
    Cross(b, c, a, w);
    Swap(a, b);
    Factor(q, d * y, c * w);
    SquareOf(q, d * y + c * w);
    SquareOf(q, d * y - c * w);
    Reassociate(x1, q * q, (d * y - c * w) * (d * y - c * w));
  }

  lemma Swap(a: int, b: int)
    ensures a * b == b * a
  {
  }

  lemma BitScales(x1: int, s: Rungs, t: Rungs, a: int, b: int, bit: int)
    requires Scaled(s, t, a, b) && 0 <= bit <= 1
    ensures bit == 0 ==> Scaled(OneBit(x1, s, 0), OneBit(x1, t, 0), a * a * (a * a), a * b * (a * b))
    ensures bit == 1 ==> Scaled(OneBit(x1, s, 1), OneBit(x1, t, 1), a * b * (a * b), b * b * (b * b))
  {
    if bit == 0 {
      StepScales(x1, s, t, a, b);
    } else {
      StepScales(x1, Swapped(s), Swapped(t), b, a);
      Swap(a, b);
    }
    hide Step;
  }

  // ----- the scale is a power of 4u -----

  /** The exponents of the two scales once these bits have gone by. */
  function Exponents(bits: seq<int>): (nat, nat) {
    if bits == [] then (0, 1)
    else
      var (m, n) := Exponents(bits[..|bits| - 1]);
      if bits[|bits| - 1] == 1 then (2 * (m + n), 4 * n) else (4 * m, 2 * (m + n))
  }

  lemma PowersMeet(w: int, m: nat, n: nat)
    ensures var a, b := Power(w, m), Power(w, n);
      && a * b * (a * b) == Power(w, 2 * (m + n)) && a * a * (a * a) == Power(w, 4 * m)
  {
    PowerSum(w, m, n);
    PowerSum(w, m + n, m + n);
    PowerSum(w, m, m);
    PowerSum(w, 2 * m, 2 * m);
    hide Power;
  }

  ghost predicate LadderScaled(u: int, bits: seq<int>) {
    var (m, n) := Exponents(bits);
    Scaled(Ladder(u, bits), Ladder(u, [0] + bits), Power(4 * u, m), Power(4 * u, n))
  }

  ghost predicate Bits(bits: seq<int>) {
    forall i :: 0 <= i < |bits| ==> 0 <= bits[i] <= 1
  }

  lemma FirstScale(u: int)
    ensures LadderScaled(u, [])
  {
    var s := Rungs(1, 0, u, 1);
    assert [0][..0] == [] && [0] + [] == [0];
    assert Ladder(u, [0]) == OneBit(u, Ladder(u, []), 0);
    assert Power(4 * u, 0) == 1 && Power(4 * u, 1) == 4 * u * Power(4 * u, 0);
    hide Power, Ladder;
    assert Step(u, s) == Rungs(1, 0, 4 * u * u, 4 * u);
  }

  lemma {:induction false} LadderScales(u: int, bits: seq<int>)
    requires Bits(bits)
    ensures LadderScaled(u, bits)
  {
    if bits == [] {
      FirstScale(u);
    } else {
      var front, bit := bits[..|bits| - 1], bits[|bits| - 1];
      LadderScales(u, front);
      var (m, n) := Exponents(front);
      var a, b := Power(4 * u, m), Power(4 * u, n);
      BitScales(u, Ladder(u, front), Ladder(u, [0] + front), a, b, bit);
      PowersMeet(4 * u, m, n);
      PowersMeet(4 * u, n, m);
      assert ([0] + bits)[..|bits|] == [0] + front && ([0] + bits)[|bits|] == bit;
      hide Power, OneBit, Scaled;
    }
  }

  /** Once a bit is set the scale of the result is a power with a positive exponent. */
  lemma {:induction false} ExponentPositive(bits: seq<int>)
    requires bits != [] && bits[0] == 1
    ensures Exponents(bits).0 > 0 && Exponents(bits).1 > 0
  {
    var front := bits[..|bits| - 1];
    if front == [] {
      assert Exponents(front) == (0, 1);
    } else {
      ExponentPositive(front);
    }
  }

  // ----- division takes the scale out -----

  lemma {:induction false} PowerOfProduct(a: int, b: int, n: nat)
    ensures Power(a * b, n) == Power(a, n) * Power(b, n)
  {
    if n > 0 {
      PowerOfProduct(a, b, n - 1);
      Cross(a, b, Power(a, n - 1), Power(b, n - 1));
      Interleave(a, b, Power(a, n - 1), Power(b, n - 1));
    }
  }

  lemma Interleave(a: int, b: int, x: int, y: int)
    ensures a * b * (x * y) == a * x * (b * y)
  {
  }

  lemma {:induction false} PowerNatural(a: nat, n: nat)
    ensures Power(a, n) >= 0
  {
    if n > 0 {
      PowerNatural(a, n - 1);
      NonNegative(a, Power(a, n - 1));
    }
  }

  /** Numerator and denominator scaled by the same a. */
  lemma ScaledQuotient(x: int, z: int, a: int)
    ensures a * x * Power(a * z, P - 2) == Power(a, P - 1) * (x * Power(z, P - 2))
  {
    PowerOfProduct(a, z, P - 2);
    assert Power(a, P - 1) == a * Power(a, P - 2);
    hide Power;
    Interleave(a, x, Power(a, P - 2), Power(z, P - 2));
  }

  lemma ScaleDrops(x: int, z: int, a: nat)
    requires Prime(P) && !Divides(P, a)
    ensures a * x * Power(a * z, P - 2) % P == x * Power(z, P - 2) % P
  {
    hide Prime, Power;
    PowerIsOne(P, a);
    ScaledQuotient(x, z, a);
    var q, one := x * Power(z, P - 2), Power(a, P - 1);
    ProductDivides(P, one - 1, q);
    MultipleOf(P, (one - 1) * q);
    AddMultiple(q, (one - 1) * q / P, P);
    OneMore(one, q);
  }

  lemma OneMore(x: int, q: int)
    ensures x * q == q + (x - 1) * q
  {
  }

  lemma FourTimes(u: int)
    requires Prime(P) && !Divides(P, u)
    ensures !Divides(P, 4 * u)
  {
    assert !Divides(P, 4);
    if Divides(P, 4 * u) {
      Euclid(P, 4, u);
    }
    hide Prime, Divides;
  }

  // ----- a base point that is zero -----

  /** Numerator and denominator of the result, and denominator of the other point, vanish. */
  ghost predicate Vanishes(s: Rungs) {
    Divides(P, s.x2) && Divides(P, s.z2) && Divides(P, s.z3)
  }

  lemma FirstVanishes(u: int)
    requires Divides(P, u)
    ensures Vanishes(OneBit(u, Rungs(1, 0, u, 1), 1))
  {
    var v := FirstRungs(u);
    hide Divides, OneBit;
    ProductDivides(P, u, 4 * u);
    ProductDivides(P, u, 4);
    ProductDivides(P, u, 4 * v);
  }

  lemma FirstRungs(u: int) returns (v: int)
    ensures var r := OneBit(u, Rungs(1, 0, u, 1), 1);
      r.x2 == u * (4 * u) && r.z2 == u * 4 && r.z3 == u * (4 * v)
  {
    var s := Rungs(u, 1, 1, 0);
    var a, b := u + 1, u - 1;
    v := a * a + A24 * (a * a - b * b);
    assert Swapped(Rungs(1, 0, u, 1)) == s;
    assert Step(u, s) == Rungs(a * a * (b * b), (a * a - b * b) * v, (a + b) * (a + b), u * ((a - b) * (a - b)));
    hide Step;
    SquaresApart(u);
    Regroup(u, v);
  }

  lemma SquaresApart(u: int)
    ensures (u + 1) * (u + 1) - (u - 1) * (u - 1) == 4 * u
  {
  }

  lemma Regroup(u: int, v: int)
    ensures 4 * u * v == u * (4 * v) && 2 * u * (2 * u) == u * (4 * u)
  {
  }

  lemma NextVanishes(u: int, s: Rungs, bit: int)
    requires Divides(P, u) && Vanishes(s) && 0 <= bit <= 1
    ensures Vanishes(OneBit(u, s, bit))
  {
    hide Divides;
    SumDivides(P, s.x2, s.z2);
    if bit == 0 {
      var a, b := s.x2 + s.z2, s.x2 - s.z2;
      ProductDivides(P, a, a);
      ProductDivides(P, b, b);
      ProductDivides(P, a * a, b * b);
      SumDivides(P, a * a, b * b);
      ProductDivides(P, a * a - b * b, a * a + A24 * (a * a - b * b));
      var da, cb := (s.x3 - s.z3) * a, (s.x3 + s.z3) * b;
      ProductDivides(P, u, (da - cb) * (da - cb));
    } else {
      var a, b, c, d := s.x3 + s.z3, s.x3 - s.z3, s.x2 + s.z2, s.x2 - s.z2;
      ProductDivides(P, s.z3, 4 * s.x3);
      assert a * a - b * b == s.z3 * (4 * s.x3);
      ProductDivides(P, a * a - b * b, a * a + A24 * (a * a - b * b));
      ProductDivides(P, d, a);
      ProductDivides(P, c, b);
      SumDivides(P, d * a, c * b);
      ProductDivides(P, d * a + c * b, d * a + c * b);
      ProductDivides(P, u, (d * a - c * b) * (d * a - c * b));
    }
  }

  lemma {:induction false} LadderVanishes(u: int, bits: seq<int>)
    requires Divides(P, u) && Bits(bits) && bits != [] && bits[0] == 1
    ensures Vanishes(Ladder(u, bits))
  {
    var front := bits[..|bits| - 1];
    if front == [] {
      assert Ladder(u, front) == Rungs(1, 0, u, 1);
      FirstVanishes(u);
    } else {
      LadderVanishes(u, front);
      NextVanishes(u, Ladder(u, front), bits[|bits| - 1]);
    }
    hide OneBit, Vanishes;
  }

  // ----- the two functions -----

  ghost predicate SameQuotient(s: Rungs, t: Rungs) {
    t.x2 * Power(t.z2, P - 2) % P == s.x2 * Power(s.z2, P - 2) % P
  }

  lemma OneBitMore(u: nat, bits: seq<int>)
    requires Prime(P) && Bits(bits) && bits != [] && bits[0] == 1
    ensures SameQuotient(Ladder(u, bits), Ladder(u, [0] + bits))
  {
    hide Prime, Divides, Power, Ladder;
    LadderScales(u, bits);
    ExponentPositive(bits);
    var s, m := Ladder(u, bits), Exponents(bits).0;
    var a := Power(4 * u, m);
    PowerNatural(4 * u, m);
    if Divides(P, u) {
      LadderVanishes(u, bits);
      ProductDivides(P, s.x2, Power(s.z2, P - 2));
      ProductDivides(P, s.x2, a);
      ProductDivides(P, a * s.x2, Power(a * s.z2, P - 2));
      BothZero(s.x2 * Power(s.z2, P - 2), a * s.x2 * Power(a * s.z2, P - 2));
    } else {
      FourTimes(u);
      PowerNotDivided(P, 4 * u, m);
      ScaleDrops(s.x2, s.z2, a);
    }
    hide Exponents;
  }

  lemma BothZero(x: int, y: int)
    requires Divides(P, x) && Divides(P, y)
    ensures x % P == y % P
  {
  }

  lemma ClampedBits(secret: seq<byte>)
    requires |secret| == 32
    ensures var bits := TopBits(Clamped(secret))[1..];
      TopBits(Clamped(secret)) == [0] + bits && Bits(bits) && bits != [] && bits[0] == 1
  {
    ClampedBytes(secret);
    SmallPowers();
    hide Clamped, Pow2;
    var e := Clamped(secret);
    var top := TopBits(e);
    assert top[0] == Bit(e, 255) == e[31] / 128 % 2 == 0;
    assert top[1] == Bit(e, 254) == e[31] / 64 % 2 == 1;
    assert top == [top[0]] + top[1..];
  }

  /** The result of the 256 steps is the function of section 5 of RFC 7748, for every secret and every point. */
  lemma AgreesWithRfc(secret: seq<byte>, u: nat)
    requires |secret| == 32 && Prime(P)
    ensures X25519(Clamped(secret), u) == RfcX25519(Clamped(secret), u)
  {
    hide Prime, Power, Ladder, RfcLadder, TopBits, Clamped;
    var k := Clamped(secret);
    var bits := TopBits(k)[1..];
    ClampedBits(secret);
    LadderIsRfc(u, bits);
    LadderIsRfc(u, TopBits(k));
    OneBitMore(u, bits);
  }
}
