/** The Montgomery ladder of curve25519-donna, against the ladder of section 5 of RFC 7748. */
module DonnaLadder {
  import opened Words
  import opened Bitwise
  import opened Recoding
  import opened Limbs
  import opened DonnaField

  // ----- the ladder on integers -----

  /** The two points of the ladder, projective x-coordinates (x2 : z2) and (x3 : z3). */
  datatype Rungs = Rungs(x2: int, z2: int, x3: int, z3: int)

  const A24: int := 121665

  /** One step, as section 5 of RFC 7748 writes it; x1 is the coordinate of the input point. */
  function Step(x1: int, s: Rungs): Rungs {
    var a := s.x2 + s.z2;
    var aa := a * a;
    var b := s.x2 - s.z2;
    var bb := b * b;
    var e := aa - bb;
    var c := s.x3 + s.z3;
    var d := s.x3 - s.z3;
    var da := d * a;
    var cb := c * b;
    Rungs(aa * bb, e * (aa + A24 * e), (da + cb) * (da + cb), x1 * ((da - cb) * (da - cb)))
  }

  lemma SumAndDifferenceSquared(x: int, z: int)
    ensures (x + z) * (x + z) == x * x + 2 * (x * z) + z * z && (x - z) * (x - z) == x * x - 2 * (x * z) + z * z
    ensures (x + z) * (x - z) == x * x - z * z
  {
  }

  lemma SquareOfProduct(a: int, b: int)
    ensures a * a * (b * b) == (a * b) * (a * b)
  {
  }

  lemma CrossTerms(x: int, z: int, x3: int, z3: int)
    ensures (x3 - z3) * (x + z) + (x3 + z3) * (x - z) == 2 * (x * x3 - z * z3)
    ensures (x3 - z3) * (x + z) - (x3 + z3) * (x - z) == 2 * (x3 * z - z3 * x)
  {
  }

  lemma FourSquares(y: int)
    ensures (2 * y) * (2 * y) == 4 * (y * y)
  {
  }

  lemma ScaledBy4(k: int, a: int, b: int)
    ensures k * (4 * (a * b)) == 4 * k * a * b
  {
  }

  /** What a step computes, on coordinates: the x-coordinate of twice a point of the curve
   *  v^2 = u^3 + 486662 u^2 + u, and that of the sum of two points whose difference has coordinate x1. */
  lemma StepOnCurve(x1: int, x: int, z: int, x3: int, z3: int)
    ensures var r := Step(x1, Rungs(x, z, x3, z3));
      && r.x2 == (x * x - z * z) * (x * x - z * z)
      && r.z2 == 4 * (x * z) * (x * x + 486662 * (x * z) + z * z)
      && r.x3 == 4 * ((x * x3 - z * z3) * (x * x3 - z * z3))
      && r.z3 == 4 * x1 * (x3 * z - z3 * x) * (x3 * z - z3 * x)
  {
    SumAndDifferenceSquared(x, z);
    SquareOfProduct(x + z, x - z);
    CrossTerms(x, z, x3, z3);
    FourSquares(x * x3 - z * z3);
    FourSquares(x3 * z - z3 * x);
    ScaledBy4(x1, x3 * z - z3 * x, x3 * z - z3 * x);
    var a, b := x + z, x - z;
    assert a * a - b * b == 4 * (x * z);
    assert a * a + A24 * (4 * (x * z)) == x * x + 486662 * (x * z) + z * z;
  }

  /** One step on numbers. */
  lemma StepExample()
    ensures Step(9, Rungs(2, 1, 9, 1)) == Rungs(9, 7786632, 1156, 1764)
  {
  }

  function Swapped(s: Rungs): Rungs { Rungs(s.x3, s.z3, s.x2, s.z2) }

  /** One bit of the scalar: the step, between two swaps if the bit is set. */
  function OneBit(x1: int, s: Rungs, bit: int): Rungs {
    if bit == 1 then Swapped(Step(x1, Swapped(s))) else Step(x1, s)
  }

  /** The ladder over bits, the most significant first. */
  function Ladder(x1: int, bits: seq<int>): Rungs {
    if bits == [] then Rungs(1, 0, x1, 1)
    else OneBit(x1, Ladder(x1, bits[..|bits| - 1]), bits[|bits| - 1])
  }

  /** Section 5 of RFC 7748 swaps once a step, when a bit differs from the one before: swap is the
   *  bit last seen. */
  datatype Deferred = Deferred(rungs: Rungs, swap: int)

  function RfcLoop(x1: int, bits: seq<int>): Deferred {
    if bits == [] then Deferred(Rungs(1, 0, x1, 1), 0)
    else
      var d := RfcLoop(x1, bits[..|bits| - 1]);
      var bit := bits[|bits| - 1];
      Deferred(Step(x1, if d.swap != bit then Swapped(d.rungs) else d.rungs), bit)
  }

  function RfcLadder(x1: int, bits: seq<int>): Rungs {
    var d := RfcLoop(x1, bits);
    if d.swap == 1 then Swapped(d.rungs) else d.rungs
  }

  /** Swapping before and after every set bit comes to the same as the deferred swaps of RFC 7748. */
  lemma {:induction false} LadderIsRfc(x1: int, bits: seq<int>)
    requires forall i :: 0 <= i < |bits| ==> 0 <= bits[i] <= 1
    ensures RfcLadder(x1, bits) == Ladder(x1, bits)
    ensures bits != [] ==> RfcLoop(x1, bits).swap == bits[|bits| - 1]
    ensures 0 <= RfcLoop(x1, bits).swap <= 1
  {
    if bits != [] {
      LadderIsRfc(x1, bits[..|bits| - 1]);
    }
  }

  /** The bits of a little-endian number, the most significant first. */
  function TopBits(n: seq<byte>): (r: seq<int>)
    ensures |r| == 8 * |n|
    ensures forall i :: 0 <= i < |r| ==> 0 <= r[i] <= 1
  {
    seq(8 * |n|, i requires 0 <= i < 8 * |n| => Bit(n, 8 * |n| - 1 - i))
  }

  // ----- limbs that hold a known value -----

  /** a holds v modulo P, with limbs of at most b. */
  ghost predicate Is(a: array<i64>, b: int, v: int)
    reads a
  {
    Fits(a, b) && Congruent(Held(a), v)
  }

  lemma IsWider(a: array<i64>, v: int)
    requires Is(a, BELOW26, v)
    ensures Is(a, BELOW27, v)
  {
  }

  method Product(t: array<i64>, in2: array<i64>, input: array<i64>, ghost v: int, ghost w: int)
    requires t.Length == 19 && t != in2 && t != input
    requires Is(in2, BELOW27, v) && Is(input, BELOW27, w)
    modifies t
    ensures Is(t, BELOW26, v * w)
  {
    hide Value, Congruent;
    CongruentProduct(Held(in2), v, Held(input), w);
    ghost var p := Held(in2) * Held(input);
    ProductInto(t, in2, input);
    Transitive(Held(t), p, v * w);
  }

  method Square(t: array<i64>, input: array<i64>, ghost v: int)
    requires t.Length >= 10 && Is(input, BELOW27, v)
    modifies t
    ensures Is(t, BELOW26, v * v)
  {
    hide Value, Congruent;
    CongruentProduct(Held(input), v, Held(input), v);
    ghost var p := Held(input) * Held(input);
    FSquare(t, input);
    Transitive(Held(t), p, v * v);
  }

  /** output += input */
  method FSum(output: array<i64>, input: array<i64>, ghost v: int, ghost w: int)
    requires output != input && Is(output, BELOW26, v) && Is(input, BELOW26, w)
    modifies output
    ensures Is(output, BELOW27, v + w)
  {
    hide Value, Congruent;
    ghost var f, g := output[..10], input[..10];
    var i := 0;
    while i < 10
      invariant 0 <= i <= 10 && i % 2 == 0
      invariant forall k :: 0 <= k < i ==> output[k] == f[k] + g[k]
      invariant forall k :: i <= k < 10 ==> output[k] == f[k]
    {
      output[i] := output[i] + input[i];
      output[i + 1] := output[i + 1] + input[i + 1];
      i := i + 2;
    }
    LinearHolds(f, 1, g, output[..10], v, w);
  }

  lemma LinearHolds(f: seq<int>, x: int, g: seq<int>, r: seq<int>, v: int, w: int)
    requires |f| == |g| == |r| == 10
    requires forall k :: 0 <= k < 10 ==> r[k] == f[k] + x * g[k]
    requires Congruent(Value(f), v) && Congruent(Value(g), w)
    ensures Congruent(Value(r), v + x * w)
  {
    PartialLinear(f, x, g, r, 10);
    CongruentLinear(Value(f), v, Value(g), w, x);
  }

  /** output = input - output; note the order. */
  method FDifference(output: array<i64>, input: array<i64>, ghost v: int, ghost w: int)
    requires output != input && Is(output, BELOW26, v) && Is(input, BELOW26, w)
    modifies output
    ensures Is(output, BELOW27, w - v)
  {
    hide Value, Congruent;
    ghost var f, g := output[..10], input[..10];
    var i := 0;
    while i < 10
      invariant 0 <= i <= 10
      invariant forall k :: 0 <= k < i ==> output[k] == g[k] - f[k]
      invariant forall k :: i <= k < 10 ==> output[k] == f[k]
    {
      output[i] := input[i] - output[i];
      i := i + 1;
    }
    LinearHolds(g, -1, f, output[..10], w, v);
  }

  /** output = input * scalar */
  method FScalarProduct(output: array<i64>, input: array<i64>, scalar: int, ghost v: int)
    requires output.Length == 19 && output != input && Is(input, BELOW27, v) && 0 <= scalar < 0x2_0000
    modifies output
    ensures Within(output[..10], COEFFICIENT) && Congruent(Held(output), scalar * v)
  {
    hide Value, Congruent;
    ghost var g := input[..10];
    var i := 0;
    while i < 10
      invariant 0 <= i <= 10
      invariant forall k :: 0 <= k < i ==> output[k] == g[k] * scalar
      invariant Within(output[..i], COEFFICIENT)
    {
      AbsProduct(input[i], scalar, BELOW27, 0x2_0000);
      output[i] := input[i] * scalar;
      i := i + 1;
    }
    var zero := seq(10, k => 0);
    ZeroValue(zero, 10);
    Reflexive(0);
    LinearHolds(zero, scalar, g, output[..10], 0, v);
  }

  lemma {:induction false} ZeroValue(z: seq<int>, m: nat)
    requires m <= |z| && forall k :: 0 <= k < |z| ==> z[k] == 0
    ensures Partial(z, m) == 0
    ensures m == |z| ==> Value(z) == 0
  {
    hide Weight;
    if m > 0 {
      ZeroValue(z, m - 1);
    }
  }

  /** x and z become their sum and their difference. */
  method SumAndDifference(x: array<i64>, z: array<i64>, ghost v: int, ghost w: int)
    requires x != z && Is(x, BELOW26, v) && Is(z, BELOW26, w)
    modifies x, z
    ensures Is(x, BELOW27, v + w) && Is(z, BELOW27, v - w)
  {
    hide Value, Congruent;
    var origx := new i64[10];
    Copy(origx, x);
    FSum(x, z, v, w);
    FDifference(z, origx, w, v);
  }

  method CopyHeld(output: array<i64>, input: array<i64>, ghost b: int, ghost v: int)
    requires output.Length >= 10 && Is(input, b, v)
    modifies output
    ensures Is(output, b, v)
  {
    Copy(output, input);
  }

  // ----- one step on limbs -----

  /** x3 and z3: the sum of the two points. x, z, xprime and zprime hold sums and differences. */
  method AddPoints(x3: array<i64>, z3: array<i64>, x: array<i64>, z: array<i64>,
                   xprime: array<i64>, zprime: array<i64>, qmqp: array<i64>,
                   ghost a: int, ghost b: int, ghost c: int, ghost d: int, ghost x1: int)
    requires x3.Length >= 10 && z3.Length >= 10 && x3 != z3
    requires Is(x, BELOW27, a) && Is(z, BELOW27, b) && Is(xprime, BELOW27, c) && Is(zprime, BELOW27, d)
    requires Is(qmqp, BELOW26, x1)
    modifies x3, z3
    ensures Is(x3, BELOW26, (d * a + c * b) * (d * a + c * b))
    ensures Is(z3, BELOW26, x1 * ((d * a - c * b) * (d * a - c * b)))
  {
    hide Is, Value, Congruent;
    var xxprime, zzprime := new i64[19], new i64[19];
    Product(xxprime, xprime, z, c, b);
    Product(zzprime, x, zprime, a, d);
    var xxxprime, zzzprime := new i64[19], new i64[19];
    SumAndDifference(xxprime, zzprime, c * b, a * d);
    Square(xxxprime, xxprime, c * b + a * d);
    Square(zzzprime, zzprime, c * b - a * d);
    ghost var f := (c * b - a * d) * (c * b - a * d);
    IsWider(zzzprime, f);
    IsWider(qmqp, x1);
    Product(zzprime, zzzprime, qmqp, f, x1);
    AddAlgebra(a, b, c, d, x1);
    CopyHeld(x3, xxxprime, BELOW26, (d * a + c * b) * (d * a + c * b));
    CopyHeld(z3, zzprime, BELOW26, x1 * ((d * a - c * b) * (d * a - c * b)));
  }

  lemma AddAlgebra(a: int, b: int, c: int, d: int, x1: int)
    ensures (c * b + a * d) * (c * b + a * d) == (d * a + c * b) * (d * a + c * b)
    ensures ((c * b - a * d) * (c * b - a * d)) * x1 == x1 * ((d * a - c * b) * (d * a - c * b))
  {
    SquareOfNegative(c * b - a * d);
  }

  lemma SquareOfNegative(x: int)
    ensures x * x == (-x) * (-x)
  {
  }

  /** x2 and z2: twice the point whose sum and difference are in x and z. */
  method DoublePoint(x2: array<i64>, z2: array<i64>, x: array<i64>, z: array<i64>, ghost a: int, ghost b: int)
    requires x2.Length == z2.Length == 19 && x2 != z2
    requires Is(x, BELOW27, a) && Is(z, BELOW27, b)
    modifies x2, z2
    ensures Is(x2, BELOW26, (a * a) * (b * b))
    ensures Is(z2, BELOW26, (a * a - b * b) * (a * a + A24 * (a * a - b * b)))
  {
    hide Is, Value, Congruent;
    ghost var aa, bb := a * a, b * b;
    ghost var e := aa - bb;
    var xx, zz, zzz := new i64[19], new i64[19], new i64[19];
    Square(xx, x, a);
    Square(zz, z, b);
    IsWider(xx, aa);
    IsWider(zz, bb);
    Product(x2, xx, zz, aa, bb);
    FDifference(zz, xx, bb, aa);
    ScaledDifference(zzz, zz, e);
    FSum(zzz, xx, A24 * e, aa);
    Product(z2, zz, zzz, e, aa + A24 * e);
  }

  method ScaledDifference(zzz: array<i64>, zz: array<i64>, ghost e: int)
    requires zzz.Length == 19 && zzz != zz && Is(zz, BELOW27, e)
    modifies zzz
    ensures Is(zzz, BELOW26, A24 * e)
  {
    hide Value, Congruent;
    FScalarProduct(zzz, zz, A24, e);
    FReduceCoefficients(zzz, A24 * e);
  }

  /** One step: 2Q into x2 and z2, Q + Q' into x3 and z3. The four inputs are overwritten. */
  method FMonty(x2: array<i64>, z2: array<i64>, x3: array<i64>, z3: array<i64>,
                x: array<i64>, z: array<i64>, xprime: array<i64>, zprime: array<i64>, qmqp: array<i64>,
                ghost x1: int, ghost s: Rungs)
    requires Distinct(x2, z2, x3, z3, x, z, xprime, zprime)
    requires qmqp != x && qmqp != z && qmqp != xprime && qmqp != zprime
    requires qmqp != x2 && qmqp != z2
    requires HoldRungs(x, z, xprime, zprime, s) && Is(qmqp, BELOW26, x1)
    modifies x2, z2, x3, z3, x, z, xprime, zprime
    ensures HoldRungs(x2, z2, x3, z3, Step(x1, s))
  {
    hide Is, Value, Congruent;
    SumAndDifference(x, z, s.x2, s.z2);
    SumAndDifference(xprime, zprime, s.x3, s.z3);
    AddPoints(x3, z3, x, z, xprime, zprime, qmqp, s.x2 + s.z2, s.x2 - s.z2, s.x3 + s.z3, s.x3 - s.z3, x1);
    DoublePoint(x2, z2, x, z, s.x2 + s.z2, s.x2 - s.z2);
  }

  /** Eight arrays of 19 limbs, no two the same. */
  ghost predicate Distinct(a: array<i64>, b: array<i64>, c: array<i64>, d: array<i64>,
                           e: array<i64>, f: array<i64>, g: array<i64>, h: array<i64>)
  {
    && a.Length == b.Length == c.Length == d.Length == 19
    && e.Length == f.Length == g.Length == h.Length == 19
    && a != b && a != c && a != d && a != e && a != f && a != g && a != h
    && b != c && b != d && b != e && b != f && b != g && b != h
    && c != d && c != e && c != f && c != g && c != h
    && d != e && d != f && d != g && d != h
    && e != f && e != g && e != h && f != g && f != h && g != h
  }

  ghost predicate HoldRungs(x2: array<i64>, z2: array<i64>, x3: array<i64>, z3: array<i64>, s: Rungs)
    reads x2, z2, x3, z3
  {
    Is(x2, BELOW26, s.x2) && Is(z2, BELOW26, s.z2) && Is(x3, BELOW26, s.x3) && Is(z3, BELOW26, s.z3)
  }

  // ----- the whole ladder -----

  /** Swap two field elements if iswap is 1, without a branch. */
  method SwapConditional(a: array<i64>, b: array<i64>, iswap: int, ghost v: int, ghost w: int)
    requires a != b && 0 <= iswap <= 1
    requires Is(a, BELOW26, v) && Is(b, BELOW26, w)
    modifies a, b
    ensures Is(a, BELOW26, if iswap == 1 then w else v)
    ensures Is(b, BELOW26, if iswap == 1 then v else w)
    ensures a[..10] == old(if iswap == 1 then b[..10] else a[..10])
    ensures b[..10] == old(if iswap == 1 then a[..10] else b[..10])
  {
    hide Value, Congruent, And32, Xor32;
    var swap := -iswap;
    var i := 0;
    while i < 10
      invariant 0 <= i <= 10
      invariant forall k :: 0 <= k < i ==> a[k] == old(if iswap == 1 then b[k] else a[k])
      invariant forall k :: 0 <= k < i ==> b[k] == old(if iswap == 1 then a[k] else b[k])
      invariant forall k :: i <= k < 10 ==> a[k] == old(a[k]) && b[k] == old(b[k])
    {
      var x := And32(swap, Xor32(a[i], b[i]));
      Masked(swap, Xor32(a[i], b[i]));
      XorSwaps(a[i], b[i]);
      XorSwaps(b[i], a[i]);
      a[i] := Xor32(a[i], x);
      b[i] := Xor32(b[i], x);
      i := i + 1;
    }
    assert a[..10] == old(if iswap == 1 then b[..10] else a[..10]);
    assert b[..10] == old(if iswap == 1 then a[..10] else b[..10]);
  }

  /** What cmult does for one bit, but for the exchange of the buffers. */
  method OneRound(x2: array<i64>, z2: array<i64>, x3: array<i64>, z3: array<i64>,
                  x: array<i64>, z: array<i64>, xprime: array<i64>, zprime: array<i64>, q: array<i64>,
                  bit: int, ghost x1: int, ghost s: Rungs)
    requires Distinct(x2, z2, x3, z3, x, z, xprime, zprime)
    requires q !in {x2, z2, x3, z3, x, z, xprime, zprime}
    requires HoldRungs(x, z, xprime, zprime, s) && Is(q, BELOW26, x1)
    requires 0 <= bit <= 1
    modifies x2, z2, x3, z3, x, z, xprime, zprime
    ensures HoldRungs(x2, z2, x3, z3, OneBit(x1, s, bit))
  {
    hide Is, Step;
    ghost var before := if bit == 1 then Swapped(s) else s;
    SwapConditional(x, xprime, bit, s.x2, s.x3);
    SwapConditional(z, zprime, bit, s.z2, s.z3);
    FMonty(x2, z2, x3, z3, x, z, xprime, zprime, q, x1, before);
    ghost var after := Step(x1, before);
    SwapConditional(x2, x3, bit, after.x2, after.x3);
    SwapConditional(z2, z3, bit, after.z2, after.z3);
  }

  /** Shifting a byte up j places brings bit 7 - j to the top. */
  lemma TopBit(b: byte, j: nat)
    requires j < 8
    ensures b * Pow2(j) % 256 / 128 == b / Pow2(7 - j) % 2
    ensures b * Pow2(j + 1) % 256 == b * Pow2(j) % 256 * 2 % 256
  {
    SmallPowers();
    assert Pow2(j + 1) == 2 * Pow2(j);
    hide Pow2;
    HighBits(b);
    DoubledByte(b * Pow2(j));
    assert b * (2 * Pow2(j)) == 2 * (b * Pow2(j));
  }

  lemma DoubledByte(y: nat)
    ensures 2 * y % 256 == y % 256 * 2 % 256
  {
    FloorBelow(y, 256);
    AddMultiple(y % 256 * 2, 2 * (y / 256), 256);
  }

  lemma HighBits(b: byte)
    ensures b * 1 % 256 / 128 == b / 128 % 2 && b * 2 % 256 / 128 == b / 64 % 2
    ensures b * 4 % 256 / 128 == b / 32 % 2 && b * 8 % 256 / 128 == b / 16 % 2
    ensures b * 16 % 256 / 128 == b / 8 % 2 && b * 32 % 256 / 128 == b / 4 % 2
    ensures b * 64 % 256 / 128 == b / 2 % 2 && b * 128 % 256 / 128 == b / 1 % 2
  {
    HighPart(b / 128, 1 * (b % 128));
    HighPart(b / 64, 2 * (b % 64));
    HighPart(b / 32, 4 * (b % 32));
    HighPart(b / 16, 8 * (b % 16));
    HighPart(b / 8, 16 * (b % 8));
    HighPart(b / 4, 32 * (b % 4));
    HighPart(b / 2, 64 * (b % 2));
    HighPart(b / 1, 128 * (b % 1));
  }

  lemma HighPart(q: nat, r: nat)
    requires r < 128
    ensures (q * 128 + r) % 256 / 128 == q % 2
  {
  }

  method Fresh(first: int) returns (a: array<i64>)
    requires 0 <= first <= 1
    ensures fresh(a) && a.Length == 19 && Is(a, BELOW26, first)
  {
    hide Congruent;
    a := new i64[19](i => if i == 0 then first else 0);
    ghost var zero := seq(10, k => 0);
    assert a[..10] == zero[0 := first];
    ZeroValue(zero, 10);
    PartialUpdate(zero, 10, 0, first);
    assert Pow2(Position(0)) == 1;
    Reflexive(first);
  }

  /** The eight bits of one byte. The buffers are exchanged after every bit, eight times in all, so
   *  the result is back in x, z, xprime and zprime. */
  method OneByte(x2: array<i64>, z2: array<i64>, x3: array<i64>, z3: array<i64>,
                 x: array<i64>, z: array<i64>, xprime: array<i64>, zprime: array<i64>, q: array<i64>,
                 n: seq<byte>, i: nat, ghost x1: int)
    requires Distinct(x2, z2, x3, z3, x, z, xprime, zprime)
    requires q !in {x2, z2, x3, z3, x, z, xprime, zprime}
    requires |n| == 32 && i < 32 && Is(q, BELOW26, x1)
    requires HoldRungs(x, z, xprime, zprime, Ladder(x1, TopBits(n)[..8 * i]))
    modifies x2, z2, x3, z3, x, z, xprime, zprime
    ensures HoldRungs(x, z, xprime, zprime, Ladder(x1, TopBits(n)[..8 * i + 8]))
  {
    hide Is, OneBit, HoldRungs, Pow2, Bit, TopBits, Ladder;
    var nqx, nqz, nqpqx, nqpqz := x, z, xprime, zprime;
    var nqx2, nqz2, nqpqx2, nqpqz2 := x2, z2, x3, z3;
    var b: int := n[31 - i];
    PowZero();
    var j := 0;
    while j < 8
      invariant 0 <= j <= 8 && b == n[31 - i] * Pow2(j) % 256
      invariant j % 2 == 0 ==>
                [nqx, nqz, nqpqx, nqpqz, nqx2, nqz2, nqpqx2, nqpqz2] == [x, z, xprime, zprime, x2, z2, x3, z3]
      invariant j % 2 == 1 ==>
                [nqx, nqz, nqpqx, nqpqz, nqx2, nqz2, nqpqx2, nqpqz2] == [x2, z2, x3, z3, x, z, xprime, zprime]
      invariant HoldRungs(nqx, nqz, nqpqx, nqpqz, Ladder(x1, TopBits(n)[..8 * i + j]))
      invariant Is(q, BELOW26, x1)
    {
      var bit := b / 128;
      ghost var s := Ladder(x1, TopBits(n)[..8 * i + j]);
      NextBit(x1, n, i, j, b);
      OneRound(nqx2, nqz2, nqpqx2, nqpqz2, nqx, nqz, nqpqx, nqpqz, q, bit, x1, s);
      nqx, nqx2 := nqx2, nqx;
      nqz, nqz2 := nqz2, nqz;
      nqpqx, nqpqx2 := nqpqx2, nqpqx;
      nqpqz, nqpqz2 := nqpqz2, nqpqz;
      b := b * 2 % 256;
      j := j + 1;
    }
  }

  lemma PowZero()
    ensures Pow2(0) == 1
  {
  }

  lemma NextBit(x1: int, n: seq<byte>, i: nat, j: nat, b: int)
    requires |n| == 32 && i < 32 && j < 8 && b == n[31 - i] * Pow2(j) % 256
    ensures 0 <= b / 128 <= 1 && b * 2 % 256 == n[31 - i] * Pow2(j + 1) % 256
    ensures Ladder(x1, TopBits(n)[..8 * i + j + 1]) == OneBit(x1, Ladder(x1, TopBits(n)[..8 * i + j]), b / 128)
  {
    TopBit(n[31 - i], j);
    hide OneBit, Pow2;
    var bits := TopBits(n);
    var t := 8 * i + j;
    assert (255 - t) / 8 == 31 - i && (255 - t) % 8 == 7 - j;
    assert bits[t] == Bit(n, 8 * 32 - 1 - t) == b / 128;
    assert bits[..t + 1][..t] == bits[..t] && bits[..t + 1][t] == bits[t];
  }

  /** The x-coordinate of n times the point with coordinate q, as a fraction. */
  method CMult(resultx: array<i64>, resultz: array<i64>, n: seq<byte>, q: array<i64>)
    requires |n| == 32 && Fits(q, BELOW26)
    requires resultx.Length >= 10 && resultz.Length >= 10 && resultx != resultz
    modifies resultx, resultz
    ensures Is(resultx, BELOW26, Ladder(old(Held(q)), TopBits(n)).x2)
    ensures Is(resultz, BELOW26, Ladder(old(Held(q)), TopBits(n)).z2)
  {
    hide Is, Ladder, TopBits;
    var nqpqx, nqpqz, nqx, nqz := Start(q);
    var nqpqx2 := Fresh(0);
    var nqpqz2 := Fresh(1);
    var nqx2 := Fresh(0);
    var nqz2 := Fresh(1);
    ghost var x1 := Held(q);
    HoldsItself(q);
    var i := 0;
    while i < 32
      invariant 0 <= i <= 32
      invariant HoldRungs(nqx, nqz, nqpqx, nqpqz, Ladder(x1, TopBits(n)[..8 * i]))
      invariant Is(q, BELOW26, x1)
    {
      OneByte(nqx2, nqz2, nqpqx2, nqpqz2, nqx, nqz, nqpqx, nqpqz, q, n, i, x1);
      i := i + 1;
    }
    assert TopBits(n)[..256] == TopBits(n);
    CopyHeld(resultx, nqx, BELOW26, Ladder(x1, TopBits(n)).x2);
    CopyHeld(resultz, nqz, BELOW26, Ladder(x1, TopBits(n)).z2);
  }

  method Start(q: array<i64>) returns (nqpqx: array<i64>, nqpqz: array<i64>, nqx: array<i64>, nqz: array<i64>)
    requires Fits(q, BELOW26)
    ensures fresh(nqpqx) && fresh(nqpqz) && fresh(nqx) && fresh(nqz)
    ensures nqpqx.Length == nqpqz.Length == nqx.Length == nqz.Length == 19
    ensures nqpqx != nqpqz && nqpqx != nqx && nqpqx != nqz && nqpqz != nqx && nqpqz != nqz && nqx != nqz
    ensures HoldRungs(nqx, nqz, nqpqx, nqpqz, Ladder(Held(q), []))
  {
    hide Is;
    nqpqx := Fresh(0);
    nqpqz := Fresh(1);
    nqx := Fresh(1);
    nqz := Fresh(0);
    HoldsItself(q);
    CopyHeld(nqpqx, q, BELOW26, Held(q));
  }

  lemma HoldsItself(q: array<i64>)
    requires Fits(q, BELOW26)
    ensures Is(q, BELOW26, Held(q))
  {
    Reflexive(Held(q));
  }
}
