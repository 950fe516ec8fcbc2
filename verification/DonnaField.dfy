/** Field arithmetic on ten signed 64-bit limbs (lib/curve25519-donna/curve25519-donna.c). Arrays may
 *  be longer than the ten limbs that hold a field element. */
module DonnaField {
  import opened Words
  import opened Bitwise
  import opened Limbs
  import opened FieldMul

  /** The limb bounds the comments of the source name: 2^26 and 2^27, excluded. */
  const BELOW26: int := 0x3FF_FFFF
  const BELOW27: int := 0x7FF_FFFF

  /** 14 * 2^54 and 280 * 2^54, excluded. */
  const DEGREE: int := 0x380_0000_0000_0000 - 1
  const COEFFICIENT: int := 0x4600_0000_0000_0000 - 1

  /** The field element in a. */
  ghost function Held(a: array<i64>): int
    requires a.Length >= 10
    reads a
  {
    Value(a[..10])
  }

  ghost predicate Fits(a: array<i64>, b: int)
    reads a
  {
    a.Length >= 10 && Within(a[..10], b)
  }

  // ----- columns -----

  function Product0(f: seq<int>, g: seq<int>): (c: int)
    requires |f| == |g| == 10
    ensures c == Product(f, g)[0]
  {
    TenTerms(f, g, 0);
    f[0] * g[0]
  }

  function Product1(f: seq<int>, g: seq<int>): (c: int)
    requires |f| == |g| == 10
    ensures c == Product(f, g)[1]
  {
    TenTerms(f, g, 1);
    f[0] * g[1] + f[1] * g[0]
  }

  function Product2(f: seq<int>, g: seq<int>): (c: int)
    requires |f| == |g| == 10
    ensures c == Product(f, g)[2]
  {
    TenTerms(f, g, 2);
    2 * f[1] * g[1] + f[0] * g[2] + f[2] * g[0]
  }

  function Product3(f: seq<int>, g: seq<int>): (c: int)
    requires |f| == |g| == 10
    ensures c == Product(f, g)[3]
  {
    TenTerms(f, g, 3);
    f[1] * g[2] + f[2] * g[1] + f[0] * g[3] + f[3] * g[0]
  }

  function Product4(f: seq<int>, g: seq<int>): (c: int)
    requires |f| == |g| == 10
    ensures c == Product(f, g)[4]
  {
    TenTerms(f, g, 4);
    f[2] * g[2] + 2 * (f[1] * g[3] + f[3] * g[1]) + f[0] * g[4] + f[4] * g[0]
  }

  function Product5(f: seq<int>, g: seq<int>): (c: int)
    requires |f| == |g| == 10
    ensures c == Product(f, g)[5]
  {
    TenTerms(f, g, 5);
    f[2] * g[3] + f[3] * g[2] + f[1] * g[4] + f[4] * g[1] + f[0] * g[5] + f[5] * g[0]
  }

  function Product6(f: seq<int>, g: seq<int>): (c: int)
    requires |f| == |g| == 10
    ensures c == Product(f, g)[6]
  {
    TenTerms(f, g, 6);
    2 * (f[3] * g[3] + f[1] * g[5] + f[5] * g[1]) + f[2] * g[4] + f[4] * g[2] + f[0] * g[6]
    + f[6] * g[0]
  }

  function Product7(f: seq<int>, g: seq<int>): (c: int)
    requires |f| == |g| == 10
    ensures c == Product(f, g)[7]
  {
    TenTerms(f, g, 7);
    f[3] * g[4] + f[4] * g[3] + f[2] * g[5] + f[5] * g[2] + f[1] * g[6] + f[6] * g[1] + f[0] * g[7]
    + f[7] * g[0]
  }

  function Product8(f: seq<int>, g: seq<int>): (c: int)
    requires |f| == |g| == 10
    ensures c == Product(f, g)[8]
  {
    TenTerms(f, g, 8);
    f[4] * g[4] + 2 * (f[3] * g[5] + f[5] * g[3] + f[1] * g[7] + f[7] * g[1]) + f[2] * g[6]
    + f[6] * g[2] + f[0] * g[8] + f[8] * g[0]
  }

  function Product9(f: seq<int>, g: seq<int>): (c: int)
    requires |f| == |g| == 10
    ensures c == Product(f, g)[9]
  {
    TenTerms(f, g, 9);
    f[4] * g[5] + f[5] * g[4] + f[3] * g[6] + f[6] * g[3] + f[2] * g[7] + f[7] * g[2] + f[1] * g[8]
    + f[8] * g[1] + f[0] * g[9] + f[9] * g[0]
  }

  function Product10(f: seq<int>, g: seq<int>): (c: int)
    requires |f| == |g| == 10
    ensures c == Product(f, g)[10]
  {
    TenTerms(f, g, 10);
    2 * (f[5] * g[5] + f[3] * g[7] + f[7] * g[3] + f[1] * g[9] + f[9] * g[1]) + f[4] * g[6]
    + f[6] * g[4] + f[2] * g[8] + f[8] * g[2]
  }

  function Product11(f: seq<int>, g: seq<int>): (c: int)
    requires |f| == |g| == 10
    ensures c == Product(f, g)[11]
  {
    TenTerms(f, g, 11);
    f[5] * g[6] + f[6] * g[5] + f[4] * g[7] + f[7] * g[4] + f[3] * g[8] + f[8] * g[3] + f[2] * g[9]
    + f[9] * g[2]
  }

  function Product12(f: seq<int>, g: seq<int>): (c: int)
    requires |f| == |g| == 10
    ensures c == Product(f, g)[12]
  {
    TenTerms(f, g, 12);
    f[6] * g[6] + 2 * (f[5] * g[7] + f[7] * g[5] + f[3] * g[9] + f[9] * g[3]) + f[4] * g[8]
    + f[8] * g[4]
  }

  function Product13(f: seq<int>, g: seq<int>): (c: int)
    requires |f| == |g| == 10
    ensures c == Product(f, g)[13]
  {
    TenTerms(f, g, 13);
    f[6] * g[7] + f[7] * g[6] + f[5] * g[8] + f[8] * g[5] + f[4] * g[9] + f[9] * g[4]
  }

  function Product14(f: seq<int>, g: seq<int>): (c: int)
    requires |f| == |g| == 10
    ensures c == Product(f, g)[14]
  {
    TenTerms(f, g, 14);
    2 * (f[7] * g[7] + f[5] * g[9] + f[9] * g[5]) + f[6] * g[8] + f[8] * g[6]
  }

  function Product15(f: seq<int>, g: seq<int>): (c: int)
    requires |f| == |g| == 10
    ensures c == Product(f, g)[15]
  {
    TenTerms(f, g, 15);
    f[7] * g[8] + f[8] * g[7] + f[6] * g[9] + f[9] * g[6]
  }

  function Product16(f: seq<int>, g: seq<int>): (c: int)
    requires |f| == |g| == 10
    ensures c == Product(f, g)[16]
  {
    TenTerms(f, g, 16);
    f[8] * g[8] + 2 * (f[7] * g[9] + f[9] * g[7])
  }

  function Product17(f: seq<int>, g: seq<int>): (c: int)
    requires |f| == |g| == 10
    ensures c == Product(f, g)[17]
  {
    TenTerms(f, g, 17);
    f[8] * g[9] + f[9] * g[8]
  }

  function Product18(f: seq<int>, g: seq<int>): (c: int)
    requires |f| == |g| == 10
    ensures c == Product(f, g)[18]
  {
    TenTerms(f, g, 18);
    2 * f[9] * g[9]
  }

  function Square0(f: seq<int>): (c: int)
    requires |f| == 10
    ensures c == Product(f, f)[0]
  {
    TenTerms(f, f, 0);
    f[0] * f[0]
  }

  function Square1(f: seq<int>): (c: int)
    requires |f| == 10
    ensures c == Product(f, f)[1]
  {
    TenTerms(f, f, 1);
    2 * f[0] * f[1]
  }

  function Square2(f: seq<int>): (c: int)
    requires |f| == 10
    ensures c == Product(f, f)[2]
  {
    TenTerms(f, f, 2);
    2 * (f[1] * f[1] + f[0] * f[2])
  }

  function Square3(f: seq<int>): (c: int)
    requires |f| == 10
    ensures c == Product(f, f)[3]
  {
    TenTerms(f, f, 3);
    2 * (f[1] * f[2] + f[0] * f[3])
  }

  function Square4(f: seq<int>): (c: int)
    requires |f| == 10
    ensures c == Product(f, f)[4]
  {
    TenTerms(f, f, 4);
    f[2] * f[2] + 4 * f[1] * f[3] + 2 * f[0] * f[4]
  }

  function Square5(f: seq<int>): (c: int)
    requires |f| == 10
    ensures c == Product(f, f)[5]
  {
    TenTerms(f, f, 5);
    2 * (f[2] * f[3] + f[1] * f[4] + f[0] * f[5])
  }

  function Square6(f: seq<int>): (c: int)
    requires |f| == 10
    ensures c == Product(f, f)[6]
  {
    TenTerms(f, f, 6);
    2 * (f[3] * f[3] + f[2] * f[4] + f[0] * f[6] + 2 * f[1] * f[5])
  }

  function Square7(f: seq<int>): (c: int)
    requires |f| == 10
    ensures c == Product(f, f)[7]
  {
    TenTerms(f, f, 7);
    2 * (f[3] * f[4] + f[2] * f[5] + f[1] * f[6] + f[0] * f[7])
  }

  function Square8(f: seq<int>): (c: int)
    requires |f| == 10
    ensures c == Product(f, f)[8]
  {
    TenTerms(f, f, 8);
    f[4] * f[4] + 2 * (f[2] * f[6] + f[0] * f[8] + 2 * (f[1] * f[7] + f[3] * f[5]))
  }

  function Square9(f: seq<int>): (c: int)
    requires |f| == 10
    ensures c == Product(f, f)[9]
  {
    TenTerms(f, f, 9);
    2 * (f[4] * f[5] + f[3] * f[6] + f[2] * f[7] + f[1] * f[8] + f[0] * f[9])
  }

  function Square10(f: seq<int>): (c: int)
    requires |f| == 10
    ensures c == Product(f, f)[10]
  {
    TenTerms(f, f, 10);
    2 * (f[5] * f[5] + f[4] * f[6] + f[2] * f[8] + 2 * (f[3] * f[7] + f[1] * f[9]))
  }

  function Square11(f: seq<int>): (c: int)
    requires |f| == 10
    ensures c == Product(f, f)[11]
  {
    TenTerms(f, f, 11);
    2 * (f[5] * f[6] + f[4] * f[7] + f[3] * f[8] + f[2] * f[9])
  }

  function Square12(f: seq<int>): (c: int)
    requires |f| == 10
    ensures c == Product(f, f)[12]
  {
    TenTerms(f, f, 12);
    f[6] * f[6] + 2 * (f[4] * f[8] + 2 * (f[5] * f[7] + f[3] * f[9]))
  }

  function Square13(f: seq<int>): (c: int)
    requires |f| == 10
    ensures c == Product(f, f)[13]
  {
    TenTerms(f, f, 13);
    2 * (f[6] * f[7] + f[5] * f[8] + f[4] * f[9])
  }

  function Square14(f: seq<int>): (c: int)
    requires |f| == 10
    ensures c == Product(f, f)[14]
  {
    TenTerms(f, f, 14);
    2 * (f[7] * f[7] + f[6] * f[8] + 2 * f[5] * f[9])
  }

  function Square15(f: seq<int>): (c: int)
    requires |f| == 10
    ensures c == Product(f, f)[15]
  {
    TenTerms(f, f, 15);
    2 * (f[7] * f[8] + f[6] * f[9])
  }

  function Square16(f: seq<int>): (c: int)
    requires |f| == 10
    ensures c == Product(f, f)[16]
  {
    TenTerms(f, f, 16);
    f[8] * f[8] + 4 * f[7] * f[9]
  }

  function Square17(f: seq<int>): (c: int)
    requires |f| == 10
    ensures c == Product(f, f)[17]
  {
    TenTerms(f, f, 17);
    2 * f[8] * f[9]
  }

  function Square18(f: seq<int>): (c: int)
    requires |f| == 10
    ensures c == Product(f, f)[18]
  {
    TenTerms(f, f, 18);
    2 * f[9] * f[9]
  }

  function ProductColumns(f: seq<int>, g: seq<int>): (r: seq<int>)
    requires |f| == |g| == 10
    ensures r == Product(f, g)
  {
    [Product0(f, g), Product1(f, g), Product2(f, g), Product3(f, g), Product4(f, g), Product5(f, g), Product6(f, g),
     Product7(f, g), Product8(f, g), Product9(f, g), Product10(f, g), Product11(f, g), Product12(f, g),
     Product13(f, g), Product14(f, g), Product15(f, g), Product16(f, g), Product17(f, g), Product18(f, g)]
  }

  function SquareColumns(f: seq<int>): (r: seq<int>)
    requires |f| == 10
    ensures r == Product(f, f)
  {
    [Square0(f), Square1(f), Square2(f), Square3(f), Square4(f), Square5(f), Square6(f), Square7(f), Square8(f),
     Square9(f), Square10(f), Square11(f), Square12(f), Square13(f), Square14(f),
      Square15(f), Square16(f), Square17(f), Square18(f)]
  }

  /** No column reaches 14 * 2^54, nor does any partial sum of its terms. */
  lemma ColumnsFit(f: seq<int>, g: seq<int>, k: nat)
    requires |f| == |g| == 10 && k < 19
    requires Within(f, BELOW27) && Within(g, BELOW27)
    ensures Abs(Product(f, g)[k]) <= Magnitude(f, g, k, 10) <= DEGREE
  {
    MagnitudeBound(f, g, k, 10, BELOW27, BELOW27);
    TermsAtMost14(k);
    hide Magnitude, Coefficient;
  }

  /** The output must not be one of the inputs. */
  method FProduct(output: array<i64>, in2: array<i64>, input: array<i64>)
    requires output.Length == 19 && output != in2 && output != input
    requires Fits(in2, BELOW27) && Fits(input, BELOW27)
    modifies output
    ensures output[..] == Product(in2[..10], input[..10])
    ensures Within(output[..], DEGREE)
  {
    hide Product;
    var f, g := in2[..10], input[..10];
    var c := ProductColumns(f, g);
    forall k | 0 <= k < 19
      ensures -DEGREE <= c[k] <= DEGREE
    {
      ColumnsFit(f, g, k);
    }
    StoreAll(output, c);
  }

  method FSquareInner(output: array<i64>, input: array<i64>)
    requires output.Length == 19 && output != input
    requires Fits(input, BELOW27)
    modifies output
    ensures output[..] == Product(input[..10], input[..10])
    ensures Within(output[..], DEGREE)
  {
    hide Product;
    var f := input[..10];
    var c := SquareColumns(f);
    forall k | 0 <= k < 19
      ensures -DEGREE <= c[k] <= DEGREE
    {
      ColumnsFit(f, f, k);
    }
    StoreAll(output, c);
  }

  method StoreAll(output: array<i64>, c: seq<int>)
    requires output.Length == |c| && Within(c, DEGREE)
    modifies output
    ensures output[..] == c
  {
    forall k | 0 <= k < |c| {
      output[k] := c[k];
    }
  }

  // ----- degree -----

  /** Limbs k and up have been folded, the others are still those of s. */
  ghost predicate FoldedFrom(t: seq<int>, s: seq<int>, k: nat) {
    && |t| == |s| == 19 && k <= 9
    && (forall i :: 0 <= i < 19 && !(k <= i < 9) ==> t[i] == s[i])
    && (forall i :: k <= i < 9 ==> t[i] == s[i] + 19 * s[i + 10])
  }

  /** Nineteen times limb k + 10 is added to limb k, by shifts. */
  method AddNineteen(output: array<i64>, k: nat, ghost s: seq<int>)
    requires output.Length == 19 && k < 9
    requires |s| == 19 && Within(s, DEGREE) && FoldedFrom(output[..], s, k + 1)
    modifies output
    ensures FoldedFrom(output[..], s, k)
  {
    output[k] := output[k] + output[k + 10] * 16;
    output[k] := output[k] + output[k + 10] * 2;
    output[k] := output[k] + output[k + 10];
  }

  method FReduceDegree(output: array<i64>)
    requires output.Length == 19 && Within(output[..], DEGREE)
    modifies output
    ensures output[..10] == Folded(old(output[..]))
    ensures Within(output[..10], COEFFICIENT)
  {
    ghost var s := output[..];
    FoldDegree(output, s);
    assert output[..10] == Folded(s);
  }

  method FoldDegree(output: array<i64>, ghost s: seq<int>)
    requires output.Length == 19 && output[..] == s && Within(s, DEGREE)
    modifies output
    ensures FoldedFrom(output[..], s, 0)
  {
    assert FoldedFrom(output[..], s, 9);
    hide FoldedFrom;
    AddNineteen(output, 8, s);
    AddNineteen(output, 7, s);
    AddNineteen(output, 6, s);
    AddNineteen(output, 5, s);
    AddNineteen(output, 4, s);
    AddNineteen(output, 3, s);
    AddNineteen(output, 2, s);
    AddNineteen(output, 1, s);
    AddNineteen(output, 0, s);
  }

  // ----- coefficients -----

  /** The bit pattern of a signed number. */
  function Unsigned64(v: i64): (u: int)
    ensures 0 <= u < 0x1_0000_0000_0000_0000
  {
    if v < 0 then v + 0x1_0000_0000_0000_0000 else v
  }

  /** Division that truncates, as / does in C. */
  function Truncated(v: int, d: int): int
    requires d > 0
  {
    if v >= 0 then v / d else -(-v / d)
  }

  /** What a negative number is rounded up by: all ones below bit 32 - shift. */
  function Roundoff(v: i64, ones: int): (r: int)
    requires 0 < ones && 0x1_0000_0000 / ones > 0
    ensures r == if v < 0 then 0xFFFF_FFFF / ones else 0
  {
    var highword := Unsigned64(v) / TWO32;
    SignOfHighWord(v);
    var sign := Signed32(highword) / TWO31;
    Unsigned32(sign) / ones
  }

  lemma SignOfHighWord(v: i64)
    ensures 0 <= Unsigned64(v) / TWO32 < TWO32
    ensures Signed32(Unsigned64(v) / TWO32) / TWO31 == if v < 0 then -1 else 0
  {
  }

  /** Right shifts with a rounding term instead of a branch. */
  function DivBy26(v: i64): (r: int)
    ensures r == Truncated(v, 0x400_0000)
  {
    DivideNegative26(v);
    (v + Roundoff(v, 64)) / 0x400_0000
  }

  function DivBy25(v: i64): (r: int)
    ensures r == Truncated(v, 0x200_0000)
  {
    DivideNegative25(v);
    (v + Roundoff(v, 128)) / 0x200_0000
  }

  lemma DivideNegative26(v: int)
    ensures v < 0 ==> (v + 0x3FF_FFFF) / 0x400_0000 == -(-v / 0x400_0000)
  {
  }

  lemma DivideNegative25(v: int)
    ensures v < 0 ==> (v + 0x1FF_FFFF) / 0x200_0000 == -(-v / 0x200_0000)
  {
  }

  lemma TruncatedSplits(v: int, d: int)
    requires d > 0
    ensures Abs(v - Truncated(v, d) * d) < d
    ensures Abs(Truncated(v, d)) * d <= Abs(v)
  {
    TruncatedNatural(Abs(v), d);
    if v < 0 {
      assert Truncated(v, d) * d == -((-v / d) * d);
    }
  }

  lemma TruncatedNatural(v: nat, d: int)
    requires d > 0
    ensures 0 <= v - (v / d) * d < d && v / d >= 0
  {
    assert v == (v / d) * d + v % d;
  }

  /** Limb i keeps its remainder, the next limb takes the quotient. */
  function Moved(t: seq<int>, i: nat): (r: seq<int>)
    requires |t| == 11 && i < 10
    ensures |r| == 11
  {
    var over := Truncated(t[i], Radix(i));
    t[i := t[i] - over * Radix(i)][i + 1 := t[i + 1] + over]
  }

  lemma MovedValue(t: seq<int>, i: nat)
    requires |t| == 11 && i < 10
    ensures Value(Moved(t, i)) == Value(t)
  {
    var over := Truncated(t[i], Radix(i));
    var s := t[i := t[i] - over * Radix(i)];
    PartialUpdate(t, 11, i, s[i]);
    PartialUpdate(s, 11, i + 1, t[i + 1] + over);
    NextWeight(i);
    hide *;
    CarryCancels(Weight(i), Radix(i), over);
  }

  lemma NextWeight(i: nat)
    requires i < 10
    ensures Weight(i + 1) == Radix(i) * Weight(i)
  {
    if i < 9 {
      WeightStep(i);
    } else {
      LastWeight();
      WeightTen(0);
      hide Weight;
    }
  }

  lemma MovedSizes(t: seq<int>, i: nat, m: nat)
    requires |t| == 11 && i < 10 && Abs(t[i]) <= m * Radix(i)
    ensures Abs(Moved(t, i)[i]) < Radix(i)
    ensures Abs(Moved(t, i)[i + 1]) <= Abs(t[i + 1]) + m
    ensures forall k :: 0 <= k < 11 && k != i && k != i + 1 ==> Moved(t, i)[k] == t[k]
  {
    var r, over := Radix(i), Truncated(t[i], Radix(i));
    TruncatedSplits(t[i], r);
    hide Truncated, Radix;
    SmallerFactor(Abs(over), m, r);
  }

  lemma SmallerFactor(a: nat, m: nat, r: int)
    requires r > 0 && a * r <= m * r
    ensures a <= m
  {
    assert a >= m + 1 ==> (a - m - 1) * r >= 0;
    assert (a - m - 1) * r == a * r - m * r - r;
  }

  /** Limbs wide enough for one step of freduce_coefficients. */
  const ROOM: int := 0x5000_0000_0000_0000

  method MoveOver(t: array<i64>, i: nat, ghost m: nat, ghost v: int)
    requires t.Length >= 11 && i < 10
    requires Abs(t[i]) <= ROOM && Abs(t[i + 1]) <= ROOM && Abs(t[i]) <= m * Radix(i)
    requires Congruent(Value(t[..11]), v)
    modifies t
    ensures t[..11] == Moved(old(t[..11]), i)
    ensures Abs(t[i]) < Radix(i) && Abs(t[i + 1]) <= old(Abs(t[i + 1])) + m
    ensures forall k :: 0 <= k < 11 && k != i && k != i + 1 ==> t[k] == old(t[k])
    ensures Congruent(Value(t[..11]), v)
  {
    hide Value, Congruent;
    MovedValue(t[..11], i);
    MovedSizes(t[..11], i, m);
    TruncatedSplits(t[i], Radix(i));
    var over := if i % 2 == 0 then DivBy26(t[i]) else DivBy25(t[i]);
    assert over == Truncated(t[i], Radix(i));
    OverFits(t[i], over, i);
    var s := t[..11];
    var back := over * Radix(i);
    t[i] := t[i] - back;
    t[i + 1] := t[i + 1] + over;
    assert t[..11] == Moved(s, i);
    hide Truncated, Radix;
  }

  lemma OverFits(x: int, over: int, i: nat)
    requires Abs(x) <= ROOM && over == Truncated(x, Radix(i))
    ensures Abs(over) <= 0x30_0000_0000 && Abs(x - over * Radix(i)) <= 0x400_0000
  {
    TruncatedSplits(x, Radix(i));
    hide Truncated;
  }

  /** The sizes at the head of round i: the limbs below i are reduced, limb i may hold a carry. */
  ghost predicate Sizes(t: seq<int>, i: nat) {
    && |t| == 11 && i <= 10
    && (forall k :: 0 <= k < i ==> Abs(t[k]) < Radix(k))
    && Abs(t[i]) <= (if i < 10 then COEFFICIENT + 0x23_2000_0000 else 0x23_2000_0000)
    && (forall k :: i < k < 10 ==> Abs(t[k]) <= COEFFICIENT)
    && (i < 10 ==> t[10] == 0)
  }

  method NextOver(t: array<i64>, i: nat, ghost v: int)
    requires t.Length >= 11 && i < 10 && Sizes(t[..11], i)
    requires Congruent(Value(t[..11]), v)
    modifies t
    ensures Sizes(t[..11], i + 1)
    ensures Congruent(Value(t[..11]), v)
  {
    hide Value, Congruent, Moved, Radix;
    QuotientSize(t[i], i);
    MoveOver(t, i, if i % 2 == 0 then 0x11_9000_0000 else 0x23_2000_0000, v);
  }

  lemma QuotientSize(x: int, i: nat)
    requires Abs(x) <= COEFFICIENT + 0x23_2000_0000
    ensures Abs(x) <= (if i % 2 == 0 then 0x11_9000_0000 else 0x23_2000_0000) * Radix(i)
  {
  }

  /** Reduce every limb below 2^26. */
  method FReduceCoefficients(output: array<i64>, ghost v: int)
    requires output.Length >= 11
    requires Within(output[..10], COEFFICIENT)
    requires Congruent(Value(output[..10]), v)
    modifies output
    ensures Within(output[..10], BELOW26)
    ensures Congruent(Value(output[..10]), v)
  {
    hide Value, Congruent, Radix, Sizes;
    ClearTop(output, v);
    var i := 0;
    while i < 10
      invariant 0 <= i <= 10 && i % 2 == 0
      invariant Sizes(output[..11], i)
      invariant Congruent(Value(output[..11]), v)
    {
      NextOver(output, i, v);
      NextOver(output, i + 1, v);
      i := i + 2;
    }
    WrapTop(output, v);
    LastOver(output, v);
  }

  method ClearTop(output: array<i64>, ghost v: int)
    requires output.Length >= 11
    requires Within(output[..10], COEFFICIENT)
    requires Congruent(Value(output[..10]), v)
    modifies output
    ensures Sizes(output[..11], 0)
    ensures Congruent(Value(output[..11]), v)
  {
    hide Value, Congruent;
    TopLimb(output[..10]);
    output[10] := 0;
    assert output[..11] == old(output[..10]) + [0];
  }

  method LastOver(output: array<i64>, ghost v: int)
    requires output.Length >= 11
    requires forall k :: 1 <= k < 10 ==> Abs(output[k]) < Radix(k)
    requires Abs(output[0]) <= 0x1_0000 * Radix(0) && output[10] == 0
    requires Congruent(Value(output[..11]), v)
    modifies output
    ensures Within(output[..10], BELOW26)
    ensures Congruent(Value(output[..10]), v)
  {
    hide Value, Congruent, Moved;
    MoveOver(output, 0, 0x1_0000, v);
    TopLimb(output[..10]);
    assert output[..11] == output[..10] + [0];
    LimbsBelow26(output[..10]);
  }

  lemma TopLimb(t: seq<int>)
    requires |t| == 10
    ensures Value(t + [0]) == Value(t)
  {
    PartialSame(t + [0], t, 10);
    hide Weight;
  }

  lemma LimbsBelow26(t: seq<int>)
    requires |t| == 10
    requires forall k :: 0 <= k < 10 && k != 1 ==> Abs(t[k]) < Radix(k)
    requires Abs(t[1]) < Radix(1) + 0x1_0000
    ensures Within(t, BELOW26)
  {
  }

  /** Limb 10 is worth nineteen of limb 0. */
  method WrapTop(output: array<i64>, ghost v: int)
    requires output.Length >= 11 && Sizes(output[..11], 10)
    requires Congruent(Value(output[..11]), v)
    modifies output
    ensures forall k :: 1 <= k < 10 ==> Abs(output[k]) < Radix(k)
    ensures Abs(output[0]) <= 0x1_0000 * Radix(0) && output[10] == 0
    ensures Congruent(Value(output[..11]), v)
  {
    hide Value, Congruent;
    ghost var s := output[..11];
    TopWraps(s);
    Transitive(Value(s[0 := s[0] + 19 * s[10]][10 := 0]), Value(s), v);
    output[0] := output[0] + output[10] * 16;
    output[0] := output[0] + output[10] * 2;
    output[0] := output[0] + output[10];
    output[10] := 0;
    assert output[..11] == s[0 := s[0] + 19 * s[10]][10 := 0];
  }

  lemma TopWraps(s: seq<int>)
    requires |s| == 11
    ensures Congruent(Value(s[0 := s[0] + 19 * s[10]][10 := 0]), Value(s))
  {
    var r := s[0 := s[0] + 19 * s[10]];
    PartialUpdate(s, 11, 0, r[0]);
    PartialUpdate(r, 11, 10, 0);
    LastWeight();
    WeightTen(0);
    hide *;
    CongruentBy(Value(r[10 := 0]), Value(s), -s[10]);
  }

  // ----- operations -----

  method Reduce(t: array<i64>, ghost v: int)
    requires t.Length == 19 && Within(t[..], DEGREE)
    requires Congruent(Value(Folded(t[..])), v)
    modifies t
    ensures Fits(t, BELOW26) && Congruent(Held(t), v)
  {
    hide Value, Congruent;
    FReduceDegree(t);
    FReduceCoefficients(t, v);
  }

  method Copy(output: array<i64>, input: array<i64>)
    requires output.Length >= 10 && input.Length >= 10
    modifies output
    ensures output[..10] == old(input[..10])
    ensures forall k :: 10 <= k < output.Length ==> output[k] == old(output[k])
  {
    forall k | 0 <= k < 10 {
      output[k] := input[k];
    }
  }

  /** t = in2 * input, reduced; fproduct, freduce_degree and freduce_coefficients in a row. */
  method ProductInto(t: array<i64>, in2: array<i64>, input: array<i64>)
    requires t.Length == 19 && t != in2 && t != input
    requires Fits(in2, BELOW27) && Fits(input, BELOW27)
    modifies t
    ensures Fits(t, BELOW26) && Congruent(Held(t), Held(in2) * Held(input))
  {
    hide Value, Congruent;
    FProduct(t, in2, input);
    FoldedProduct(in2[..10], input[..10]);
    Reduce(t, Held(in2) * Held(input));
  }

  /** The output may be one of the inputs. */
  method FMul(output: array<i64>, input: array<i64>, in2: array<i64>)
    requires output.Length >= 10 && Fits(input, BELOW27) && Fits(in2, BELOW27)
    modifies output
    ensures Fits(output, BELOW26)
    ensures Congruent(Held(output), old(Held(input)) * old(Held(in2)))
  {
    hide Value, Congruent;
    var t := new i64[19];
    ProductInto(t, input, in2);
    Copy(output, t);
  }

  /** The output may be the input. */
  method FSquare(output: array<i64>, input: array<i64>)
    requires output.Length >= 10 && Fits(input, BELOW27)
    modifies output
    ensures Fits(output, BELOW26)
    ensures Congruent(Held(output), old(Held(input)) * old(Held(input)))
  {
    hide Value, Congruent;
    var t := new i64[19];
    FSquareInner(t, input);
    FoldedProduct(input[..10], input[..10]);
    Reduce(t, Held(input) * Held(input));
    Copy(output, t);
  }
}
