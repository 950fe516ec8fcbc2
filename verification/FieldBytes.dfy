/** Field elements as 32 little-endian bytes: fe_frombytes and fe_tobytes (lib/ed25519/src/fe.c). */
module FieldBytes {
  import opened Words
  import opened Bitwise
  import opened Recoding
  import opened Limbs
  import opened FieldMul

  // ----- pieces of a byte string -----

  lemma {:induction false} BytesAppend(s: seq<byte>, k: nat)
    requires k < |s|
    ensures BytesValue(s[..k + 1]) == BytesValue(s[..k]) + Pow2(8 * k) * s[k]
  {
    if k > 0 {
      BytesAppend(s[1..], k - 1);
      assert s[..k + 1][1..] == s[1..][..k] && s[..k][1..] == s[1..][..k - 1];
      EightMore(k - 1);
      hide Pow2;
      AppendAlgebra(Pow2(8 * (k - 1)), s[k], BytesValue(s[..k][1..]));
    }
  }

  lemma EightMore(k: nat)
    ensures Pow2(8 * (k + 1)) == 256 * Pow2(8 * k)
  {
    Pow2Sum(8 * k, 8);
    assert Pow2(8) == 256;
  }

  lemma AppendAlgebra(p: int, x: int, low: int)
    ensures 256 * (low + p * x) == 256 * low + 256 * p * x
  {
  }

  // ----- packing limbs into bytes -----

  /** Every limb within its own bits. */
  ghost predicate Canonical(h: seq<int>) {
    |h| == 10 && forall i :: 0 <= i < 10 ==> 0 <= h[i] < Radix(i)
  }

  /** The low byte of a | b, of two 32-bit patterns. */
  function Joined(a: nat, b: nat): byte { U8(Or(a, b, 32)) }

  /** The bytes fe_tobytes writes for limbs within their bits: those of limbs 0 to 4, ... */
  ghost predicate LowPacked(s: seq<byte>, h: seq<nat>) {
    && |s| == 32 && |h| == 10
    && s[0] == U8(h[0]) && s[1] == U8(h[0] / 256)
    && s[2] == U8(h[0] / 0x10000) && s[3] == Joined(h[0] / 0x1000000, h[1] * 4)
    && s[4] == U8(h[1] / 64) && s[5] == U8(h[1] / 16384)
    && s[6] == Joined(h[1] / 0x400000, h[2] * 8) && s[7] == U8(h[2] / 32)
    && s[8] == U8(h[2] / 8192) && s[9] == Joined(h[2] / 0x200000, h[3] * 32)
    && s[10] == U8(h[3] / 8) && s[11] == U8(h[3] / 2048)
    && s[12] == Joined(h[3] / 0x80000, h[4] * 64) && s[13] == U8(h[4] / 4)
    && s[14] == U8(h[4] / 1024) && s[15] == U8(h[4] / 0x40000)
  }

  /** ... and those of limbs 5 to 9. */
  ghost predicate HighPacked(s: seq<byte>, h: seq<nat>) {
    && |s| == 32 && |h| == 10
    && s[16] == U8(h[5]) && s[17] == U8(h[5] / 256)
    && s[18] == U8(h[5] / 0x10000) && s[19] == Joined(h[5] / 0x1000000, h[6] * 2)
    && s[20] == U8(h[6] / 128) && s[21] == U8(h[6] / 32768)
    && s[22] == Joined(h[6] / 0x800000, h[7] * 8) && s[23] == U8(h[7] / 32)
    && s[24] == U8(h[7] / 8192) && s[25] == Joined(h[7] / 0x200000, h[8] * 16)
    && s[26] == U8(h[8] / 16) && s[27] == U8(h[8] / 4096)
    && s[28] == Joined(h[8] / 0x100000, h[9] * 64) && s[29] == U8(h[9] / 4)
    && s[30] == U8(h[9] / 1024) && s[31] == U8(h[9] / 0x40000)
  }

  /** The base-256 digits of hi + c * m, where hi fills the gap of m below c. */
  lemma ShiftedDigits(hi: nat, c: nat, m: nat, n: nat)
    requires m * n == 256 && hi < m && n > 0
    ensures (hi + c * m) / 256 == c / n
  {
    var q, r := c / n, c % n;
    RemainderBelow(c, n);
    ShiftAlgebra(q, r, m, n);
    GapBelow(hi, r, m, n);
    QuotientIs(q, hi + r * m);
  }

  lemma GapBelow(hi: nat, r: nat, m: nat, n: nat)
    requires hi < m && r < n
    ensures 0 <= hi + r * m < m * n
  {
    NonNegative(n - 1 - r, m);
    NonNegative(r, m);
    assert (n - 1 - r) * m == m * n - m - r * m;
  }

  lemma ShiftAlgebra(q: int, r: int, m: int, n: int)
    ensures (q * n + r) * m == q * (m * n) + r * m
  {
  }

  lemma QuotientIs(q: nat, r: nat)
    requires r < 256
    ensures (r + q * 256) / 256 == q
  {
  }

  lemma FourDigits(d: nat)
    ensures d == d % 256 + 256 * (d / 256 % 256) + 0x1_0000 * (d / 256 / 256 % 256) + 0x100_0000 * (d / 256 / 256 / 256)
  {
  }

  lemma DivideTwice(c: nat, n: nat)
    requires n > 0
    ensures c / n / 256 == c / (n * 256)
  {
    RemainderBelow(c, n);
    RemainderBelow(c / n, 256);
    NestedQuotient(c, n, c / n, c % n, c / n / 256, c / n % 256);
  }

  lemma NestedQuotient(c: nat, n: int, q: int, r: int, p: int, t: int)
    requires n > 0 && c == q * n + r && 0 <= r < n && q == p * 256 + t && 0 <= t < 256
    ensures c / (n * 256) == p
  {
    TwiceAlgebra(p, t, n);
    SmallRemainder(t, n, r);
    DivideIs(c, n * 256, p, t * n + r);
  }

  lemma SmallRemainder(t: int, n: int, r: int)
    requires 0 <= t < 256 && 0 <= r < n
    ensures 0 <= t * n + r < n * 256
  {
    assert (255 - t) * n >= 0;
  }

  lemma TwiceAlgebra(p: int, t: int, n: int)
    ensures (p * 256 + t) * n == p * (n * 256) + t * n
  {
  }

  /** Three bytes hold limb i above the hi that fills the gap below it; what is left over belongs to
   *  the byte after them. */
  lemma PackLimb(b: seq<byte>, h: seq<int>, i: nat, s: nat, sh: nat, hi: nat, d: nat)
    requires |b| == 32 && |h| == 10 && i < 10 && s + 3 <= 32
    requires 8 * s + sh == Position(i) && h[i] >= 0 && d == hi + h[i] * Pow2(sh)
    requires BytesValue(b[..s]) + Pow2(8 * s) * hi == Partial(h, i)
    requires b[s] == d % 256 && b[s + 1] == d / 256 % 256 && b[s + 2] == d / 256 / 256 % 256
    ensures BytesValue(b[..s + 3]) + Pow2(8 * (s + 3)) * (d / 256 / 256 / 256) == Partial(h, i + 1)
  {
    hide BytesValue, Pow2;
    BytesAppend(b, s);
    BytesAppend(b, s + 1);
    BytesAppend(b, s + 2);
    EightMore(s);
    EightMore(s + 1);
    EightMore(s + 2);
    Pow2Sum(8 * s, sh);
    FourDigits(d);
    hide Position;
    PackAlgebra(Pow2(8 * s), Pow2(sh), h[i], hi, d, d % 256, d / 256 % 256, d / 256 / 256 % 256, d / 256 / 256 / 256);
  }

  lemma PackAlgebra(p: int, m: int, c: int, hi: int, d: int, d0: int, d1: int, d2: int, d3: int)
    requires d == hi + c * m && d == d0 + 256 * d1 + 0x1_0000 * d2 + 0x100_0000 * d3
    ensures p * d0 + 256 * p * d1 + 256 * (256 * p) * d2 + 256 * (256 * (256 * p)) * d3 == p * hi + p * m * c
  {
    assert p * d == p * hi + p * m * c;
    assert p * d == p * d0 + 256 * p * d1 + 0x1_0000 * p * d2 + 0x100_0000 * p * d3;
  }

  lemma LimbDigits(hi: nat, c: nat, m: nat, n: nat)
    requires m * n == 256 && hi < m && n > 0
    ensures (hi + c * m) / 256 == c / n
    ensures (hi + c * m) / 256 / 256 == c / (n * 256)
    ensures (hi + c * m) / 256 / 256 / 256 == c / (n * 0x1_0000)
  {
    ShiftedDigits(hi, c, m, n);
    DivideTwice(c, n);
    DivideTwice(c, n * 256);
  }

  lemma JoinedByte(hi: nat, c: nat, sh: nat)
    requires sh <= 6 && hi < Pow2(sh) && c < 0x400_0000
    ensures Joined(hi, c * Pow2(sh)) == (hi + c * Pow2(sh)) % 256
  {
    WordSize();
    SmallPowers();
    hide Pow2;
    assert c * Pow2(sh) < Pow2(32);
    OrDisjoint(hi, c, sh, 32);
  }

  lemma LastByte(b: seq<byte>, h: seq<int>)
    requires |b| == 32 && Canonical(h) && b[15] == U8(h[4] / 0x4_0000)
    requires BytesValue(b[..15]) + Pow2(120) * (h[4] / 0x4_0000) == Partial(h, 5)
    ensures BytesValue(b[..16]) == Partial(h, 5)
  {
    hide BytesValue, Pow2, Partial;
    BytesAppend(b, 15);
  }

  /** Limb i, in the terms the source writes its bytes in: m = 2^sh and m * n = 256. */
  lemma ThreeBytes(b: seq<byte>, h: seq<int>, i: nat, s: nat, sh: nat, m: nat, n: nat, n2: nat, n3: nat, hi: nat)
    requires |b| == 32 && Canonical(h) && i < 10 && s + 3 <= 32
    requires 8 * s + sh == Position(i) && sh <= 6
    requires m == Pow2(sh) && m * n == 256 && n > 0 && n2 == n * 256 && n3 == n * 0x1_0000 && hi < m
    requires b[s] == Joined(hi, h[i] * m) || (m == 1 && b[s] == U8(h[i]))
    requires b[s + 1] == U8(h[i] / n) && b[s + 2] == U8(h[i] / n2)
    requires BytesValue(b[..s]) + Pow2(8 * s) * hi == Partial(h, i)
    ensures BytesValue(b[..s + 3]) + Pow2(8 * (s + 3)) * (h[i] / n3) == Partial(h, i + 1)
  {
    hide *;
    CanonicalLimb(h, i);
    var d := hi + h[i] * m;
    DigitBytes(hi, h[i], sh, m, n, n2, n3, d);
    PackLimb(b, h, i, s, sh, hi, d);
  }

  lemma CanonicalLimb(h: seq<int>, i: nat)
    requires Canonical(h) && i < 10
    ensures |h| == 10 && 0 <= h[i] < 0x400_0000
  {
  }

  lemma DigitBytes(hi: nat, c: nat, sh: nat, m: nat, n: nat, n2: nat, n3: nat, d: nat)
    requires sh <= 6 && m == Pow2(sh) && m * n == 256 && n > 0 && hi < m && c < 0x400_0000
    requires n2 == n * 256 && n3 == n * 0x1_0000 && d == hi + c * m
    ensures d == hi + c * Pow2(sh) && d % 256 == Joined(hi, c * m) && (m == 1 ==> d % 256 == U8(c))
    ensures d / 256 % 256 == U8(c / n) && d / 256 / 256 % 256 == U8(c / n2) && d / 256 / 256 / 256 == c / n3
  {
    hide Pow2, Joined;
    LimbDigits(hi, c, m, n);
    JoinedByte(hi, c, sh);
  }

  lemma Limb0(b: seq<byte>, h: seq<int>)
    requires Canonical(h) && LowPacked(b, h)
    requires BytesValue(b[..0]) == Partial(h, 0)
    ensures BytesValue(b[..3]) + Pow2(24) * (h[0] / 0x1000000) == Partial(h, 1)
  {
    SmallPowers();
    hide Pow2, BytesValue, Partial, Joined, U8;
    ThreeBytes(b, h, 0, 0, 0, 1, 256, 0x10000, 0x1000000, 0);
  }

  lemma Limb1(b: seq<byte>, h: seq<int>)
    requires Canonical(h) && LowPacked(b, h)
    requires BytesValue(b[..3]) + Pow2(24) * (h[0] / 0x1000000) == Partial(h, 1)
    ensures BytesValue(b[..6]) + Pow2(48) * (h[1] / 0x400000) == Partial(h, 2)
  {
    SmallPowers();
    hide Pow2, BytesValue, Partial, Joined, U8;
    ThreeBytes(b, h, 1, 3, 2, 4, 64, 16384, 0x400000, h[0] / 0x1000000);
  }

  lemma Limb2(b: seq<byte>, h: seq<int>)
    requires Canonical(h) && LowPacked(b, h)
    requires BytesValue(b[..6]) + Pow2(48) * (h[1] / 0x400000) == Partial(h, 2)
    ensures BytesValue(b[..9]) + Pow2(72) * (h[2] / 0x200000) == Partial(h, 3)
  {
    SmallPowers();
    hide Pow2, BytesValue, Partial, Joined, U8;
    ThreeBytes(b, h, 2, 6, 3, 8, 32, 8192, 0x200000, h[1] / 0x400000);
  }

  lemma Limb3(b: seq<byte>, h: seq<int>)
    requires Canonical(h) && LowPacked(b, h)
    requires BytesValue(b[..9]) + Pow2(72) * (h[2] / 0x200000) == Partial(h, 3)
    ensures BytesValue(b[..12]) + Pow2(96) * (h[3] / 0x80000) == Partial(h, 4)
  {
    SmallPowers();
    hide Pow2, BytesValue, Partial, Joined, U8;
    ThreeBytes(b, h, 3, 9, 5, 32, 8, 2048, 0x80000, h[2] / 0x200000);
  }

  lemma Limb4(b: seq<byte>, h: seq<int>)
    requires Canonical(h) && LowPacked(b, h)
    requires BytesValue(b[..12]) + Pow2(96) * (h[3] / 0x80000) == Partial(h, 4)
    ensures BytesValue(b[..15]) + Pow2(120) * (h[4] / 0x40000) == Partial(h, 5)
  {
    SmallPowers();
    hide Pow2, BytesValue, Partial, Joined, U8;
    ThreeBytes(b, h, 4, 12, 6, 64, 4, 1024, 0x40000, h[3] / 0x80000);
  }

  lemma Limb5(b: seq<byte>, h: seq<int>)
    requires Canonical(h) && HighPacked(b, h)
    requires BytesValue(b[..16]) == Partial(h, 5)
    ensures BytesValue(b[..19]) + Pow2(152) * (h[5] / 0x1000000) == Partial(h, 6)
  {
    SmallPowers();
    hide Pow2, BytesValue, Partial, Joined, U8;
    ThreeBytes(b, h, 5, 16, 0, 1, 256, 0x10000, 0x1000000, 0);
  }

  lemma Limb6(b: seq<byte>, h: seq<int>)
    requires Canonical(h) && HighPacked(b, h)
    requires BytesValue(b[..19]) + Pow2(152) * (h[5] / 0x1000000) == Partial(h, 6)
    ensures BytesValue(b[..22]) + Pow2(176) * (h[6] / 0x800000) == Partial(h, 7)
  {
    SmallPowers();
    hide Pow2, BytesValue, Partial, Joined, U8;
    ThreeBytes(b, h, 6, 19, 1, 2, 128, 32768, 0x800000, h[5] / 0x1000000);
  }

  lemma Limb7(b: seq<byte>, h: seq<int>)
    requires Canonical(h) && HighPacked(b, h)
    requires BytesValue(b[..22]) + Pow2(176) * (h[6] / 0x800000) == Partial(h, 7)
    ensures BytesValue(b[..25]) + Pow2(200) * (h[7] / 0x200000) == Partial(h, 8)
  {
    SmallPowers();
    hide Pow2, BytesValue, Partial, Joined, U8;
    ThreeBytes(b, h, 7, 22, 3, 8, 32, 8192, 0x200000, h[6] / 0x800000);
  }

  lemma Limb8(b: seq<byte>, h: seq<int>)
    requires Canonical(h) && HighPacked(b, h)
    requires BytesValue(b[..25]) + Pow2(200) * (h[7] / 0x200000) == Partial(h, 8)
    ensures BytesValue(b[..28]) + Pow2(224) * (h[8] / 0x100000) == Partial(h, 9)
  {
    SmallPowers();
    hide Pow2, BytesValue, Partial, Joined, U8;
    ThreeBytes(b, h, 8, 25, 4, 16, 16, 4096, 0x100000, h[7] / 0x200000);
  }

  lemma Limb9(b: seq<byte>, h: seq<int>)
    requires Canonical(h) && HighPacked(b, h)
    requires BytesValue(b[..28]) + Pow2(224) * (h[8] / 0x100000) == Partial(h, 9)
    ensures BytesValue(b[..31]) + Pow2(248) * (h[9] / 0x40000) == Partial(h, 10)
  {
    SmallPowers();
    hide Pow2, BytesValue, Partial, Joined, U8;
    ThreeBytes(b, h, 9, 28, 6, 64, 4, 1024, 0x40000, h[8] / 0x100000);
  }

  /** The bytes hold the value of the limbs. */
  lemma PackedValue(b: seq<byte>, h: seq<int>)
    requires Canonical(h) && LowPacked(b, h) && HighPacked(b, h)
    ensures BytesValue(b) == Value(h)
  {
    assert BytesValue(b[..0]) == 0 && Partial(h, 0) == 0;
    hide Pow2, BytesValue, Partial, Joined, U8;
    Limb0(b, h);
    Limb1(b, h);
    Limb2(b, h);
    Limb3(b, h);
    Limb4(b, h);
    LastByte(b, h);
    Limb5(b, h);
    Limb6(b, h);
    Limb7(b, h);
    Limb8(b, h);
    Limb9(b, h);
    FinalByte(b, h);
  }

  lemma FinalByte(b: seq<byte>, h: seq<int>)
    requires |b| == 32 && Canonical(h) && b[31] == U8(h[9] / 0x4_0000)
    requires BytesValue(b[..31]) + Pow2(248) * (h[9] / 0x4_0000) == Partial(h, 10)
    ensures BytesValue(b) == Value(h)
  {
    hide BytesValue, Pow2, Partial;
    BytesAppend(b, 31);
    assert b[..32] == b;
  }

  // ----- fe_tobytes -----

  /** 1.1 * 2^26 */
  const SERIAL: int := 73819750

  const D: int := P + 19

  /** The chain of shifts that estimates the quotient by P, starting from e. */
  function Estimate(h: seq<int>, e: int, k: nat): int
    requires k <= |h|
  {
    if k == 0 then e else (h[k - 1] + Estimate(h, e, k - 1)) / Radix(k - 1)
  }

  lemma AnyWeight(k: nat)
    requires k < 10
    ensures Weight(k + 1) == Radix(k) * Weight(k)
  {
    if k < 9 {
      WeightStep(k);
    } else {
      LastWeight();
      WeightTen(0);
      hide Weight;
    }
  }

  /** Rounding down at every limb is rounding down once. */
  lemma {:induction false} EstimateIs(h: seq<int>, e: int, k: nat)
    requires |h| == 10 && k <= 10
    ensures Estimate(h, e, k) == (Partial(h, k) + e) / Weight(k)
  {
    hide Weight, Radix;
    if k == 0 {
      LastWeight();
    } else {
      EstimateIs(h, e, k - 1);
      AnyWeight(k - 1);
      NestedFloor(Partial(h, k - 1) + e, Weight(k - 1), Radix(k - 1), h[k - 1]);
    }
  }

  lemma NestedFloor(x: int, w: int, r: int, c: int)
    requires w > 0 && r > 0
    ensures (c + x / w) / r == (x + w * c) / (r * w)
  {
    var a, b := x / w, (c + x / w) / r;
    FloorBelow(x, w);
    FloorBelow(c + a, r);
    FloorAlgebra(x, w, r, c, a, x % w, b, (c + a) % r);
    DivideIs(x + w * c, r * w, b, w * ((c + a) % r) + x % w);
  }

  lemma FloorAlgebra(x: int, w: int, r: int, c: int, a: int, s: int, b: int, t: int)
    requires w > 0 && r > 0 && x == a * w + s && 0 <= s < w && c + a == b * r + t && 0 <= t < r
    ensures x + w * c == b * (r * w) + (w * t + s) && 0 <= w * t + s < r * w
  {
    Spread(w, b, r, t);
    Spread(w, 1, c, a);
    NonNegative(w, t);
    NonNegative(w, r - 1 - t);
    Spread(w, 1, r - 1 - t, t + 1);
    Spread(w, 1, t, 1);
  }

  lemma Spread(w: int, b: int, r: int, t: int)
    ensures w * (b * r + t) == b * (r * w) + w * t
  {
  }

  lemma {:induction false} PartialBound(h: seq<int>, k: nat)
    requires Bounded(h, SERIAL) && k <= 10
    ensures Abs(Partial(h, k)) <= 2 * Weight(k)
  {
    hide Weight;
    if k > 0 {
      PartialBound(h, k - 1);
      AnyWeight(k - 1);
      LimbBound(h, k - 1);
      BoundStep(Partial(h, k - 1), Weight(k - 1), h[k - 1], Radix(k - 1));
    }
  }

  lemma LimbBound(h: seq<int>, k: nat)
    requires Bounded(h, SERIAL) && k < 10
    ensures Abs(h[k]) <= 2 * Radix(k) - 2
  {
  }

  lemma BoundStep(p: int, w: int, c: int, r: int)
    requires w > 0 && Abs(p) <= 2 * w && Abs(c) <= 2 * r - 2
    ensures Abs(p + w * c) <= 2 * (r * w)
  {
    AbsProduct(w, c, w, 2 * r - 2);
    TwoSided(w, r);
  }

  lemma TwoSided(w: int, r: int)
    ensures w * (2 * r - 2) == 2 * (r * w) - 2 * w
    ensures -w * (2 * r - 2) == -(2 * (r * w) - 2 * w)
  {
  }

  /** 2^230 */
  const TOP: int := 0x40_0000_0000_0000_0000_0000_0000_0000_0000_0000_0000_0000_0000_0000_0000

  /** A top limb of 1.1 * 2^25 gives an estimate within one part in 2^22, close enough. */
  lemma EstimateArithmetic(v: int, low: int, h9: int, e: int, q: int, r: int)
    requires v == low + TOP * h9 && Abs(low) <= 2 * TOP && Abs(h9) <= 0x400_0000
    requires e * 0x200_0000 <= 19 * h9 + 0x100_0000 < (e + 1) * 0x200_0000
    requires v == q * P + r && 0 <= r < P
    ensures 0 <= r + e - 19 * q < D
  {
  }

  /** The estimate is the quotient of the value by P, rounded down. */
  lemma EstimateExact(h: seq<int>)
    requires Bounded(h, SERIAL)
    ensures Estimate(h, (19 * h[9] + 0x100_0000) / 0x200_0000, 10) == Value(h) / P
    ensures Abs(Value(h) / P) <= 4
  {
    hide Weight, Radix;
    var e := (19 * h[9] + 0x100_0000) / 0x200_0000;
    var v := Value(h);
    EstimateIs(h, e, 10);
    PartialBound(h, 9);
    PartialBound(h, 10);
    TopWeights();
    FloorBelow(v, P);
    EstimateArithmetic(v, Partial(h, 9), h[9], e, v / P, v % P);
    DivideIs(v + e, D, v / P, v % P + e - 19 * (v / P));
  }

  lemma TopWeights()
    ensures Weight(9) == TOP && Weight(10) == D
  {
    LastWeight();
    WeightTen(0);
    hide Weight;
  }

  lemma EstimateStays(h: seq<int>, e: int, k: nat)
    requires Bounded(h, SERIAL) && k <= 10 && Abs(e) <= 64
    ensures Abs(Estimate(h, e, k)) <= 64
  {
    if k > 0 {
      EstimateStays(h, e, k - 1);
    }
  }

  /** The quotient of the value by P, in 32-bit steps. */
  method QuotientByP(h: array<i32>) returns (q: i32)
    requires h.Length == 10 && Bounded(h[..], SERIAL)
    ensures q == Value(h[..]) / P
    ensures Abs(q) <= 4
  {
    hide Value, Estimate;
    EstimateExact(h[..]);
    q := HalfQuotient(h);
    ghost var e := (19 * h[9] + 0x100_0000) / 0x200_0000;
    q := OtherHalf(h, q, e);
  }

  method HalfQuotient(h: array<i32>) returns (q: i32)
    requires h.Length == 10 && Bounded(h[..], SERIAL)
    ensures q == Estimate(h[..], (19 * h[9] + 0x100_0000) / 0x200_0000, 5)
    ensures Abs(q) <= 64 && Abs((19 * h[9] + 0x100_0000) / 0x200_0000) <= 64
  {
    ghost var s, e := h[..], (19 * h[9] + 0x100_0000) / 0x200_0000;
    q := (19 * h[9] + 0x100_0000) / 0x200_0000;
    EstimatesStay(s, e);
    q := (h[0] + q) / 0x400_0000;
    assert q == Estimate(s, e, 1);
    q := (h[1] + q) / 0x200_0000;
    assert q == Estimate(s, e, 2);
    q := (h[2] + q) / 0x400_0000;
    assert q == Estimate(s, e, 3);
    q := (h[3] + q) / 0x200_0000;
    assert q == Estimate(s, e, 4);
    q := (h[4] + q) / 0x400_0000;
    assert q == Estimate(s, e, 5);
  }

  method OtherHalf(h: array<i32>, half: i32, ghost e: int) returns (q: i32)
    requires h.Length == 10 && Bounded(h[..], SERIAL)
    requires Abs(e) <= 64 && Abs(half) <= 64 && half == Estimate(h[..], e, 5)
    ensures q == Estimate(h[..], e, 10)
  {
    ghost var s := h[..];
    q := half;
    EstimatesStay(s, e);
    q := (h[5] + q) / 0x200_0000;
    assert q == Estimate(s, e, 6);
    q := (h[6] + q) / 0x400_0000;
    assert q == Estimate(s, e, 7);
    q := (h[7] + q) / 0x200_0000;
    assert q == Estimate(s, e, 8);
    q := (h[8] + q) / 0x400_0000;
    assert q == Estimate(s, e, 9);
    q := (h[9] + q) / 0x200_0000;
    assert q == Estimate(s, e, 10);
  }

  lemma EstimatesStay(h: seq<int>, e: int)
    requires Bounded(h, SERIAL) && Abs(e) <= 64
    ensures forall k :: 0 <= k <= 10 ==> Abs(Estimate(h, e, k)) <= 64
  {
    forall k | 0 <= k <= 10
      ensures Abs(Estimate(h, e, k)) <= 64
    {
      EstimateStays(h, e, k);
    }
  }

  /** Limbs below i hold their own bits, the others are still small. */
  ghost predicate Flowing(t: seq<int>, i: nat) {
    && |t| == 10 && i <= 10
    && (forall k :: 0 <= k < i ==> 0 <= t[k] < Radix(k))
    && (forall k :: i <= k < 10 ==> Abs(t[k]) <= SERIAL + 0x1000)
  }

  method FloorCarry(t: array<i32>, i: nat, ghost m: nat)
    requires t.Length == 10 && i < 9 && m <= 0x1000 - 0x10
    requires Flowing(t[..], i) && Abs(t[i]) <= SERIAL + m
    requires forall k :: i < k < 10 ==> Abs(t[k]) <= SERIAL
    modifies t
    ensures Flowing(t[..], i + 1) && Abs(t[i + 1]) <= SERIAL + 4
    ensures forall k :: i + 1 < k < 10 ==> Abs(t[k]) <= SERIAL
    ensures Value(t[..]) == old(Value(t[..]))
  {
    hide Value;
    ghost var s := t[..];
    var carry := t[i] / Radix(i);
    SmallCarry(t[i], i);
    CarryOutInside(s, i, carry);
    t[i + 1] := t[i + 1] + carry;
    t[i] := t[i] - carry * Radix(i);
    assert t[..] == CarryOut(s, i, carry);
  }

  lemma SmallCarry(x: int, i: nat)
    requires Abs(x) <= SERIAL + 0x1000
    ensures Abs(x / Radix(i)) <= 4
    ensures 0 <= x - (x / Radix(i)) * Radix(i) < Radix(i)
  {
  }

  /** Subtract q times P: 19 * q is added, and what the carries push out at the top is dropped. */
  method Normalise(t: array<i32>, q: i32)
    requires t.Length == 10 && Bounded(t[..], SERIAL)
    requires q == Value(t[..]) / P && Abs(q) <= 4
    modifies t
    ensures Canonical(t[..]) && Value(t[..]) == old(Value(t[..])) % P
  {
    hide Value, Radix, Bounded;
    ghost var v := Value(t[..]);
    AddQuotient(t, q);
    FloorCarry(t, 0, 0x100);
    FloorCarry(t, 1, 0x100);
    FloorCarry(t, 2, 0x100);
    FloorCarry(t, 3, 0x100);
    FloorCarry(t, 4, 0x100);
    FloorCarry(t, 5, 0x100);
    FloorCarry(t, 6, 0x100);
    FloorCarry(t, 7, 0x100);
    FloorCarry(t, 8, 0x100);
    DropTop(t, q, v);
  }

  method AddQuotient(t: array<i32>, q: i32)
    requires t.Length == 10 && Bounded(t[..], SERIAL) && Abs(q) <= 4
    modifies t
    ensures Flowing(t[..], 0) && Abs(t[0]) <= SERIAL + 0x100
    ensures forall k :: 0 < k < 10 ==> Abs(t[k]) <= SERIAL
    ensures Value(t[..]) == old(Value(t[..])) + 19 * q
  {
    ghost var s := t[..];
    Limbs0(s);
    PartialUpdate(s, 10, 0, s[0] + 19 * q);
    t[0] := t[0] + 19 * q;
    assert t[..] == s[0 := s[0] + 19 * q];
    LastWeight();
    hide Weight;
    ValueIs(t[..], s);
  }

  lemma ValueIs(t: seq<int>, s: seq<int>)
    requires |t| == |s| == 10
    ensures Value(t) == Partial(t, 10) && Value(s) == Partial(s, 10)
  {
  }

  lemma Limbs0(t: seq<int>)
    requires Bounded(t, SERIAL)
    ensures forall k :: 0 <= k < 10 ==> Abs(t[k]) <= SERIAL
  {
  }

  method DropTop(t: array<i32>, ghost q: int, ghost v: int)
    requires t.Length == 10 && Flowing(t[..], 9) && Value(t[..]) == v + 19 * q && q == v / P
    modifies t
    ensures Canonical(t[..]) && Value(t[..]) == v % P
  {
    hide Value;
    ghost var s := t[..];
    var carry9 := t[9] / 0x200_0000;
    t[9] := t[9] - carry9 * 0x200_0000;
    assert t[..] == s[9 := s[9] - carry9 * 0x200_0000];
    TopDropped(s, t[..], carry9, q, v);
  }

  lemma TopDropped(s: seq<int>, t: seq<int>, c: int, q: int, v: int)
    requires |s| == 10 && t == s[9 := s[9] - c * 0x200_0000] && Canonical(t)
    requires Value(s) == v + 19 * q && q == v / P
    ensures Value(t) == v % P
  {
    PartialUpdate(s, 10, 9, t[9]);
    ValueIs(t, s);
    TopWeights();
    CanonicalBelow(t, 10);
    FloorBelow(v, P);
    hide *;
    OnlyOneFits(v, q, c, Value(t), v % P);
  }

  lemma OnlyOneFits(v: int, q: int, c: int, w: int, r: int)
    requires w == v + 19 * q - c * D && 0 <= w < D && v == q * P + r && 0 <= r < P
    ensures w == r
  {
    assert w == r + (q - c) * D;
  }

  lemma {:induction false} CanonicalBelow(t: seq<int>, k: nat)
    requires Canonical(t) && k <= 10
    ensures 0 <= Partial(t, k) < Weight(k)
  {
    hide Weight, Radix;
    if k > 0 {
      CanonicalBelow(t, k - 1);
      AnyWeight(k - 1);
      BelowStep(Partial(t, k - 1), Weight(k - 1), t[k - 1], Radix(k - 1));
    }
  }

  lemma BelowStep(p: int, w: int, c: int, r: int)
    requires 0 <= p < w && 0 <= c < r
    ensures 0 <= p + w * c < r * w
  {
    NonNegative(w, r - 1 - c);
    NonNegative(w, c);
    assert w * (r - 1 - c) == r * w - w - w * c;
  }

  method StoreLow(s: array<byte>, h: seq<nat>)
    requires s.Length == 32 && |h| == 10
    modifies s
    ensures LowPacked(s[..], h)
  {
    s[0] := U8(h[0]);
    s[1] := U8(h[0] / 256);
    s[2] := U8(h[0] / 0x10000);
    s[3] := Joined(h[0] / 0x1000000, h[1] * 4);
    s[4] := U8(h[1] / 64);
    s[5] := U8(h[1] / 16384);
    s[6] := Joined(h[1] / 0x400000, h[2] * 8);
    s[7] := U8(h[2] / 32);
    s[8] := U8(h[2] / 8192);
    s[9] := Joined(h[2] / 0x200000, h[3] * 32);
    s[10] := U8(h[3] / 8);
    s[11] := U8(h[3] / 2048);
    s[12] := Joined(h[3] / 0x80000, h[4] * 64);
    s[13] := U8(h[4] / 4);
    s[14] := U8(h[4] / 1024);
    s[15] := U8(h[4] / 0x40000);
  }

  lemma LowKept(s: seq<byte>, r: seq<byte>, h: seq<nat>)
    requires LowPacked(s, h) && |r| == 32 && r[..16] == s[..16]
    ensures LowPacked(r, h)
  {
    assert forall k :: 0 <= k < 16 ==> r[k] == r[..16][k] == s[k];
  }

  method StoreHigh(s: array<byte>, h: seq<nat>)
    requires s.Length == 32 && |h| == 10
    modifies s
    ensures HighPacked(s[..], h) && s[..16] == old(s[..16])
  {
    s[16] := U8(h[5]);
    s[17] := U8(h[5] / 256);
    s[18] := U8(h[5] / 0x10000);
    s[19] := Joined(h[5] / 0x1000000, h[6] * 2);
    s[20] := U8(h[6] / 128);
    s[21] := U8(h[6] / 32768);
    s[22] := Joined(h[6] / 0x800000, h[7] * 8);
    s[23] := U8(h[7] / 32);
    s[24] := U8(h[7] / 8192);
    s[25] := Joined(h[7] / 0x200000, h[8] * 16);
    s[26] := U8(h[8] / 16);
    s[27] := U8(h[8] / 4096);
    s[28] := Joined(h[8] / 0x100000, h[9] * 64);
    s[29] := U8(h[9] / 4);
    s[30] := U8(h[9] / 1024);
    s[31] := U8(h[9] / 0x40000);
  }

  /** The 32 bytes are the least natural number congruent to h. */
  method FeToBytes(s: array<byte>, h: array<i32>)
    requires s.Length == 32 && h.Length == 10 && Bounded(h[..], SERIAL)
    modifies s
    ensures BytesValue(s[..]) == Value(h[..]) % P
  {
    hide Value, Bounded, LowPacked, HighPacked;
    var t := new i32[10](k requires 0 <= k < 10 reads h => h[k]);
    assert t[..] == h[..];
    var q := QuotientByP(t);
    Normalise(t, q);
    var c := t[..];
    StoreLow(s, c);
    ghost var low := s[..];
    StoreHigh(s, c);
    assert s[..][..16] == s[..16] == low[..16];
    LowKept(low, s[..], c);
    PackedValue(s[..], c);
  }

  // ----- fe_frombytes -----

  function Load3(s: seq<byte>, k: nat): nat
    requires k + 3 <= |s|
  {
    Or(Or(s[k], (s[k + 1] as int) * 256, 64), (s[k + 2] as int) * 0x1_0000, 64)
  }

  function Load4(s: seq<byte>, k: nat): nat
    requires k + 4 <= |s|
  {
    Or(Load3(s, k), (s[k + 3] as int) * 0x100_0000, 64)
  }

  lemma ByteSizes()
    ensures Pow2(8) == 256 && Pow2(16) == 0x1_0000 && Pow2(24) == 0x100_0000 && Pow2(32) == 0x1_0000_0000
    ensures Pow2(64) == 0x1_0000_0000_0000_0000
  {
    assert Pow2(8) == 256;
    Pow2Sum(8, 8);
    Pow2Sum(16, 8);
    Pow2Sum(16, 16);
    Pow2Sum(32, 32);
    hide Pow2;
  }

  lemma Load3Value(s: seq<byte>, k: nat)
    requires k + 3 <= |s|
    ensures Load3(s, k) == (s[k] as int) + 256 * (s[k + 1] as int) + 0x1_0000 * (s[k + 2] as int)
  {
    ByteSizes();
    hide Pow2;
    OrDisjoint(s[k], s[k + 1], 8, 64);
    OrDisjoint((s[k] as int) + (s[k + 1] as int) * 256, s[k + 2], 16, 64);
  }

  lemma Load4Value(s: seq<byte>, k: nat)
    requires k + 4 <= |s|
    ensures Load4(s, k)
         == (s[k] as int) + 256 * (s[k + 1] as int) + 0x1_0000 * (s[k + 2] as int) + 0x100_0000 * (s[k + 3] as int)
  {
    ByteSizes();
    hide Pow2;
    Load3Value(s, k);
    OrDisjoint((s[k] as int) + 256 * (s[k + 1] as int) + 0x1_0000 * (s[k + 2] as int), s[k + 3], 24, 64);
  }

  /** The bytes at k, k + 1 and k + 2 are worth one load. */
  lemma Loaded3(s: seq<byte>, k: nat)
    requires k + 3 <= |s|
    ensures BytesValue(s[..k + 3]) == BytesValue(s[..k]) + Pow2(8 * k) * Load3(s, k)
  {
    hide BytesValue, Pow2;
    BytesAppend(s, k);
    BytesAppend(s, k + 1);
    BytesAppend(s, k + 2);
    EightMore(k);
    EightMore(k + 1);
    Load3Value(s, k);
    hide Load3;
    LoadAlgebra(Pow2(8 * k), s[k], s[k + 1], s[k + 2], 0);
  }

  lemma Loaded4(s: seq<byte>, k: nat)
    requires k + 4 <= |s|
    ensures BytesValue(s[..k + 4]) == BytesValue(s[..k]) + Pow2(8 * k) * Load4(s, k)
  {
    hide BytesValue, Pow2;
    Loaded3(s, k);
    BytesAppend(s, k + 3);
    EightMore(k);
    EightMore(k + 1);
    EightMore(k + 2);
    Load3Value(s, k);
    Load4Value(s, k);
    hide Load3, Load4;
    LoadAlgebra(Pow2(8 * k), s[k], s[k + 1], s[k + 2], s[k + 3]);
  }

  lemma LoadAlgebra(p: int, a: int, b: int, c: int, d: int)
    ensures p * a + 256 * p * b + 256 * (256 * p) * c + 256 * (256 * (256 * p)) * d
         == p * (a + 256 * b + 0x1_0000 * c + 0x100_0000 * d)
  {
  }

  /** The limbs fe_frombytes starts from: the loads, moved to where their limbs begin. */
  function Loaded(s: seq<byte>): (h: seq<int>)
    requires |s| == 32
    ensures |h| == 10
  {
    [Load4(s, 0), Load3(s, 4) * 64, Load3(s, 7) * 32, Load3(s, 10) * 8, Load3(s, 13) * 4,
     Load4(s, 16), Load3(s, 20) * 128, Load3(s, 23) * 32, Load3(s, 26) * 16, Load3(s, 29) % 0x80_0000 * 4]
  }

  /** One more load takes the limbs as far as the bytes. */
  lemma LoadedLimb(s: seq<byte>, h: seq<int>, i: nat, k: nat, shift: nat, m: nat, load: int)
    requires |h| == 10 && i < 10 && Position(i) + shift == 8 * k && m == Pow2(shift) && h[i] == load * m
    ensures Partial(h, i + 1) == Partial(h, i) + Pow2(8 * k) * load
  {
    Pow2Sum(Position(i), shift);
    hide Pow2, Position;
    assert Weight(i) * (load * m) == (Weight(i) * m) * load;
  }

  /** The first i limbs hold the first k bytes. */
  ghost predicate LoadedUpTo(s: seq<byte>, i: nat, k: nat) {
    |s| == 32 && i <= 10 && k <= 32 && Partial(Loaded(s), i) == BytesValue(s[..k])
  }

  lemma LoadedStep(s: seq<byte>, i: nat, k: nat, shift: nat, m: nat)
    requires LoadedUpTo(s, i, k) && i < 10 && k + 3 <= 32
    requires Position(i) + shift == 8 * k && m == Pow2(shift) && Loaded(s)[i] == Load3(s, k) * m
    ensures LoadedUpTo(s, i + 1, k + 3)
  {
    hide BytesValue, Partial, Load3, Pow2, Loaded;
    Loaded3(s, k);
    LoadedLimb(s, Loaded(s), i, k, shift, m, Load3(s, k));
  }

  lemma LoadedStep4(s: seq<byte>, i: nat, k: nat)
    requires LoadedUpTo(s, i, k) && i < 10 && k + 4 <= 32
    requires Position(i) == 8 * k && Loaded(s)[i] == Load4(s, k)
    ensures LoadedUpTo(s, i + 1, k + 4)
  {
    assert Pow2(0) == 1;
    hide BytesValue, Partial, Load4, Pow2, Loaded;
    Loaded4(s, k);
    LoadedLimb(s, Loaded(s), i, k, 0, 1, Load4(s, k));
  }

  lemma LoadedLimbs(s: seq<byte>)
    requires |s| == 32
    ensures Loaded(s)[0] == Load4(s, 0) && Loaded(s)[1] == Load3(s, 4) * 64 && Loaded(s)[2] == Load3(s, 7) * 32
    ensures Loaded(s)[3] == Load3(s, 10) * 8 && Loaded(s)[4] == Load3(s, 13) * 4 && Loaded(s)[5] == Load4(s, 16)
    ensures Loaded(s)[6] == Load3(s, 20) * 128 && Loaded(s)[7] == Load3(s, 23) * 32
    ensures Loaded(s)[8] == Load3(s, 26) * 16
  {
    hide Load3, Load4;
  }

  lemma MoreLoads(s: seq<byte>)
    requires |s| == 32
    ensures LoadedUpTo(s, 9, 29)
  {
    SmallPowers();
    assert LoadedUpTo(s, 0, 0);
    LoadedLimbs(s);
    hide BytesValue, Partial, Load3, Load4, Pow2, LoadedUpTo, Loaded;
    LoadedStep4(s, 0, 0);
    LoadedStep(s, 1, 4, 6, 64);
    LoadedStep(s, 2, 7, 5, 32);
    LoadedStep(s, 3, 10, 3, 8);
    LoadedStep(s, 4, 13, 2, 4);
    LoadedStep4(s, 5, 16);
    LoadedStep(s, 6, 20, 7, 128);
    LoadedStep(s, 7, 23, 5, 32);
    LoadedStep(s, 8, 26, 4, 16);
  }

  lemma {:induction false} BytesBelow(s: seq<byte>, k: nat)
    requires k <= |s|
    ensures 0 <= BytesValue(s[..k]) < Pow2(8 * k)
  {
    if k > 0 {
      BytesBelow(s, k - 1);
      BytesAppend(s, k - 1);
      EightMore(k - 1);
      hide Pow2, BytesValue;
      BelowStep(BytesValue(s[..k - 1]), Pow2(8 * (k - 1)), s[k - 1], 256);
    }
  }

  /** The limbs hold the low 255 bits. */
  lemma LoadedValue(s: seq<byte>)
    requires |s| == 32
    ensures Value(Loaded(s)) == BytesValue(s) % D
  {
    hide BytesValue, Load3, Loaded, Weight;
    var load := Load3(s, 29);
    MoreLoads(s);
    Loaded3(s, 29);
    assert s[..32] == s;
    TopWeights();
    FirstBytesBelow(s);
    LastLimb(s);
    HighBitDropped(BytesValue(s[..29]), load, BytesValue(s));
  }

  lemma LastLimb(s: seq<byte>)
    requires |s| == 32
    ensures Loaded(s)[9] == Load3(s, 29) % 0x80_0000 * 4
  {
  }

  lemma FirstBytesBelow(s: seq<byte>)
    requires |s| == 32
    ensures 0 <= BytesValue(s[..29]) < 4 * TOP && Pow2(8 * 29) == 4 * TOP
  {
    BytesBelow(s, 29);
    TopWeights();
    Pow2Sum(230, 2);
    assert Pow2(2) == 4;
    hide Pow2;
  }

  lemma HighBitDropped(low: int, load: int, v: int)
    requires 0 <= low < 4 * TOP && load >= 0 && v == low + 4 * TOP * load
    ensures v % D == low + TOP * (load % 0x80_0000 * 4)
  {
    FloorBelow(load, 0x80_0000);
    DivideIs(v, D, load / 0x80_0000, low + TOP * (load % 0x80_0000 * 4));
  }

  lemma LoadedBounds(s: seq<byte>)
    requires |s| == 32
    ensures forall k :: 0 <= k < 10 ==> 0 <= Loaded(s)[k] < 0x1_0000_0000
  {
    LoadedLimbs(s);
    LastLimb(s);
    forall k | 0 <= k <= 29
      ensures 0 <= Load3(s, k) < 0x100_0000
    {
      Load3Value(s, k);
    }
    Load4Value(s, 0);
    Load4Value(s, 16);
    hide Load3, Load4, Loaded;
  }

  /** The odd limbs first, from the top one round to limb 0; then the even ones. */
  method LoadCarries(t: array<i64>, ghost v: int)
    requires t.Length == 10 && Congruent(Value(t[..]), v)
    requires forall k :: 0 <= k < 10 ==> 0 <= t[k] < 0x1_0000_0000
    modifies t
    ensures Bounded(t[..], TIGHT)
    ensures Congruent(Value(t[..]), v)
  {
    hide Value, Congruent, Carried;
    OddCarries(t, v);
    EvenCarries(t, v);
  }

  method EvenCarries(t: array<i64>, ghost v: int)
    requires t.Length == 10 && Congruent(Value(t[..]), v)
    requires forall k :: k in {1, 3, 5, 7, 9} ==> Abs(t[k]) <= 0x100_0000
    requires forall k :: k in {0, 2, 4, 6, 8} ==> Abs(t[k]) <= 0x1_0000_2000
    modifies t
    ensures Bounded(t[..], TIGHT)
    ensures Congruent(Value(t[..]), v)
  {
    hide Value, Congruent, Carried;
    CarryLimb(t, 0, 0x100, v);
    CarryLimb(t, 2, 0x100, v);
    CarryLimb(t, 4, 0x100, v);
    CarryLimb(t, 6, 0x100, v);
    CarryLimb(t, 8, 0x100, v);
  }

  method OddCarries(t: array<i64>, ghost v: int)
    requires t.Length == 10 && Congruent(Value(t[..]), v)
    requires forall k :: 0 <= k < 10 ==> 0 <= t[k] < 0x1_0000_0000
    modifies t
    ensures forall k :: k in {1, 3, 5, 7, 9} ==> Abs(t[k]) <= 0x100_0000
    ensures forall k :: k in {0, 2, 4, 6, 8} ==> Abs(t[k]) <= 0x1_0000_2000
    ensures Congruent(Value(t[..]), v)
  {
    hide Value, Congruent, Carried;
    CarryLimb(t, 9, 0x80, v);
    CarryLimb(t, 1, 0x80, v);
    CarryLimb(t, 3, 0x80, v);
    CarryLimb(t, 5, 0x80, v);
    CarryLimb(t, 7, 0x80, v);
  }

  /** The top bit of s is ignored. */
  method FeFromBytes(h: array<i32>, s: seq<byte>)
    requires h.Length == 10 && |s| == 32
    modifies h
    ensures Bounded(h[..], TIGHT)
    ensures Congruent(Value(h[..]), BytesValue(s) % D)
  {
    hide Value, Congruent, Loaded, BytesValue;
    LoadedBounds(s);
    LoadedValue(s);
    var c := Loaded(s);
    var t := new i64[10](k requires 0 <= k < 10 => c[k]);
    assert t[..] == c;
    Reflexive(Value(c));
    LoadCarries(t, BytesValue(s) % D);
    Store(h, t);
  }

  /** Writing what was read gives the number in the low 255 bits, reduced modulo P. */
  method ReadThenWrite(s: array<byte>, input: seq<byte>)
    requires s.Length == 32 && |input| == 32
    modifies s
    ensures BytesValue(s[..]) == BytesValue(input) % D % P
  {
    hide Value, Congruent, BytesValue;
    var h := new i32[10];
    FeFromBytes(h, input);
    TightSerial(h[..]);
    FeToBytes(s, h);
    CongruentIffMod(Value(h[..]), BytesValue(input) % D);
  }

  lemma TightSerial(h: seq<int>)
    requires Bounded(h, TIGHT)
    ensures Bounded(h, SERIAL)
  {
  }
}
