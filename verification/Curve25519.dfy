/** curve25519_donna as a whole, against the X25519 function of section 5 of RFC 7748. */
module Curve25519 {
  import opened Words
  import opened Bitwise
  import opened Recoding
  import opened Limbs
  import opened FieldChains
  import opened FieldBytes
  import opened DonnaField
  import opened DonnaLadder
  import opened DonnaChain
  import opened DonnaBytes

  /** The scalar as clamped before use. */
  function Clamped(secret: seq<byte>): (e: seq<byte>)
    requires |secret| == 32
    ensures |e| == 32
  {
    ByteAnd(secret[0], 248);
    ByteAnd(secret[31], 127);
    ByteOr(And(secret[31], 127, 8), 64);
    secret[0 := And(secret[0], 248, 8)][31 := Or(And(secret[31], 127, 8), 64, 8)]
  }

  lemma ByteAnd(a: byte, b: byte)
    ensures And(a, b, 8) < 256
  {
    AndBelow(a, b, 8);
    ByteSizes();
  }

  lemma {:induction false} OrBelow(a: nat, b: nat, n: nat)
    ensures Or(a, b, n) < Pow2(n)
  {
    if n > 0 {
      OrBelow(a / 2, b / 2, n - 1);
    }
  }

  lemma ByteOr(a: byte, b: byte)
    ensures Or(a, b, 8) < 256
  {
    OrBelow(a, b, 8);
    ByteSizes();
  }

  /** Masking with the bits below k. */
  lemma {:induction false} AndLow(a: nat, k: nat, n: nat)
    requires k <= n
    ensures And(a, Pow2(k) - 1, n) == a % Pow2(k)
  {
    if k == 0 {
      AndZeroRight(a, n);
    } else {
      AndLow(a / 2, k - 1, n - 1);
      HalfRemainder(a, Pow2(k - 1));
      Halve(Pow2(k) - 1, k);
      assert (Pow2(k) - 1) % 2 == 1 && (Pow2(k) - 1) / 2 == Pow2(k - 1) - 1;
    }
  }

  lemma {:induction false} AndZeroRight(a: nat, n: nat)
    ensures And(a, 0, n) == 0
  {
    if n > 0 {
      AndZeroRight(a / 2, n - 1);
    }
  }

  lemma HalfRemainder(a: nat, m: nat)
    requires m > 0
    ensures a % (2 * m) == a % 2 + 2 * (a / 2 % m)
  {
    RemainderBelow(a / 2, m);
    assert a == a % 2 + 2 * (a / 2);
    DivideIs(a, 2 * m, a / 2 / m, a % 2 + 2 * (a / 2 % m));
  }

  lemma {:induction false} AndOnesRight(a: nat, n: nat)
    requires a < Pow2(n)
    ensures And(a, Pow2(n) - 1, n) == a
  {
    if n > 0 {
      Halve(a, n);
      Halve(Pow2(n) - 1, n);
      AndOnesRight(a / 2, n - 1);
    }
  }

  /** Masking with the bits from k up. */
  lemma {:induction false} AndHigh(a: nat, k: nat, n: nat)
    requires k <= n && a < Pow2(n) && Pow2(k) <= Pow2(n)
    ensures And(a, Pow2(n) - Pow2(k), n) == a - a % Pow2(k)
  {
    if k == 0 {
      AndOnesRight(a, n);
    } else {
      Halve(a, n);
      AndHigh(a / 2, k - 1, n - 1);
      HalfRemainder(a, Pow2(k - 1));
      assert Pow2(n) - Pow2(k) == 2 * (Pow2(n - 1) - Pow2(k - 1));
      hide Pow2;
      AndEven(a, Pow2(n - 1) - Pow2(k - 1), n);
    }
  }

  lemma AndEven(a: nat, b: nat, n: nat)
    requires n > 0
    ensures And(a, 2 * b, n) == 2 * And(a / 2, b, n - 1)
  {
    assert 2 * b / 2 == b && 2 * b % 2 == 0;
  }

  /** Setting the top bit but one, on a byte whose top bit is clear. */
  lemma {:induction false} OrBit(a: nat, k: nat, n: nat)
    requires k < n && a < Pow2(k + 1)
    ensures Or(a, Pow2(k), n) == Pow2(k) + a % Pow2(k)
  {
    if k == 0 {
      OrOne(a, n);
    } else {
      Halve(a, k + 1);
      OrBit(a / 2, k - 1, n - 1);
      HalfRemainder(a, Pow2(k - 1));
      assert Pow2(k) == 2 * Pow2(k - 1);
      hide Pow2;
      OrEven(a, Pow2(k - 1), n);
    }
  }

  lemma OrOne(a: nat, n: nat)
    requires n > 0 && a < Pow2(1)
    ensures Or(a, Pow2(0), n) == Pow2(0) + a % Pow2(0)
  {
    assert a < 2 && 1 / 2 == 0 && a / 2 == 0;
    PowOne();
    OrZero(0, n - 1);
    hide Pow2;
  }

  lemma PowOne()
    ensures Pow2(0) == 1
  {
  }

  lemma OrEven(a: nat, b: nat, n: nat)
    requires n > 0
    ensures Or(a, 2 * b, n) == a % 2 + 2 * Or(a / 2, b, n - 1)
  {
    assert 2 * b / 2 == b && 2 * b % 2 == 0;
  }

  lemma ClampedBytes(secret: seq<byte>)
    requires |secret| == 32
    ensures Clamped(secret)[0] == secret[0] - secret[0] % 8
    ensures Clamped(secret)[31] == 64 + secret[31] % 64
  {
    hide Pow2, And, Or;
    ByteSizes();
    SmallPowers();
    AndHigh(secret[0], 3, 8);
    AndLow(secret[31], 7, 8);
    OrBit(secret[31] % 128, 6, 8);
    FloorBelow(secret[31], 128);
    AddMultiple(secret[31] % 128, secret[31] / 128 * 2, 64);
  }

  /** A multiple of eight between 2^254 and 2^255, that agrees with the secret in between. */
  lemma ClampedScalar(secret: seq<byte>)
    requires |secret| == 32
    ensures BytesValue(Clamped(secret)) % 8 == 0
    ensures Pow2(254) <= BytesValue(Clamped(secret)) < Pow2(255)
    ensures Clamped(secret)[1..31] == secret[1..31]
  {
    var e := Clamped(secret);
    ClampedMiddle(secret);
    ClampedBytes(secret);
    Eightfold(secret[0]);
    hide BytesValue, Pow2, Clamped, And, Or;
    EightfoldBytes(e);
    ClampedTop(e);
  }

  lemma Eightfold(x: nat)
    ensures (x - x % 8) % 8 == 0
  {
  }

  lemma ClampedMiddle(secret: seq<byte>)
    requires |secret| == 32
    ensures Clamped(secret)[1..31] == secret[1..31]
  {
    hide And, Or;
  }

  lemma ClampedTop(e: seq<byte>)
    requires |e| == 32 && 64 <= e[31] < 128
    ensures Pow2(254) <= BytesValue(e) < Pow2(255)
  {
    BytesAppend(e, 31);
    assert e[..32] == e;
    BytesBelow(e, 31);
    Pow2Sum(248, 6);
    Pow2Sum(248, 7);
    SmallPowers();
    hide Pow2, BytesValue;
    TopByteRange(Pow2(248), e[31], BytesValue(e[..31]));
  }

  lemma EightfoldBytes(e: seq<byte>)
    requires |e| == 32 && e[0] % 8 == 0
    ensures BytesValue(e) % 8 == 0
  {
    assert (e[0] + 256 * BytesValue(e[1..])) % 8 == e[0] % 8;
  }

  lemma TopByteRange(p: nat, x: nat, low: nat)
    requires 64 <= x < 128 && low < p
    ensures p * 64 <= low + p * x < p * 128
  {
    NonNegative(p, x - 64);
    NonNegative(p, 127 - x);
    assert p * (x - 64) == p * x - p * 64 && p * (127 - x) == p * 127 - p * x;
  }

  // ----- the function -----

  /** The ladder over all 256 bits, then division in the field by a power, as in section 5 of RFC 7748. */
  function X25519(k: seq<byte>, u: int): int {
    var r := RfcLadder(u, TopBits(k));
    r.x2 * Power(r.z2, P - 2) % P
  }

  lemma {:induction false} PowerCongruent(a: int, b: int, n: nat)
    requires Congruent(a, b)
    ensures Congruent(Power(a, n), Power(b, n))
  {
    hide Congruent;
    if n == 0 {
      Reflexive(1);
    } else {
      PowerCongruent(a, b, n - 1);
      CongruentProduct(a, b, Power(a, n - 1), Power(b, n - 1));
    }
  }

  method Curve25519Donna(mypublic: array<byte>, secret: seq<byte>, basepoint: seq<byte>)
    requires mypublic.Length == 32 && |secret| == 32 && |basepoint| == 32
    modifies mypublic
    ensures BytesValue(mypublic[..]) == X25519(Clamped(secret), BytesValue(basepoint) % D)
  {
    hide Value, Congruent, Power, Ladder, RfcLadder, TopBits, Clamped, BytesValue, X25519;
    var e := Clamped(secret);
    var bp, x, z, zmone := new i64[10], new i64[10], new i64[11], new i64[10];
    FExpand(bp, basepoint);
    ghost var u := BytesValue(basepoint) % D;
    ghost var r := Ladder(u, TopBits(e));
    CMult(x, z, e, bp);
    ghost var xv, zv := Held(x), Held(z);
    CRecip(zmone, z);
    ghost var iv := Held(zmone);
    WiderFits(x);
    WiderFits(zmone);
    FMul(z, x, zmone);
    QuotientHolds(Held(z), xv, zv, iv, r);
    FContract(mypublic, z);
    X25519Is(e, u, Held(z));
  }

  lemma WiderFits(a: array<i64>)
    requires Fits(a, BELOW26)
    ensures Fits(a, BELOW27)
  {
  }

  lemma QuotientHolds(q: int, x: int, z: int, inverse: int, r: Rungs)
    requires Congruent(x, r.x2) && Congruent(z, r.z2) && Congruent(inverse, Power(z, P - 2))
    requires Congruent(q, x * inverse)
    ensures Congruent(q, r.x2 * Power(r.z2, P - 2))
  {
    hide Congruent, Power;
    PowerCongruent(z, r.z2, P - 2);
    Transitive(inverse, Power(z, P - 2), Power(r.z2, P - 2));
    CongruentProduct(x, r.x2, inverse, Power(r.z2, P - 2));
    Transitive(q, x * inverse, r.x2 * Power(r.z2, P - 2));
  }

  lemma X25519Is(k: seq<byte>, u: int, q: int)
    requires var r := Ladder(u, TopBits(k)); Congruent(q, r.x2 * Power(r.z2, P - 2))
    ensures q % P == X25519(k, u)
  {
    hide Congruent, Power, Ladder, RfcLadder, TopBits;
    LadderIsRfc(u, TopBits(k));
    var r := Ladder(u, TopBits(k));
    CongruentIffMod(q, r.x2 * Power(r.z2, P - 2));
  }
}
