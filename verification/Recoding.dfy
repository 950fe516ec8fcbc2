/** Signed-digit recodings of scalars (lib/ed25519/src/ge.c): slide, and the radix-16 digits of
 *  ge_scalarmult_base. */
module Recoding {
  import opened Words

  // ----- digit strings -----

  /** The value of digits in radix b, least significant first. */
  function Val(b: nat, s: seq<int>): int {
    if s == [] then 0 else s[0] + b * Val(b, s[1..])
  }

  /** b to the power n. */
  function Pow(b: nat, n: nat): int {
    if n == 0 then 1 else b * Pow(b, n - 1)
  }

  lemma {:induction false} PowPositive(b: nat, n: nat)
    requires b > 0
    ensures Pow(b, n) > 0
  {
    if n > 0 {
      PowPositive(b, n - 1);
    }
  }

  lemma {:induction false} ValUpdate(b: nat, s: seq<int>, k: nat, v: int)
    requires k < |s|
    ensures Val(b, s[k := v]) == Val(b, s) + (v - s[k]) * Pow(b, k)
  {
    var t := s[k := v];
    if k == 0 {
      assert t[1..] == s[1..];
    } else {
      assert t[1..] == s[1..][k - 1 := v];
      ValUpdate(b, s[1..], k - 1, v);
      Rescale(b, Val(b, s[1..]), v - s[k], Pow(b, k - 1));
    }
  }

  lemma Rescale(b: int, x: int, d: int, p: int)
    ensures b * (x + d * p) == b * x + d * (b * p)
  {
  }

  lemma {:induction false} ValSplit(b: nat, s: seq<int>, k: nat)
    requires k <= |s|
    ensures Val(b, s) == Val(b, s[..k]) + Pow(b, k) * Val(b, s[k..])
  {
    if k > 0 {
      ValSplit(b, s[1..], k - 1);
      assert s[..k][1..] == s[1..][..k - 1];
      assert s[1..][k - 1..] == s[k..];
      SplitAlgebra(b, s[0], Val(b, s[..k][1..]), Pow(b, k - 1), Val(b, s[k..]));
    } else {
      assert s[0..] == s;
    }
  }

  lemma SplitAlgebra(b: int, x: int, low: int, p: int, high: int)
    ensures x + b * (low + p * high) == x + b * low + (b * p) * high
  {
  }

  // ----- bytes and bits -----

  /** A little-endian number. */
  function BytesValue(a: seq<byte>): nat {
    if a == [] then 0 else a[0] + 256 * BytesValue(a[1..])
  }

  function Bit(a: seq<byte>, i: nat): (r: int)
    requires i / 8 < |a|
    ensures 0 <= r <= 1
  {
    a[i / 8] / Pow2(i % 8) % 2
  }

  function Bits(a: seq<byte>): (r: seq<int>)
    ensures |r| == 8 * |a|
    ensures forall i :: 0 <= i < |r| ==> 0 <= r[i] <= 1
  {
    seq(8 * |a|, i requires 0 <= i < 8 * |a| => Bit(a, i))
  }

  lemma ByteBits(x: byte)
    ensures x == x / 1 % 2 + 2 * (x / 2 % 2) + 4 * (x / 4 % 2) + 8 * (x / 8 % 2)
              + 16 * (x / 16 % 2) + 32 * (x / 32 % 2) + 64 * (x / 64 % 2) + 128 * (x / 128 % 2)
  {
    LowBits(x);
    LowBits(x / 16);
    assert x / 32 == x / 16 / 2 && x / 64 == x / 16 / 4 && x / 128 == x / 16 / 8;
    assert x / 16 / 16 == 0;
  }

  lemma Quarter(x: nat)
    ensures x / 4 == x / 2 / 2
  {
  }

  lemma Eighth(x: nat)
    ensures x / 8 == x / 2 / 4
  {
  }

  lemma Sixteenth(x: nat)
    ensures x / 16 == x / 2 / 8
  {
  }

  lemma LowBits(x: nat)
    ensures x == x / 1 % 2 + 2 * (x / 2 % 2) + 4 * (x / 4 % 2) + 8 * (x / 8 % 2) + 16 * (x / 16)
  {
    var h := x / 2;
    var q := h / 2;
    var e := q / 2;
    Quarter(x);
    Eighth(x);
    Quarter(h);
    Sixteenth(x);
    Eighth(h);
    Quarter(q);
    assert x == x % 2 + 2 * h && h == h % 2 + 2 * q && q == q % 2 + 2 * e && e == e % 2 + 2 * (e / 2);
  }

  lemma SmallPowers()
    ensures Pow2(0) == 1 && Pow2(1) == 2 && Pow2(2) == 4 && Pow2(3) == 8
    ensures Pow2(4) == 16 && Pow2(5) == 32 && Pow2(6) == 64 && Pow2(7) == 128
  {
  }

  lemma EightDigits(s: seq<int>)
    requires |s| >= 8
    ensures Val(2, s) == s[0] + 2 * s[1] + 4 * s[2] + 8 * s[3] + 16 * s[4] + 32 * s[5] + 64 * s[6] + 128 * s[7]
                       + 256 * Val(2, s[8..])
  {
    var s1, s2, s3, s4, s5, s6, s7 := s[1..], s[2..], s[3..], s[4..], s[5..], s[6..], s[7..];
    assert s1[1..] == s2 && s2[1..] == s3 && s3[1..] == s4 && s4[1..] == s5 && s5[1..] == s6 && s6[1..] == s7;
    assert s7[1..] == s[8..];
    assert Val(2, s4) == s[4] + 2 * s[5] + 4 * s[6] + 8 * s[7] + 16 * Val(2, s[8..]) by {
      assert Val(2, s7) == s[7] + 2 * Val(2, s[8..]);
      assert Val(2, s6) == s[6] + 2 * Val(2, s7);
      assert Val(2, s5) == s[5] + 2 * Val(2, s6);
    }
    assert Val(2, s3) == s[3] + 2 * Val(2, s4);
    assert Val(2, s2) == s[2] + 2 * Val(2, s3);
    assert Val(2, s1) == s[1] + 2 * Val(2, s2);
  }

  lemma {:induction false} BitsValue(a: seq<byte>)
    ensures Val(2, Bits(a)) == BytesValue(a)
  {
    if a != [] {
      var s := Bits(a);
      FirstByteBits(a);
      EightDigits(s);
      BitsValue(a[1..]);
    }
  }

  lemma FirstByteBits(a: seq<byte>)
    requires a != []
    ensures var s := Bits(a);
            && s[0] + 2 * s[1] + 4 * s[2] + 8 * s[3] + 16 * s[4] + 32 * s[5] + 64 * s[6] + 128 * s[7] == a[0]
            && s[8..] == Bits(a[1..])
  {
    var s := Bits(a);
    SmallPowers();
    ByteBits(a[0]);
    hide Pow2;
    forall i | 0 <= i < |s| - 8
      ensures s[8..][i] == Bits(a[1..])[i]
    {
      assert (i + 8) / 8 == i / 8 + 1 && (i + 8) % 8 == i % 8;
    }
  }

  // ----- radix 16 with signed digits -----

  lemma {:induction false} NibblesValue(a: seq<byte>, e: seq<int>)
    requires |e| == 2 * |a|
    requires forall i :: 0 <= i < |a| ==> e[2 * i] == a[i] % 16 && e[2 * i + 1] == a[i] / 16
    ensures Val(16, e) == BytesValue(a)
  {
    if a != [] {
      var e1 := e[1..];
      assert e1[1..] == e[2..];
      forall i | 0 <= i < |a| - 1
        ensures e[2..][2 * i] == a[1..][i] % 16 && e[2..][2 * i + 1] == a[1..][i] / 16
      {
        assert e[2..][2 * i] == e[2 * (i + 1)] && e[2..][2 * i + 1] == e[2 * (i + 1) + 1];
      }
      NibblesValue(a[1..], e[2..]);
      assert Val(16, e1) == e[1] + 16 * Val(16, e[2..]);
      assert e[2 * 0] == a[0] % 16 && e[2 * 0 + 1] == a[0] / 16;
    }
  }

  /** The recoding of ge_scalarmult_base: nibbles, then carries that centre them on zero. */
  method SignedNibbles(e: array<int>, a: seq<byte>)
    requires e.Length == 64 && |a| == 32 && a[31] <= 127
    modifies e
    ensures Val(16, e[..]) == BytesValue(a)
    ensures forall k :: 0 <= k < 64 ==> -8 <= e[k] <= 8
  {
    var i := 0;
    while i < 32
      invariant 0 <= i <= 32
      invariant forall k :: 0 <= k < i ==> e[2 * k] == a[k] % 16 && e[2 * k + 1] == a[k] / 16
    {
      e[2 * i] := a[i] % 16;
      e[2 * i + 1] := a[i] / 16 % 16;
      i := i + 1;
    }
    NibblesValue(a, e[..]);
    forall k | 0 <= k < 64
      ensures 0 <= e[k] <= 15
    {
      assert k == 2 * (k / 2) || k == 2 * (k / 2) + 1;
      assert e[2 * (k / 2)] == a[k / 2] % 16 && e[2 * (k / 2) + 1] == a[k / 2] / 16;
    }
    assert e[2 * 31 + 1] == a[31] / 16;
    CentreDigits(e, BytesValue(a));
  }

  /** Pass the carries up: every digit but the last ends in [-8, 7]. */
  method CentreDigits(e: array<int>, ghost value: int)
    requires e.Length == 64 && Val(16, e[..]) == value
    requires (forall k :: 0 <= k < 64 ==> 0 <= e[k] <= 15) && e[63] <= 7
    modifies e
    ensures Val(16, e[..]) == value
    ensures forall k :: 0 <= k < 64 ==> -8 <= e[k] <= 8
  {
    hide Val, Pow;
    var carry := 0;
    var i := 0;
    while i < 63
      invariant 0 <= i <= 63 && 0 <= carry <= 1
      invariant Val(16, e[..]) + carry * Pow(16, i) == value
      invariant forall k :: 0 <= k < i ==> -8 <= e[k] <= 7
      invariant (forall k :: i <= k < 64 ==> 0 <= e[k] <= 15) && e[63] <= 7
    {
      carry := CentreOne(e, i, carry, value);
      i := i + 1;
    }
    ValUpdate(16, e[..], 63, e[63] + carry);
    ghost var s := e[..];
    e[63] := e[63] + carry;
    assert e[..] == s[63 := s[63] + carry];
  }

  method CentreOne(e: array<int>, i: nat, carry: int, ghost value: int) returns (next: int)
    requires e.Length == 64 && i < 63 && 0 <= carry <= 1 && 0 <= e[i] <= 15
    requires Val(16, e[..]) + carry * Pow(16, i) == value
    modifies e
    ensures 0 <= next <= 1 && -8 <= e[i] <= 7
    ensures forall k :: 0 <= k < 64 && k != i ==> e[k] == old(e[k])
    ensures Val(16, e[..]) + next * Pow(16, i + 1) == value
  {
    ghost var s := e[..];
    var d := e[i] + carry;
    next := (d + 8) / 16;
    d := d - next * 16;
    e[i] := d;
    assert e[..] == s[i := d];
    ValUpdate(16, s, i, d);
    assert Pow(16, i + 1) == 16 * Pow(16, i);
    hide Val, Pow;
    CarryMoves(s[i], carry, next, Pow(16, i));
  }

  lemma CarryMoves(x: int, carry: int, next: int, p: int)
    ensures (x + carry - next * 16 - x) * p + next * (16 * p) == carry * p
  {
  }
}
