/** Unpadded base64 (src/base64.cpp), on one memory that input and output may share. */
module Base64 {
  import opened Words
  import opened Bitwise

  // ----- the alphabet -----

  /** The table ENCODE_BASE64. */
  function EncodeDigit(d: nat): (c: byte)
    requires d < 64
    ensures c < 128
  {
    if d < 26 then 0x41 + d
    else if d < 52 then 0x61 + (d - 26)
    else if d < 62 then 0x30 + (d - 52)
    else if d == 62 then 0x2B
    else 0x2F
  }

  /** The table DECODE_BASE64, after the mask with 0x7F; 255 stands for no digit. */
  function DecodeDigit(c: byte): (d: byte)
  {
    var x := c % 128;
    if 0x41 <= x <= 0x5A then x - 0x41
    else if 0x61 <= x <= 0x7A then x - 0x61 + 26
    else if 0x30 <= x <= 0x39 then x - 0x30 + 52
    else if x == 0x2B then 62
    else if x == 0x2F then 63
    else 255
  }

  lemma DigitRoundTrip(d: nat)
    requires d < 64
    ensures DecodeDigit(EncodeDigit(d)) == d
  {
  }

  /** A character of the alphabet. */
  ghost predicate IsDigit(c: byte) { c < 128 && DecodeDigit(c) < 64 }

  lemma CharRoundTrip(c: byte)
    requires IsDigit(c)
    ensures EncodeDigit(DecodeDigit(c)) == c
  {
  }

  // ----- lengths -----

  function EncodedLength(n: nat): nat { 4 * ((n + 2) / 3) + (n + 2) % 3 - 2 }

  /** None where the source returns size_t(-1). */
  function DecodedLength(n: nat): Option<nat> {
    if n % 4 == 1 then None else Some(3 * ((n + 2) / 4) + (n + 2) % 4 - 2)
  }

  /** In terms of whole groups and what is left over. */
  lemma LengthsByGroup(q: nat, r: nat)
    ensures r < 3 ==> EncodedLength(3 * q + r) == 4 * q + if r == 0 then 0 else r + 1
    ensures r < 4 && r != 1 ==> DecodedLength(4 * q + r) == Some(3 * q + if r == 0 then 0 else r - 1)
    ensures DecodedLength(4 * q + 1) == None
  {
    if r < 3 {
      EncodedByGroup(q, r);
    }
    if r < 4 {
      DecodedByGroup(q, r);
    }
    DecodedByGroup(q, 1);
    hide EncodedLength, DecodedLength;
  }

  lemma EncodedByGroup(q: nat, r: nat)
    requires r < 3
    ensures EncodedLength(3 * q + r) == 4 * q + if r == 0 then 0 else r + 1
  {
    var n := 3 * q + r + 2;
    if r == 0 {
      DivideIs(n, 3, q, 2);
    } else {
      DivideIs(n, 3, q + 1, r - 1);
    }
  }

  lemma DecodedByGroup(q: nat, r: nat)
    requires r < 4
    ensures DecodedLength(4 * q + r) == if r == 1 then None else Some(3 * q + if r == 0 then 0 else r - 1)
  {
    var n := 4 * q + r + 2;
    DivideIs(4 * q + r, 4, q, r);
    if r == 0 {
      DivideIs(n, 4, q, 2);
    } else if r > 1 {
      DivideIs(n, 4, q + 1, r - 2);
    }
  }

  lemma LengthRoundTrip(n: nat)
    ensures DecodedLength(EncodedLength(n)) == Some(n)
  {
    LengthsByGroup(n / 3, n % 3);
    LengthsByGroup(n / 3, if n % 3 == 0 then 0 else n % 3 + 1);
    hide EncodedLength, DecodedLength;
  }

  // ----- what is encoded: section 4 of RFC 4648, without the padding -----

  /** Byte i, or zero past the end. */
  function ByteAt(raw: seq<byte>, i: nat): byte { if i < |raw| then raw[i] else 0 }

  /** The 24 bits of group q, filled up with zeros on the right. */
  function Group(raw: seq<byte>, q: nat): nat {
    (ByteAt(raw, 3 * q) as int) * 0x1_0000 + (ByteAt(raw, 3 * q + 1) as int) * 256 + ByteAt(raw, 3 * q + 2)
  }

  /** Six bits of a group, the leftmost first. */
  function Sextet(v: nat, j: nat): (d: nat)
    ensures d < 64
  {
    (if j == 0 then v / 0x4_0000 else if j == 1 then v / 0x1000 else if j == 2 then v / 64 else v) % 64
  }

  function Encoded(raw: seq<byte>): (s: seq<byte>)
    ensures |s| == EncodedLength(|raw|)
    ensures forall k :: 0 <= k < |s| ==> s[k] == EncodeDigit(Sextet(Group(raw, k / 4), k % 4))
  {
    seq(EncodedLength(|raw|), k requires k >= 0 => EncodeDigit(Sextet(Group(raw, k / 4), k % 4)))
  }

  // ----- what is decoded -----

  function DigitAt(s: seq<byte>, i: nat): byte { if i < |s| then DecodeDigit(s[i]) else 0 }

  /** Four digits put together as the source does, with ors that overlap where there is no digit. */
  function Joined(d0: nat, d1: nat, d2: nat, d3: nat): nat {
    Or(Or(Or(d0 * 64, d1, 32) * 64, d2, 32) * 64, d3, 32)
  }

  function Quad(s: seq<byte>, q: nat): nat {
    Joined(DigitAt(s, 4 * q), DigitAt(s, 4 * q + 1), DigitAt(s, 4 * q + 2), DigitAt(s, 4 * q + 3))
  }

  /** Eight bits of a group, the leftmost first. */
  function Octet(v: nat, j: nat): byte {
    (if j == 0 then v / 0x1_0000 else if j == 1 then v / 256 else v) % 256
  }

  function Decoded(s: seq<byte>): (r: Option<seq<byte>>)
    ensures DecodedLength(|s|) == None <==> r == None
    ensures r != None ==> Some(|r.value|) == DecodedLength(|s|)
    ensures r != None ==> forall k :: 0 <= k < |r.value| ==> r.value[k] == Octet(Quad(s, k / 3), k % 3)
  {
    match DecodedLength(|s|)
    case None => None
    case Some(n) => Some(seq(n, k requires k >= 0 => Octet(Quad(s, k / 3), k % 3)))
  }

  // ----- the round trip -----

  lemma SixBits()
    ensures Pow2(6) == 64 && Pow2(32) == TWO32
  {
    WordSize();
  }

  lemma JoinedDigits(d0: nat, d1: nat, d2: nat, d3: nat)
    requires d0 < 64 && d1 < 64 && d2 < 64 && d3 < 64
    ensures Joined(d0, d1, d2, d3) == d0 * 0x4_0000 + d1 * 0x1000 + d2 * 64 + d3
  {
    SixBits();
    hide Pow2;
    OrLow(d0, d1);
    OrLow(d0 * 64 + d1, d2);
    OrLow(d0 * 0x1000 + d1 * 64 + d2, d3);
    hide Or;
  }

  lemma OrLow(a: nat, d: nat)
    requires a < 0x100_0000 && d < 64
    ensures Or(a * 64, d, 32) == a * 64 + d
  {
    SixBits();
    hide Pow2;
    OrDisjoint(d, a, 6, 32);
    OrCommutes(d, a * 64, 32);
  }

  lemma {:induction false} OrCommutes(a: nat, b: nat, n: nat)
    ensures Or(a, b, n) == Or(b, a, n)
  {
    if n > 0 {
      OrCommutes(a / 2, b / 2, n - 1);
    }
  }

  lemma SextetsMakeGroup(v: nat)
    requires v < 0x100_0000
    ensures Sextet(v, 0) * 0x4_0000 + Sextet(v, 1) * 0x1000 + Sextet(v, 2) * 64 + Sextet(v, 3) == v
  {
    assert v / 64 / 64 == v / 0x1000 && v / 0x1000 / 64 == v / 0x4_0000;
  }

  lemma OctetsMakeGroup(a: byte, b: byte, c: byte)
    ensures Octet((a as int) * 0x1_0000 + (b as int) * 256 + c, 0) == a
    ensures Octet((a as int) * 0x1_0000 + (b as int) * 256 + c, 1) == b
    ensures Octet((a as int) * 0x1_0000 + (b as int) * 256 + c, 2) == c
  {
    var v := (a as int) * 0x1_0000 + (b as int) * 256 + c;
    assert v / 256 == (a as int) * 256 + b;
    assert v / 0x1_0000 == a;
  }

  /** Digit j of group q was encoded, or is one of the zeros the group was filled up with. */
  lemma EncodedDigit(raw: seq<byte>, q: nat, j: nat)
    requires 3 * q < |raw| && j < 4
    ensures DigitAt(Encoded(raw), 4 * q + j) == Sextet(Group(raw, q), j)
  {
    var n, k := |raw|, 4 * q + j;
    LengthsByGroup(n / 3, n % 3);
    assert k / 4 == q && k % 4 == j;
    hide Sextet, Group, Encoded;
    if k < EncodedLength(n) {
      DigitRoundTrip(Sextet(Group(raw, q), j));
    } else {
      FillDigit(raw, q, j);
    }
  }

  lemma FillDigit(raw: seq<byte>, q: nat, j: nat)
    requires 3 * q < |raw| < 3 * q + 3 && j < 4 && (if |raw| == 3 * q + 1 then j >= 2 else j == 3)
    ensures Sextet(Group(raw, q), j) == 0
  {
    var a, b := (ByteAt(raw, 3 * q) as int), (ByteAt(raw, 3 * q + 1) as int);
    assert Group(raw, q) == a * 0x1_0000 + b * 256;
    assert (a * 0x1_0000 + b * 256) % 64 == 0;
    assert |raw| == 3 * q + 1 ==> a * 0x1_0000 / 64 == a * 0x400;
  }

  lemma GroupBelow(raw: seq<byte>, q: nat)
    ensures Group(raw, q) < 0x100_0000
  {
  }

  lemma QuadIsGroup(raw: seq<byte>, q: nat)
    requires 3 * q < |raw|
    ensures Quad(Encoded(raw), q) == Group(raw, q)
  {
    hide Group, Sextet, Encoded, Joined, DigitAt;
    EncodedDigit(raw, q, 0);
    EncodedDigit(raw, q, 1);
    EncodedDigit(raw, q, 2);
    EncodedDigit(raw, q, 3);
    var v := Group(raw, q);
    GroupBelow(raw, q);
    JoinedDigits(Sextet(v, 0), Sextet(v, 1), Sextet(v, 2), Sextet(v, 3));
    SextetsMakeGroup(v);
  }

  lemma OctetOfGroup(raw: seq<byte>, k: nat)
    requires k < |raw|
    ensures Octet(Group(raw, k / 3), k % 3) == raw[k]
  {
    var q := k / 3;
    OctetsMakeGroup(ByteAt(raw, 3 * q), ByteAt(raw, 3 * q + 1), ByteAt(raw, 3 * q + 2));
    hide Octet;
    assert k == 3 * q || k == 3 * q + 1 || k == 3 * q + 2;
  }

  /** Decoding undoes encoding, for every byte string. */
  lemma RoundTrip(raw: seq<byte>)
    ensures Decoded(Encoded(raw)) == Some(raw)
  {
    hide *;
    DecodedIsSome(raw);
    forall k | 0 <= k < |raw|
      ensures Decoded(Encoded(raw)).value[k] == raw[k]
    {
      DecodedAt(raw, k);
    }
    assert Decoded(Encoded(raw)).value == raw;
  }

  lemma DecodedIsSome(raw: seq<byte>)
    ensures Decoded(Encoded(raw)) != None && |Decoded(Encoded(raw)).value| == |raw|
  {
    LengthRoundTrip(|raw|);
    hide EncodedLength, DecodedLength;
  }

  lemma DecodedAt(raw: seq<byte>, k: nat)
    requires k < |raw| && Decoded(Encoded(raw)) != None && |Decoded(Encoded(raw)).value| == |raw|
    ensures Decoded(Encoded(raw)).value[k] == raw[k]
  {
    hide *;
    DecodedByte(Encoded(raw), k);
    QuadIsGroup(raw, k / 3);
    OctetOfGroup(raw, k);
  }

  lemma DecodedByte(s: seq<byte>, k: nat)
    requires Decoded(s) != None && k < |Decoded(s).value|
    ensures Decoded(s).value[k] == Octet(Quad(s, k / 3), k % 3)
  {
    hide Octet, Quad, DecodedLength;
  }

  // ----- when encoding undoes decoding -----

  /** The bits of the last character that no byte takes are zero. */
  ghost predicate NoStrayBits(s: seq<byte>) {
    && (|s| % 4 == 2 ==> DecodeDigit(s[|s| - 1]) % 16 == 0)
    && (|s| % 4 == 3 ==> DecodeDigit(s[|s| - 1]) % 4 == 0)
  }

  ghost predicate AllDigits(s: seq<byte>) {
    forall k :: 0 <= k < |s| ==> IsDigit(s[k])
  }

  lemma DigitsBelow(s: seq<byte>, i: nat)
    requires AllDigits(s)
    ensures DigitAt(s, i) < 64
  {
  }

  lemma QuadOfDigits(s: seq<byte>, q: nat)
    requires AllDigits(s)
    ensures Quad(s, q) == (DigitAt(s, 4 * q) as int) * 0x4_0000 + (DigitAt(s, 4 * q + 1) as int) * 0x1000
                          + (DigitAt(s, 4 * q + 2) as int) * 64 + DigitAt(s, 4 * q + 3) < 0x100_0000
  {
    hide Joined, DigitAt;
    DigitsBelow(s, 4 * q);
    DigitsBelow(s, 4 * q + 1);
    DigitsBelow(s, 4 * q + 2);
    DigitsBelow(s, 4 * q + 3);
    JoinedDigits(DigitAt(s, 4 * q), DigitAt(s, 4 * q + 1), DigitAt(s, 4 * q + 2), DigitAt(s, 4 * q + 3));
  }

  lemma SextetOfDigits(d0: nat, d1: nat, d2: nat, d3: nat)
    requires d0 < 64 && d1 < 64 && d2 < 64 && d3 < 64
    ensures var v := d0 * 0x4_0000 + d1 * 0x1000 + d2 * 64 + d3;
      Sextet(v, 0) == d0 && Sextet(v, 1) == d1 && Sextet(v, 2) == d2 && Sextet(v, 3) == d3
  {
    var v := d0 * 0x4_0000 + d1 * 0x1000 + d2 * 64 + d3;
    assert v / 64 == d0 * 0x1000 + d1 * 64 + d2;
    assert v / 0x1000 == d0 * 64 + d1;
    assert v / 0x4_0000 == d0;
  }

  /** What survives of a group when only its first b bytes are kept. */
  function Kept(v: nat, b: nat): nat {
    if b == 1 then v / 0x1_0000 * 0x1_0000 else if b == 2 then v / 256 * 256 else v
  }

  /** The group of the decoded bytes is the quad, less its stray bits. */
  lemma GroupOfDecoded(s: seq<byte>, q: nat, b: nat)
    requires AllDigits(s) && Decoded(s) != None
    requires 1 <= b <= 3 && 3 * q + b <= |Decoded(s).value| && (b < 3 ==> 3 * q + b == |Decoded(s).value|)
    ensures Group(Decoded(s).value, q) == Kept(Quad(s, q), b)
  {
    var r, v := Decoded(s).value, Quad(s, q);
    QuadOfDigits(s, q);
    OctetsOf(v);
    hide Quad, Decoded, DecodedLength, Octet;
    ThirdsOf(q);
    DecodedByte(s, 3 * q);
    if b > 1 {
      DecodedByte(s, 3 * q + 1);
    }
    if b > 2 {
      DecodedByte(s, 3 * q + 2);
    }
  }

  lemma ThirdsOf(q: nat)
    ensures 3 * q / 3 == q && (3 * q + 1) / 3 == q && (3 * q + 2) / 3 == q
    ensures 3 * q % 3 == 0 && (3 * q + 1) % 3 == 1 && (3 * q + 2) % 3 == 2
  {
  }

  lemma OctetsOf(v: nat)
    requires v < 0x100_0000
    ensures (Octet(v, 0) as int) * 0x1_0000 == v / 0x1_0000 * 0x1_0000
    ensures (Octet(v, 0) as int) * 0x1_0000 + (Octet(v, 1) as int) * 256 == v / 256 * 256
    ensures (Octet(v, 0) as int) * 0x1_0000 + (Octet(v, 1) as int) * 256 + Octet(v, 2) == v
  {
    assert v / 256 / 256 == v / 0x1_0000;
  }

  /** The digits of a group after its stray bits are gone. */
  lemma KeptDigits(d0: nat, d1: nat, d2: nat, d3: nat, b: nat)
    requires d0 < 64 && d1 < 64 && d2 < 64 && d3 < 64 && 1 <= b <= 3
    requires (b < 3 ==> d3 == 0) && (b < 2 ==> d2 == 0)
    ensures var v := Kept(d0 * 0x4_0000 + d1 * 0x1000 + d2 * 64 + d3, b);
      && Sextet(v, 0) == d0
      && Sextet(v, 1) == (if b == 1 then d1 - d1 % 16 else d1)
      && (b >= 2 ==> Sextet(v, 2) == if b == 2 then d2 - d2 % 4 else d2)
      && (b == 3 ==> Sextet(v, 3) == d3)
  {
    if b == 1 {
      assert (d0 * 0x4_0000 + d1 * 0x1000) / 0x1_0000 == d0 * 4 + d1 / 16;
      SextetOfDigits(d0, d1 - d1 % 16, 0, 0);
    } else if b == 2 {
      assert (d0 * 0x4_0000 + d1 * 0x1000 + d2 * 64) / 256 == d0 * 0x400 + d1 * 16 + d2 / 4;
      SextetOfDigits(d0, d1, d2 - d2 % 4, 0);
    } else {
      SextetOfDigits(d0, d1, d2, d3);
    }
    hide Sextet;
  }

  /** How many bytes come of the group that character k is in. */
  function BytesOfGroup(n: nat, k: nat): int {
    if k / 4 * 4 + 4 <= n then 3 else n % 4 - 1
  }

  /** Character k again, less the bits that no byte took. */
  function Again(s: seq<byte>, k: nat): nat
    requires k < |s|
  {
    var d, b := DigitAt(s, k), BytesOfGroup(|s|, k);
    if b == 1 && k % 4 == 1 then d - d % 16 else if b == 2 && k % 4 == 2 then d - d % 4 else d
  }

  lemma GroupSizes(n: nat, k: nat)
    requires k < n && n % 4 != 1
    ensures DecodedLength(n) != None
    ensures var b, m := BytesOfGroup(n, k), DecodedLength(n).value;
      1 <= b <= 3 && 3 * (k / 4) + b <= m
      && (b < 3 ==> 3 * (k / 4) + b == m && k / 4 == n / 4 && k % 4 <= b && n % 4 == b + 1)
    ensures EncodedLength(DecodedLength(n).value) == n
  {
    LengthsByGroup(n / 4, n % 4);
    LengthsByGroup(n / 4, if n % 4 == 0 then 0 else n % 4 - 1);
    RemainderBelow(n, 4);
    RemainderBelow(k, 4);
    hide EncodedLength, DecodedLength, BytesOfGroup;
    GroupPlace(n, k, n / 4, n % 4, k / 4, k % 4);
  }

  lemma GroupPlace(n: nat, k: nat, q: nat, r: nat, g: nat, j: nat)
    requires k < n && n == q * 4 + r && r < 4 && r != 1 && k == g * 4 + j && j < 4
    requires n % 4 == r && k / 4 == g
    ensures var b, m := BytesOfGroup(n, k), 3 * q + if r == 0 then 0 else r - 1;
      1 <= b <= 3 && 3 * g + b <= m && (b < 3 ==> 3 * g + b == m && g == q && j <= b && r == b + 1)
  {
  }

  lemma EncodedAgain(s: seq<byte>, k: nat)
    requires AllDigits(s) && |s| % 4 != 1 && k < |s|
    ensures Decoded(s) != None && |Encoded(Decoded(s).value)| == |s|
    ensures Again(s, k) < 64 && Encoded(Decoded(s).value)[k] == EncodeDigit(Again(s, k))
  {
    hide *;
    AgainLengths(s);
    KeptSextet(s, k);
    EncodedCharacter(Decoded(s).value, k);
    DecodedGroup(s, k);
  }

  lemma AgainLengths(s: seq<byte>)
    requires |s| % 4 != 1
    ensures Decoded(s) != None && |Encoded(Decoded(s).value)| == |s|
  {
    hide EncodedLength, DecodedLength, Encoded, Decoded, Quad, Octet, Group, Sextet;
    LengthsByGroup(|s| / 4, |s| % 4);
    LengthsByGroup(|s| / 4, if |s| % 4 == 0 then 0 else |s| % 4 - 1);
  }

  lemma EncodedCharacter(raw: seq<byte>, k: nat)
    requires k < |Encoded(raw)|
    ensures Encoded(raw)[k] == EncodeDigit(Sextet(Group(raw, k / 4), k % 4))
  {
    hide EncodeDigit, Sextet, Group, EncodedLength;
  }

  lemma DecodedGroup(s: seq<byte>, k: nat)
    requires AllDigits(s) && |s| % 4 != 1 && k < |s| && Decoded(s) != None
    ensures 1 <= BytesOfGroup(|s|, k) <= 3
    ensures Group(Decoded(s).value, k / 4) == Kept(Quad(s, k / 4), BytesOfGroup(|s|, k))
  {
    hide EncodedLength, DecodedLength, Decoded, Quad, Kept, Group, BytesOfGroup;
    GroupSizes(|s|, k);
    GroupOfDecoded(s, k / 4, BytesOfGroup(|s|, k));
  }

  lemma KeptSextet(s: seq<byte>, k: nat)
    requires AllDigits(s) && |s| % 4 != 1 && k < |s|
    ensures 1 <= BytesOfGroup(|s|, k) <= 3
    ensures Again(s, k) < 64
    ensures Sextet(Kept(Quad(s, k / 4), BytesOfGroup(|s|, k)), k % 4) == Again(s, k)
  {
    var q, b := k / 4, BytesOfGroup(|s|, k);
    GroupSizes(|s|, k);
    QuadOfDigits(s, q);
    DigitsBelow(s, 4 * q);
    DigitsBelow(s, 4 * q + 1);
    DigitsBelow(s, 4 * q + 2);
    DigitsBelow(s, 4 * q + 3);
    hide Quad, Kept, Sextet, DecodeDigit, EncodedLength, DecodedLength;
    KeptDigits(DigitAt(s, 4 * q), DigitAt(s, 4 * q + 1), DigitAt(s, 4 * q + 2), DigitAt(s, 4 * q + 3), b);
    assert k == 4 * q + k % 4;
  }

  lemma SameCharacter(c: byte, d: nat)
    requires IsDigit(c) && d < 64
    ensures EncodeDigit(d) == c <==> d == DecodeDigit(c)
  {
    CharRoundTrip(c);
    DigitRoundTrip(d);
    hide EncodeDigit, DecodeDigit;
  }

  /** Encoding gives back the characters that were decoded just when each of them is a digit and no bits
   *  were dropped. Decoding accepts others as well. */
  lemma EncodeUndoesDecodeIff(s: seq<byte>)
    requires |s| % 4 != 1
    ensures Decoded(s) != None
    ensures Encoded(Decoded(s).value) == s <==> AllDigits(s) && NoStrayBits(s)
  {
    hide Encoded, Decoded, AllDigits, NoStrayBits, EncodedLength, DecodedLength;
    AgainLengths(s);
    EncodedIsDigits(Decoded(s).value);
    if AllDigits(s) {
      DigitsUndoneIff(s);
    }
  }

  lemma EncodedIsDigits(raw: seq<byte>)
    ensures AllDigits(Encoded(raw))
  {
    hide EncodedLength, Group, Sextet, EncodeDigit, DecodeDigit;
    forall k | 0 <= k < |Encoded(raw)|
      ensures IsDigit(Encoded(raw)[k])
    {
      DigitRoundTrip(Sextet(Group(raw, k / 4), k % 4));
    }
  }

  /** The last of these two characters has a bit that no byte takes: "QR" is decoded as "QQ" is. */
  lemma StrayBit()
    ensures var s := [0x51, 0x52];
      AllDigits(s) && !NoStrayBits(s) && Decoded(s) != None && Encoded(Decoded(s).value) != s
  {
    var s: seq<byte> := [0x51, 0x52];
    StrayPair();
    hide *;
    EncodeUndoesDecodeIff(s);
  }

  lemma StrayPair()
    ensures AllDigits([0x51, 0x52]) && !NoStrayBits([0x51, 0x52])
  {
    assert DecodeDigit(0x51) == 16 && DecodeDigit(0x52) == 17;
  }

  /** No character of "====" is a digit, nor is the first one of the other, whose top bit is ignored. */
  lemma ForeignCharacters()
    ensures var s := [0x3D, 0x3D, 0x3D, 0x3D];
      !AllDigits(s) && NoStrayBits(s) && Decoded(s) != None && Encoded(Decoded(s).value) != s
    ensures var s := [0xC1, 0x41, 0x41, 0x41];
      !AllDigits(s) && NoStrayBits(s) && Decoded(s) != None && Encoded(Decoded(s).value) != s
  {
    var s: seq<byte>, t: seq<byte> := [0x3D, 0x3D, 0x3D, 0x3D], [0xC1, 0x41, 0x41, 0x41];
    NoDigitFirst(s);
    NoDigitFirst(t);
    hide *;
    EncodeUndoesDecodeIff(s);
    EncodeUndoesDecodeIff(t);
  }

  lemma NoDigitFirst(s: seq<byte>)
    requires |s| == 4 && (s[0] == 0x3D || s[0] == 0xC1)
    ensures !AllDigits(s) && NoStrayBits(s)
  {
    assert !IsDigit(s[0]);
    hide DecodeDigit;
  }

  lemma DigitsUndoneIff(s: seq<byte>)
    requires AllDigits(s) && |s| % 4 != 1
    ensures Decoded(s) != None
    ensures Encoded(Decoded(s).value) == s <==> NoStrayBits(s)
  {
    hide Encoded, Decoded, Again, EncodeDigit, DecodeDigit, EncodedLength, DecodedLength;
    forall k | 0 <= k < |s|
      ensures Decoded(s) != None && |Encoded(Decoded(s).value)| == |s|
      ensures Encoded(Decoded(s).value)[k] == s[k] <==> Again(s, k) == DecodeDigit(s[k])
    {
      EncodedAgain(s, k);
      SameCharacter(s[k], Again(s, k));
    }
    AgainIff(s);
    EmptyDecodes();
    if NoStrayBits(s) {
      assert Encoded(Decoded(s).value) == s;
    }
  }

  lemma EmptyDecodes()
    ensures Decoded([]) != None && Encoded(Decoded([]).value) == []
  {
  }

  lemma AgainIff(s: seq<byte>)
    requires AllDigits(s) && |s| % 4 != 1
    ensures (forall k :: 0 <= k < |s| ==> Again(s, k) == DecodeDigit(s[k])) <==> NoStrayBits(s)
  {
    hide DecodeDigit, Again, NoStrayBits, AllDigits;
    if |s| > 0 {
      AgainLast(s);
      forall k | 0 <= k < |s| - 1
        ensures Again(s, k) == DecodeDigit(s[k])
      {
        AgainEarlier(s, k);
      }
    } else {
      NoneStray(s);
    }
  }

  lemma NoneStray(s: seq<byte>)
    requires s == []
    ensures NoStrayBits(s)
  {
  }

  lemma AgainLast(s: seq<byte>)
    requires s != [] && |s| % 4 != 1
    ensures Again(s, |s| - 1) == DecodeDigit(s[|s| - 1]) <==> NoStrayBits(s)
  {
    hide DecodeDigit;
  }

  lemma AgainEarlier(s: seq<byte>, k: nat)
    requires k < |s| - 1 && |s| % 4 != 1
    ensures Again(s, k) == DecodeDigit(s[k])
  {
    hide DecodeDigit;
  }

  // ----- on memory that input and output share -----

  /** The output does not reach input that is yet to be read: it lies elsewhere, or the input ends at
   *  the end of the output or beyond. */
  ghost predicate EncodeOverlap(input: nat, n: nat, output: nat) {
    || input + n <= output
    || input + n >= output + EncodedLength(n)
  }

  /** Character k of the encoding of raw. */
  function CharAt(raw: seq<byte>, k: nat): byte { EncodeDigit(Sextet(Group(raw, k / 4), k % 4)) }

  /** The four characters of a whole group. */
  method EncodeGroup(mem: array<byte>, pos: nat, output: nat, ghost raw: seq<byte>, ghost q: nat)
    requires pos + 3 <= mem.Length && output + 4 <= mem.Length
    requires 3 * q + 3 <= |raw|
    requires mem[pos] == raw[3 * q] && mem[pos + 1] == raw[3 * q + 1] && mem[pos + 2] == raw[3 * q + 2]
    modifies mem
    ensures mem[output] == CharAt(raw, 4 * q) && mem[output + 1] == CharAt(raw, 4 * q + 1)
    ensures mem[output + 2] == CharAt(raw, 4 * q + 2) && mem[output + 3] == CharAt(raw, 4 * q + 3)
    ensures forall i :: 0 <= i < mem.Length && !(output <= i < output + 4) ==> mem[i] == old(mem[i])
  {
    GroupShifts(raw, q);
    hide EncodeDigit, Sextet, Group;
    var value := ((mem[pos] as int) * 256 + mem[pos + 1]) * 256 + mem[pos + 2];
    mem[output + 3] := EncodeDigit(value % 64);
    value := value / 64;
    mem[output + 2] := EncodeDigit(value % 64);
    value := value / 64;
    mem[output + 1] := EncodeDigit(value % 64);
    value := value / 64;
    mem[output] := EncodeDigit(value);
  }

  lemma GroupShifts(raw: seq<byte>, q: nat)
    ensures var v := Group(raw, q);
      && v == ((ByteAt(raw, 3 * q) as int) * 256 + ByteAt(raw, 3 * q + 1)) * 256 + ByteAt(raw, 3 * q + 2)
      && v % 64 == Sextet(v, 3) && v / 64 % 64 == Sextet(v, 2) && v / 64 / 64 % 64 == Sextet(v, 1)
      && v / 64 / 64 / 64 == Sextet(v, 0)
    ensures 4 * q / 4 == q && 4 * q % 4 == 0 && (4 * q + 1) / 4 == q && (4 * q + 1) % 4 == 1
    ensures (4 * q + 2) / 4 == q && (4 * q + 2) % 4 == 2 && (4 * q + 3) / 4 == q && (4 * q + 3) % 4 == 3
  {
    var v := Group(raw, q);
    assert v < 0x100_0000;
    assert v / 64 / 64 == v / 0x1000 && v / 0x1000 / 64 == v / 0x4_0000;
  }

  /** The two or three characters of the bytes left over. */
  method EncodeRest(mem: array<byte>, pos: nat, output: nat, remainder: nat, ghost raw: seq<byte>, ghost q: nat)
    requires 1 <= remainder <= 2 && pos + remainder <= mem.Length && output + remainder + 1 <= mem.Length
    requires |raw| == 3 * q + remainder && mem[pos] == raw[3 * q] && (remainder == 2 ==> mem[pos + 1] == raw[3 * q + 1])
    modifies mem
    ensures mem[output] == CharAt(raw, 4 * q) && mem[output + 1] == CharAt(raw, 4 * q + 1)
    ensures remainder == 2 ==> mem[output + 2] == CharAt(raw, 4 * q + 2)
    ensures forall i :: 0 <= i < mem.Length && !(output <= i < output + remainder + 1) ==> mem[i] == old(mem[i])
  {
    GroupShifts(raw, q);
    hide EncodeDigit, Sextet, Group;
    var value: int := mem[pos];
    if remainder == 2 {
      value := value * 256 + mem[pos + 1];
      value := value * 4;
      ShortShifts(value);
      mem[output + 2] := EncodeDigit(value % 64);
      value := value / 64;
    } else {
      value := value * 16;
      ShorterShifts(value);
    }
    mem[output + 1] := EncodeDigit(value % 64);
    value := value / 64;
    mem[output] := EncodeDigit(value);
  }

  lemma ShortShifts(x: nat)
    ensures x * 64 / 64 == x
  {
  }

  lemma ShorterShifts(x: nat)
    ensures x * 0x1000 / 64 / 64 == x
  {
    assert x * 0x1000 / 64 == x * 64;
  }

  /** The first m characters of the encoding of raw are at output. */
  ghost predicate Spells(mem: seq<byte>, output: nat, raw: seq<byte>, m: nat) {
    output + m <= |mem| && forall k :: 0 <= k < m ==> mem[output + k] == CharAt(raw, k)
  }

  /** q groups are done: their characters are in place and the bytes after them are untouched. */
  ghost predicate EncodedUpTo(mem: seq<byte>, was: seq<byte>, input: nat, n: nat, output: nat, q: nat) {
    && |mem| == |was| && input + n <= |mem| && 3 * q <= n && output + 4 * q <= |mem|
    && Spells(mem, output, was[input..input + n], 4 * q)
    && (forall i :: input + 3 * q <= i < input + n ==> mem[i] == was[i])
    && (forall i :: 0 <= i < |mem| && !(output <= i < output + 4 * q) ==> mem[i] == was[i])
  }

  /** Encode n bytes at input to output, in memory they may share. Returns where the output ends. */
  method EncodeBase64(mem: array<byte>, input: nat, n: nat, output: nat) returns (result: nat)
    requires input + n <= mem.Length && output + EncodedLength(n) <= mem.Length
    requires EncodeOverlap(input, n, output)
    modifies mem
    ensures result == output + EncodedLength(n)
    ensures mem[output..result] == Encoded(old(mem[input..input + n]))
    ensures forall i :: 0 <= i < mem.Length && !(output <= i < result) ==> mem[i] == old(mem[i])
  {
    hide CharAt, EncodeDigit, Sextet, Group, Encoded, EncodedUpTo;
    ghost var was := mem[..];
    LengthsByGroup(n / 3, n % 3);
    hide EncodedLength;
    var end := input + n / 3 * 3;
    var pos, out := input, output;
    ghost var q := 0;
    NoneEncoded(was, input, n, output);
    while pos != end
      invariant pos == input + 3 * q && out == output + 4 * q && 0 <= q <= n / 3
      invariant EncodedUpTo(mem[..], was, input, n, output, q)
      decreases n / 3 - q
    {
      NextGroup(mem, was, pos, out, input, n, output, q);
      pos := pos + 3;
      out := out + 4;
      q := q + 1;
    }
    result := LastGroup(mem, was, pos, out, input, n, output, q);
    EncodedChars(was[input..input + n], mem[..], output, result);
    assert mem[..][output..result] == mem[output..result];
  }

  lemma NoneEncoded(was: seq<byte>, input: nat, n: nat, output: nat)
    requires input + n <= |was| && output <= |was|
    ensures EncodedUpTo(was, was, input, n, output, 0)
  {
  }

  method NextGroup(mem: array<byte>, ghost was: seq<byte>, pos: nat, out: nat, ghost input: nat, ghost n: nat,
                   ghost output: nat, ghost q: nat)
    requires EncodedUpTo(mem[..], was, input, n, output, q) && 3 * q + 3 <= n && output + 4 * q + 4 <= mem.Length
    requires pos == input + 3 * q && out == output + 4 * q && EncodeOverlap(input, n, output)
    modifies mem
    ensures EncodedUpTo(mem[..], was, input, n, output, q + 1)
  {
    hide CharAt, EncodeOverlap;
    ghost var raw := was[input..input + n];
    RoomAhead(input, n, output, q);
    EncodeGroup(mem, pos, out, raw, q);
  }

  /** The characters of group q do not fall on the bytes after it. */
  lemma RoomAhead(input: nat, n: nat, output: nat, q: nat)
    requires EncodeOverlap(input, n, output) && 3 * q + 3 <= n
    ensures input + n <= output + 4 * q || output + 4 * q + 4 <= input + 3 * q + 3
  {
    LengthsByGroup(n / 3, n % 3);
    hide EncodedLength;
  }

  method LastGroup(mem: array<byte>, ghost was: seq<byte>, pos: nat, out: nat, ghost input: nat, n: nat,
                   ghost output: nat, ghost q: nat) returns (result: nat)
    requires EncodedUpTo(mem[..], was, input, n, output, q) && q == n / 3 && output + EncodedLength(n) <= mem.Length
    requires pos == input + 3 * q && out == output + 4 * q
    modifies mem
    ensures result == output + EncodedLength(n)
    ensures Spells(mem[..], output, was[input..input + n], EncodedLength(n))
    ensures forall i :: 0 <= i < mem.Length && !(output <= i < result) ==> mem[i] == was[i]
  {
    hide CharAt, EncodedLength;
    ghost var raw := was[input..input + n];
    LengthsByGroup(n / 3, n % 3);
    var remainder := n % 3;
    result := out;
    if remainder != 0 {
      EncodeRest(mem, pos, out, remainder, raw, q);
      result := result + remainder + 1;
    }
  }

  lemma EncodedChars(raw: seq<byte>, mem: seq<byte>, output: nat, result: nat)
    requires result == output + EncodedLength(|raw|) && Spells(mem, output, raw, EncodedLength(|raw|))
    ensures mem[output..result] == Encoded(raw)
  {
    hide EncodeDigit, Sextet, Group, EncodedLength;
    forall k | 0 <= k < result - output
      ensures mem[output..result][k] == Encoded(raw)[k]
    {
      assert mem[output + k] == CharAt(raw, k);
    }
  }

  /** The output starts no later than the input, or lies beyond it. */
  ghost predicate DecodeOverlap(input: nat, n: nat, output: nat) {
    output <= input || input + n <= output
  }

  function ByteOf(s: seq<byte>, k: nat): byte { Octet(Quad(s, k / 3), k % 3) }

  lemma QuadShifts(s: seq<byte>, q: nat)
    ensures var v := Quad(s, q);
      v % 256 == Octet(v, 2) && v / 256 % 256 == Octet(v, 1) && v / 256 / 256 % 256 == Octet(v, 0)
    ensures 3 * q / 3 == q && 3 * q % 3 == 0 && (3 * q + 1) / 3 == q && (3 * q + 1) % 3 == 1
    ensures (3 * q + 2) / 3 == q && (3 * q + 2) % 3 == 2
  {
    hide Quad;
    var v := Quad(s, q);
    assert v / 256 / 256 == v / 0x1_0000;
  }

  /** The three bytes of a whole group of characters. */
  method DecodeGroup(mem: array<byte>, pos: nat, output: nat, ghost s: seq<byte>, ghost q: nat)
    requires pos + 4 <= mem.Length && output + 3 <= mem.Length && 4 * q + 4 <= |s|
    requires mem[pos] == s[4 * q] && mem[pos + 1] == s[4 * q + 1]
    requires mem[pos + 2] == s[4 * q + 2] && mem[pos + 3] == s[4 * q + 3]
    modifies mem
    ensures mem[output] == ByteOf(s, 3 * q) && mem[output + 1] == ByteOf(s, 3 * q + 1)
    ensures mem[output + 2] == ByteOf(s, 3 * q + 2)
    ensures forall i :: 0 <= i < mem.Length && !(output <= i < output + 3) ==> mem[i] == old(mem[i])
  {
    QuadShifts(s, q);
    hide DecodeDigit, Octet, Or;
    var value: nat := DecodeDigit(mem[pos]);
    value := Or(value * 64, DecodeDigit(mem[pos + 1]), 32);
    value := Or(value * 64, DecodeDigit(mem[pos + 2]), 32);
    value := Or(value * 64, DecodeDigit(mem[pos + 3]), 32);
    assert value == Quad(s, q);
    mem[output + 2] := U8(value);
    value := value / 256;
    mem[output + 1] := U8(value);
    value := value / 256;
    mem[output] := U8(value);
  }

  /** Or with nothing, and the shifts that drop the digits a short group does not have. */
  lemma ShortQuad(s: seq<byte>, q: nat, d0: nat, d1: nat, d2: nat)
    requires d0 < 256 && d1 < 256 && d2 < 256
    ensures Joined(d0, d1, d2, 0) == Or(Or(d0 * 64, d1, 32) * 64, d2, 32) * 64
    ensures Joined(d0, d1, 0, 0) == Or(d0 * 64, d1, 32) * 64 * 64
  {
    OrSmall(d0 * 64, d1, 0x4000);
    OrNothing(Or(d0 * 64, d1, 32) * 64);
    OrSmall(Or(d0 * 64, d1, 32) * 64, d2, 0x10_4000);
    OrNothing(Or(Or(d0 * 64, d1, 32) * 64, d2, 32) * 64);
    OrNothing(Or(d0 * 64, d1, 32) * 64 * 64);
    hide Or;
  }

  lemma OrNothing(a: nat)
    requires a < TWO32
    ensures Or(a, 0, 32) == a
  {
    WordSize();
    OrCommutes(a, 0, 32);
    OrZero(a, 32);
    hide Or, Pow2;
  }

  lemma {:induction false} OrAtMostSum(a: nat, b: nat, n: nat)
    ensures Or(a, b, n) <= a + b
  {
    if n > 0 {
      OrAtMostSum(a / 2, b / 2, n - 1);
    }
  }

  lemma OrSmall(a: nat, b: nat, m: nat)
    requires a < m && b < 256
    ensures Or(a, b, 32) < m + 256
  {
    OrAtMostSum(a, b, 32);
    hide Or;
  }

  /** The one or two bytes of the characters left over. */
  method DecodeRest(mem: array<byte>, pos: nat, output: nat, remainder: nat, ghost s: seq<byte>, ghost q: nat)
    requires 2 <= remainder <= 3 && pos + remainder <= mem.Length && output + remainder - 1 <= mem.Length
    requires |s| == 4 * q + remainder && mem[pos] == s[4 * q] && mem[pos + 1] == s[4 * q + 1]
    requires remainder == 3 ==> mem[pos + 2] == s[4 * q + 2]
    modifies mem
    ensures mem[output] == ByteOf(s, 3 * q) && (remainder == 3 ==> mem[output + 1] == ByteOf(s, 3 * q + 1))
    ensures forall i :: 0 <= i < mem.Length && !(output <= i < output + remainder - 1) ==> mem[i] == old(mem[i])
  {
    ghost var v := Quad(s, q);
    QuadShifts(s, q);
    hide DecodeDigit, Octet, Or;
    var value: nat := DecodeDigit(mem[pos]);
    value := Or(value * 64, DecodeDigit(mem[pos + 1]), 32);
    if remainder == 3 {
      value := Or(value * 64, DecodeDigit(mem[pos + 2]), 32);
      ShortQuad(s, q, DigitAt(s, 4 * q), DigitAt(s, 4 * q + 1), DigitAt(s, 4 * q + 2));
      ShiftsOfSix(value);
      value := value / 4;
      mem[output + 1] := U8(value);
      value := value / 256;
    } else {
      ShortQuad(s, q, DigitAt(s, 4 * q), DigitAt(s, 4 * q + 1), 0);
      ShiftsOfSix(value * 64);
      ShiftsOfTwelve(value);
      value := value / 16;
    }
    mem[output] := U8(value);
  }

  lemma ShiftsOfSix(x: nat)
    ensures x * 64 / 256 == x / 4 && x * 64 / 256 / 256 == x / 4 / 256
  {
  }

  lemma ShiftsOfTwelve(x: nat)
    ensures x * 64 * 64 / 256 / 256 == x / 16
  {
    assert x * 64 * 64 / 256 == x * 16;
  }

  ghost predicate Bytes(mem: seq<byte>, output: nat, s: seq<byte>, m: nat) {
    output + m <= |mem| && forall k :: 0 <= k < m ==> mem[output + k] == ByteOf(s, k)
  }

  ghost predicate DecodedUpTo(mem: seq<byte>, was: seq<byte>, input: nat, n: nat, output: nat, q: nat) {
    && |mem| == |was| && input + n <= |mem| && 4 * q <= n && output + 3 * q <= |mem|
    && Bytes(mem, output, was[input..input + n], 3 * q)
    && (forall i :: input + 4 * q <= i < input + n ==> mem[i] == was[i])
    && (forall i :: 0 <= i < |mem| && !(output <= i < output + 3 * q) ==> mem[i] == was[i])
  }

  /** Decode n characters at input to output, in memory they may share. None for an impossible length. */
  method DecodeBase64(mem: array<byte>, input: nat, n: nat, output: nat) returns (result: Option<nat>)
    requires input + n <= mem.Length
    requires DecodedLength(n) != None ==> output + DecodedLength(n).value <= mem.Length
    requires DecodeOverlap(input, n, output)
    modifies mem
    ensures result == DecodedLength(n)
    ensures result == None ==> mem[..] == old(mem[..])
    ensures result != None ==> Decoded(old(mem[input..input + n])) == Some(mem[output..output + result.value])
    ensures forall i :: 0 <= i < mem.Length && !(result != None && output <= i < output + result.value) ==>
              mem[i] == old(mem[i])
  {
    hide ByteOf, DecodeDigit, Octet, Quad, Decoded, DecodedUpTo;
    ghost var was := mem[..];
    LengthsByGroup(n / 4, n % 4);
    result := DecodedLength(n);
    if result == None {
      return;
    }
    hide DecodedLength;
    var end := input + n / 4 * 4;
    var pos, out := input, output;
    ghost var q := 0;
    NoneDecoded(was, input, n, output);
    while pos != end
      invariant pos == input + 4 * q && out == output + 3 * q && 0 <= q <= n / 4
      invariant DecodedUpTo(mem[..], was, input, n, output, q)
      decreases n / 4 - q
    {
      NextQuad(mem, was, pos, out, input, n, output, q);
      pos := pos + 4;
      out := out + 3;
      q := q + 1;
    }
    LastQuad(mem, was, pos, out, input, n, output, q);
    DecodedBytes(was[input..input + n], mem[..], output, result.value);
    assert mem[..][output..output + result.value] == mem[output..output + result.value];
  }

  lemma NoneDecoded(was: seq<byte>, input: nat, n: nat, output: nat)
    requires input + n <= |was| && output <= |was|
    ensures DecodedUpTo(was, was, input, n, output, 0)
  {
  }

  method NextQuad(mem: array<byte>, ghost was: seq<byte>, pos: nat, out: nat, ghost input: nat, ghost n: nat,
                  ghost output: nat, ghost q: nat)
    requires DecodedUpTo(mem[..], was, input, n, output, q) && 4 * q + 4 <= n && output + 3 * q + 3 <= mem.Length
    requires pos == input + 4 * q && out == output + 3 * q && DecodeOverlap(input, n, output)
    modifies mem
    ensures DecodedUpTo(mem[..], was, input, n, output, q + 1)
  {
    hide ByteOf;
    DecodeGroup(mem, pos, out, was[input..input + n], q);
  }

  method LastQuad(mem: array<byte>, ghost was: seq<byte>, pos: nat, out: nat, ghost input: nat, n: nat,
                  ghost output: nat, ghost q: nat)
    requires DecodedUpTo(mem[..], was, input, n, output, q) && q == n / 4
    requires DecodedLength(n) != None && output + DecodedLength(n).value <= mem.Length
    requires pos == input + 4 * q && out == output + 3 * q
    modifies mem
    ensures Bytes(mem[..], output, was[input..input + n], DecodedLength(n).value)
    ensures forall i :: 0 <= i < mem.Length && !(output <= i < output + DecodedLength(n).value) ==> mem[i] == was[i]
  {
    hide ByteOf;
    LengthsByGroup(n / 4, n % 4);
    hide DecodedLength;
    var remainder := n % 4;
    if remainder != 0 {
      DecodeRest(mem, pos, out, remainder, was[input..input + n], q);
    }
  }

  lemma DecodedBytes(s: seq<byte>, mem: seq<byte>, output: nat, m: nat)
    requires DecodedLength(|s|) == Some(m) && Bytes(mem, output, s, m)
    ensures Decoded(s) == Some(mem[output..output + m])
  {
    hide Octet, Quad, DecodedLength;
    forall k | 0 <= k < m
      ensures mem[output..output + m][k] == Decoded(s).value[k]
    {
      assert mem[output + k] == ByteOf(s, k);
    }
    assert mem[output..output + m] == Decoded(s).value;
  }

  /** The overlaps the header promises: raw bytes at the tail of the output, characters decoded where
   *  they stand. */
  lemma PromisedOverlaps(n: nat, output: nat)
    ensures EncodedLength(n) >= n
    ensures EncodeOverlap(output + EncodedLength(n) - n, n, output)
    ensures DecodeOverlap(output, n, output)
  {
    LengthsByGroup(n / 3, n % 3);
    hide EncodedLength;
  }
}
