/** src/base64.cpp in the terms of sections 4 and 10 of RFC 4648. */
module Base64Standard {
  import opened Words
  import opened Base64

  // ----- the alphabet -----

  const ROWS := ["ABCDEFGHIJKLMNOP", "QRSTUVWXYZabcdef", "ghijklmnopqrstuv", "wxyz0123456789+/"]

  /** Sixteen characters a row. */
  lemma Alphabet(d: nat)
    requires d < 64
    ensures |ROWS[d / 16]| == 16 && EncodeDigit(d) == ROWS[d / 16][d % 16] as int
    ensures DecodeDigit(EncodeDigit(d)) == d
  {
    DigitRoundTrip(d);
    hide DecodeDigit;
    var r, c := d / 16, d % 16;
    assert r == 0 || r == 1 || r == 2 || r == 3;
    Column(c);
  }

  lemma Column(c: nat)
    requires c < 16
    ensures c == 0 || c == 1 || c == 2 || c == 3 || c == 4 || c == 5 || c == 6 || c == 7
         || c == 8 || c == 9 || c == 10 || c == 11 || c == 12 || c == 13 || c == 14 || c == 15
  {
  }

  /** What decoding takes a character for: its place in the alphabet, whatever its top bit, or 255. */
  lemma AnyCharacter(c: byte)
    ensures DecodeDigit(c) < 64 ==> EncodeDigit(DecodeDigit(c)) == c % 128
    ensures DecodeDigit(c) >= 64 ==>
      DecodeDigit(c) == 255 && forall d: nat :: d < 64 ==> EncodeDigit(d) != c % 128
  {
    if DecodeDigit(c) >= 64 {
      forall d: nat | d < 64
        ensures EncodeDigit(d) != c % 128
      {
        DigitRoundTrip(d);
      }
    }
  }

  // ----- groups of 24 bits -----

  function ByteOr0(raw: seq<byte>, i: nat): nat { if i < |raw| then raw[i] else 0 }

  function DigitOr0(chars: seq<byte>, i: nat): nat { if i < |chars| then DecodeDigit(chars[i]) else 0 }

  /** Three bytes are as many bits as the four characters that stand for them, most significant first; at the
   *  end zeros fill up what is missing. */
  lemma GroupBits(raw: seq<byte>, q: nat)
    requires 3 * q < |raw|
    ensures var c := Encoded(raw);
      (ByteOr0(raw, 3 * q) * 256 + ByteOr0(raw, 3 * q + 1)) * 256 + ByteOr0(raw, 3 * q + 2)
        == ((DigitOr0(c, 4 * q) * 64 + DigitOr0(c, 4 * q + 1)) * 64 + DigitOr0(c, 4 * q + 2)) * 64
           + DigitOr0(c, 4 * q + 3)
  {
    hide Encoded, EncodedLength, DecodeDigit, EncodeDigit, Sextet;
    EncodedDigit(raw, q, 0);
    EncodedDigit(raw, q, 1);
    EncodedDigit(raw, q, 2);
    EncodedDigit(raw, q, 3);
    GroupBelow(raw, q);
    SextetsMakeGroup(Group(raw, q));
  }

  /** Without padding characters: a last group of one byte takes two characters, one of two takes three. */
  lemma Lengths(raw: seq<byte>)
    ensures |Encoded(raw)| == 4 * (|raw| / 3) + if |raw| % 3 == 0 then 0 else |raw| % 3 + 1
  {
    LengthsByGroup(|raw| / 3, |raw| % 3);
    hide EncodedLength, Encoded;
  }

  // ----- the examples of section 10, without their padding -----

  lemma FromDigits(raw: seq<byte>, chars: seq<byte>)
    requires |chars| == |Encoded(raw)|
    requires forall k :: 0 <= k < |chars| ==> chars[k] == EncodeDigit(Sextet(Group(raw, k / 4), k % 4))
    ensures Encoded(raw) == chars
  {
    hide EncodeDigit, Sextet, Group, EncodedLength;
  }

  /** "f" is "Zg" */
  lemma ExampleOfOne()
    ensures Encoded([0x66]) == [0x5A, 0x67]
  {
    assert Group([0x66], 0) == 0x66_0000;
    hide Encoded, Group;
    FromDigits([0x66], [0x5A, 0x67]);
  }

  /** "fo" is "Zm8" */
  lemma ExampleOfTwo()
    ensures Encoded([0x66, 0x6F]) == [0x5A, 0x6D, 0x38]
  {
    assert Group([0x66, 0x6F], 0) == 0x66_6F00;
    hide Encoded, Group;
    FromDigits([0x66, 0x6F], [0x5A, 0x6D, 0x38]);
  }

  /** "foo" is "Zm9v" */
  lemma ExampleOfThree()
    ensures Encoded([0x66, 0x6F, 0x6F]) == [0x5A, 0x6D, 0x39, 0x76]
  {
    assert Group([0x66, 0x6F, 0x6F], 0) == 0x66_6F6F;
    hide Encoded, Group;
    FromDigits([0x66, 0x6F, 0x6F], [0x5A, 0x6D, 0x39, 0x76]);
  }
}
