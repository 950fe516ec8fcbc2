/** The steps of lib/crypto-algorithms/aes.c in the terms of FIPS 197, so that the cipher is AES and not just
 *  something that its decryption undoes. */
module AesStandard {
  import opened Aes
  import opened AesRounds

  // ----- sections 4.2 and 5.1.1: the field, and the substitution as an inverse in it -----

  /** Multiplication by x, section 4.2.1: shift left, and reduce by 0x1B if a bit went out at the top. */
  function Xtime(a: bv8): bv8 { (a << 1) ^ (if a & 0x80 == 0 then 0 else 0x1B) }

  lemma Multiples(a: bv8)
    ensures Times2(a) == Xtime(a) && Times4(a) == Xtime(Xtime(a)) && Times8(a) == Xtime(Xtime(Xtime(a)))
    ensures Times3(a) == Xtime(a) ^ a
    ensures Times9(a) == Xtime(Xtime(Xtime(a))) ^ a && TimesB(a) == Xtime(Xtime(Xtime(a))) ^ Xtime(a) ^ a
    ensures TimesD(a) == Xtime(Xtime(Xtime(a))) ^ Xtime(Xtime(a)) ^ a
    ensures TimesE(a) == Xtime(Xtime(Xtime(a))) ^ Xtime(Xtime(a)) ^ Xtime(a)
  {
  }

  function Bit(b: bv8, a: bv8): bv8 { if b & 1 == 0 then 0 else a }

  /** The product of two bytes. */
  function Product(a: bv8, b: bv8): bv8 {
    var a1 := Xtime(a);
    var a2 := Xtime(a1);
    var a3 := Xtime(a2);
    var a4 := Xtime(a3);
    var a5 := Xtime(a4);
    var a6 := Xtime(a5);
    var a7 := Xtime(a6);
    Bit(b, a) ^ Bit(b >> 1, a1) ^ Bit(b >> 2, a2) ^ Bit(b >> 3, a3) ^ Bit(b >> 4, a4) ^ Bit(b >> 5, a5)
    ^ Bit(b >> 6, a6) ^ Bit(b >> 7, a7)
  }

  function Turned(b: bv8, n: nat): bv8
    requires n <= 4
  {
    if n == 0 then b
    else if n == 1 then (b << 1) | (b >> 7)
    else if n == 2 then (b << 2) | (b >> 6)
    else if n == 3 then (b << 3) | (b >> 5)
    else (b << 4) | (b >> 4)
  }

  /** The affine map of section 5.1.1. */
  function Affine(b: bv8): bv8 { b ^ Turned(b, 1) ^ Turned(b, 2) ^ Turned(b, 3) ^ Turned(b, 4) ^ 0x63 }

  /** The way back. */
  function Unaffine(s: bv8): bv8 { Turned(s, 1) ^ Turned(s, 3) ^ ((s << 6) | (s >> 2)) ^ 0x05 }

  lemma AffineBack(s: bv8)
    ensures Affine(Unaffine(s)) == s
  {
  }

  lemma Inverse0(x: bv8)
    requires x >> 6 == 0 && x != 0
    ensures Product(x, Unaffine(SBox(x))) == 1
  {
  }

  lemma Inverse1(x: bv8)
    requires x >> 6 == 1 && x != 0
    ensures Product(x, Unaffine(SBox(x))) == 1
  {
  }

  lemma Inverse2(x: bv8)
    requires x >> 6 == 2 && x != 0
    ensures Product(x, Unaffine(SBox(x))) == 1
  {
  }

  lemma Inverse3(x: bv8)
    requires x >> 6 == 3 && x != 0
    ensures Product(x, Unaffine(SBox(x))) == 1
  {
  }

  /** The table holds the affine image of the multiplicative inverse; zero stands in for its own. */
  lemma SubstitutionFormula(x: bv8) returns (inverse: bv8)
    ensures SBox(x) == Affine(inverse)
    ensures x != 0 ==> Product(x, inverse) == 1
    ensures x == 0 ==> inverse == 0
  {
    inverse := Unaffine(SBox(x));
    AffineBack(SBox(x));
    ZeroGoesTo63();
    var q := x >> 6;
    assert q == 0 || q == 1 || q == 2 || q == 3;
    hide SBox, Affine, Unaffine, Product;
    if x != 0 {
      if q == 0 {
        Inverse0(x);
      } else if q == 1 {
        Inverse1(x);
      } else if q == 2 {
        Inverse2(x);
      } else {
        Inverse3(x);
      }
    }
  }

  lemma ZeroGoesTo63()
    ensures SBox(0) == 0x63 && Unaffine(SBox(0)) == 0
  {
  }

  // ----- sections 5.1.2 to 5.1.4: the steps on row r and column c -----

  /** Row r moves left by r places. */
  lemma ShiftFormula(b: seq<Octet>, c: nat, r: nat)
    requires |b| == 16 && c < 4 && r < 4
    ensures Shifted(b)[4 * c + r] == b[4 * ((c + r) % 4) + r]
  {
    assert c == 0 || c == 1 || c == 2 || c == 3;
    assert r == 0 || r == 1 || r == 2 || r == 3;
  }

  /** Byte r of a word, the most significant first. */
  lemma KeyWord(w: bv32)
    ensures w == ((KeyByte(w, 0).bits as bv32) << 24) | ((KeyByte(w, 1).bits as bv32) << 16)
              | ((KeyByte(w, 2).bits as bv32) << 8) | (KeyByte(w, 3).bits as bv32)
  {
  }

  /** What row r has in column c after substitution and shift. */
  function Place(b: seq<Octet>, c: nat, r: nat): Octet
    requires |b| == 16
  {
    Octet(SBox(b[4 * ((c + r % 4) % 4) + r % 4].bits))
  }

  lemma PlaceIs(b: seq<Octet>, c: nat, r: nat)
    requires |b| == 16 && c < 4
    ensures Shifted(Substituted(b))[4 * c + r % 4] == Place(b, c, r)
  {
    hide SBox;
    ShiftFormula(Substituted(b), c, r % 4);
    hide Shifted;
  }

  /** Byte (r, c) after a round: column c of the moved rows, multiplied by 2, 3, 1, 1, and the key. */
  lemma RoundFormula(b: seq<Octet>, w: seq<bv32>, round: nat, c: nat, r: nat)
    requires |b| == 16 && 4 * round + 8 <= |w| && c < 4 && r < 4
    ensures var s := Forward(b, w, round);
      Forward(b, w, round + 1)[4 * c + r]
        == Plus(Sum(Two(Place(s, c, r)), Three(Place(s, c, r + 1)), Place(s, c, r + 2), Place(s, c, r + 3)),
                KeyByte(w[4 * (round + 1) + c], r))
  {
    hide *;
    NextRound(b, w, round);
    MovedColumn(Forward(b, w, round), c, r);
    KeyAdded(Mixed(Shifted(Substituted(Forward(b, w, round)))), w, round + 1, c, r);
  }

  lemma MovedColumn(s: seq<Octet>, c: nat, r: nat)
    requires |s| == 16 && c < 4 && r < 4
    ensures Mixed(Shifted(Substituted(s)))[4 * c + r]
         == Sum(Two(Place(s, c, r)), Three(Place(s, c, r + 1)), Place(s, c, r + 2), Place(s, c, r + 3))
  {
    hide *;
    PlaceIs(s, c, r);
    PlaceIs(s, c, r + 1);
    PlaceIs(s, c, r + 2);
    PlaceIs(s, c, r + 3);
    ColumnIs(Shifted(Substituted(s)), c, r, Place(s, c, r), Place(s, c, r + 1), Place(s, c, r + 2), Place(s, c, r + 3));
  }

  lemma ColumnIs(t: seq<Octet>, c: nat, r: nat, p0: Octet, p1: Octet, p2: Octet, p3: Octet)
    requires |t| == 16 && c < 4 && r < 4 && t[4 * c + r % 4] == p0 && t[4 * c + (r + 1) % 4] == p1
    requires t[4 * c + (r + 2) % 4] == p2 && t[4 * c + (r + 3) % 4] == p3
    ensures Mixed(t)[4 * c + r] == Sum(Two(p0), Three(p1), p2, p3)
  {
    hide Mixed, Two, Three, Sum;
    MixedAt(t, c, r);
    assert r % 4 == r;
  }

  lemma KeyAdded(s: seq<Octet>, w: seq<bv32>, round: nat, c: nat, r: nat)
    requires |s| == 16 && 4 * round + 4 <= |w| && c < 4 && r < 4
    ensures WithKey(s, w, round)[4 * c + r] == Plus(s[4 * c + r], KeyByte(w[4 * round + c], r))
  {
    hide Plus, KeyByte;
    assert (4 * c + r) / 4 == c && (4 * c + r) % 4 == r;
  }

  lemma NextRound(b: seq<Octet>, w: seq<bv32>, round: nat)
    requires |b| == 16 && 4 * round + 8 <= |w|
    ensures Forward(b, w, round + 1) == WithKey(Mixed(Shifted(Substituted(Forward(b, w, round)))), w, round + 1)
  {
  }

  /** Byte (r, c) of the result: the last round does not mix. */
  lemma LastRoundFormula(b: seq<Octet>, w: seq<bv32>, rounds: nat, c: nat, r: nat)
    requires |b| == 16 && rounds >= 1 && 4 * rounds + 4 <= |w| && c < 4 && r < 4
    ensures Encrypted(b, w, rounds)[4 * c + r]
         == Plus(Place(Forward(b, w, rounds - 1), c, r), KeyByte(w[4 * rounds + c], r))
  {
    hide Forward, Shifted, Substituted, Plus, KeyByte, Place, WithKey;
    PlaceIs(Forward(b, w, rounds - 1), c, r);
    KeyAdded(Shifted(Substituted(Forward(b, w, rounds - 1))), w, rounds, c, r);
  }

  /** Byte (r, c) before the first round: the input and the first four words. */
  lemma FirstKeyFormula(b: seq<Octet>, w: seq<bv32>, c: nat, r: nat)
    requires |b| == 16 && 4 <= |w| && c < 4 && r < 4
    ensures Forward(b, w, 0)[4 * c + r] == Plus(b[4 * c + r], KeyByte(w[c], r))
  {
    hide Plus, KeyByte, WithKey;
    KeyAdded(b, w, 0, c, r);
  }

  /** Ten, twelve or fourteen rounds. */
  lemma RoundCount()
    ensures Rounds(128) == 10 && Rounds(192) == 12 && Rounds(256) == 14
  {
  }
}
