/** The bytes of the three message formats of src/message.cpp, tag by tag, and of a varint, digit by digit. */
module WireLayout {
  import opened Words
  import opened Message
  import opened MessageCodec
  import opened MessageFormats

  function Power128(i: nat): (p: nat)
    ensures p > 0
  {
    if i == 0 then 1 else 128 * Power128(i - 1)
  }

  /** Byte i of a varint holds the digit of weight 128^i in its low seven bits; the high bit says that more
   *  follow. */
  lemma {:induction false} VarintBytes(n: nat, i: nat)
    requires i < |EncodeVarint(n)|
    ensures var b := EncodeVarint(n);
      && b[i] % 128 == n / Power128(i) % 128 && (b[i] >= 128 <==> i + 1 < |b|)
      && (i + 1 < |b| <==> n / Power128(i) >= 128)
  {
    if i == 0 {
      assert n / Power128(0) == n;
    } else {
      VarintBytes(n / 128, i - 1);
      NestedDigits(n, Power128(i - 1));
      assert EncodeVarint(n)[1..] == EncodeVarint(n / 128);
    }
  }

  lemma NestedDigits(n: nat, p: nat)
    requires p > 0
    ensures n / (128 * p) == n / 128 / p
  {
    var q := n / 128;
    FloorBelow(n, 128);
    FloorBelow(q, p);
    NestedIs(n, p, q, n % 128, q / p, q % p);
  }

  lemma NestedIs(n: nat, p: nat, q: nat, r: nat, k: nat, l: nat)
    requires n == q * 128 + r && r < 128 && q == k * p + l && l < p
    ensures n / (128 * p) == k
  {
    Nest(k, l, r, p);
    DivideIs(n, 128 * p, k, 128 * l + r);
  }

  lemma Nest(k: nat, l: nat, r: nat, p: nat)
    requires l < p && r < 128
    ensures (k * p + l) * 128 + r == k * (128 * p) + (128 * l + r) && 128 * l + r < 128 * p
  {
  }

  /** 300 as two bytes. */
  lemma VarintExample()
    ensures EncodeVarint(300) == [0xAC, 0x02] && EncodeVarint(0) == [0] && EncodeVarint(127) == [0x7F]
  {
    assert EncodeVarint(2) == [2];
  }

  /** A string field: tag, length, value. */
  function StringField(tag: byte, value: seq<byte>): seq<byte> { [tag] + EncodeVarint(|value|) + value }

  /** docs/olm.md, normal messages: ratchet key, chain index and ciphertext under 0x0A, 0x10 and 0x22. */
  lemma NormalLayout(version: byte, key: seq<byte>, counter: u32, ciphertext: seq<byte>)
    ensures NormalBytes(version, key, counter, ciphertext)
         == [version] + StringField(0x0A, key) + ([0x10] + EncodeVarint(counter)) + StringField(0x22, ciphertext)
  {
    NormalPieces(version, key, counter, ciphertext);
    hide NormalBytes, EncodeVarint;
  }

  /** docs/olm.md, pre-key messages, and the prekey under 0x2A. */
  lemma PreKeyLayout(version: byte, p: PreKeyParts)
    ensures PreKeyBytes(version, p)
         == [version] + StringField(0x2A, p.prekey) + StringField(0x0A, p.oneTimeKey) + StringField(0x12, p.baseKey)
            + StringField(0x1A, p.identityKey) + StringField(0x22, p.message)
  {
    PreKeyPieces(version, p);
    hide PreKeyBytes, EncodeVarint;
  }

  /** docs/megolm.md: message index and ciphertext under 0x08 and 0x12. */
  lemma GroupLayout(version: byte, index: u32, ciphertext: seq<byte>)
    ensures GroupBytes(version, index, ciphertext)
         == [version] + ([0x08] + EncodeVarint(index)) + StringField(0x12, ciphertext)
  {
    GroupPieces(version, index, ciphertext);
    hide GroupBytes, EncodeVarint;
  }

  // ----- fields that are not well formed -----

  /** Numbers are kept modulo 2^32, however long the varint. */
  lemma NumberKept(known: set<byte>, tag: byte, digits: seq<byte>, slots: Slots)
    requires tag in known && tag < 128 && tag % 8 == 0 && IsVarint(digits)
    ensures ParseAll(known, [tag] + digits, slots) == slots[tag := Num(VarintValue(digits) % 0x1_0000_0000)]
  {
    SkipsWhole(digits);
    TakesRest(known, tag, digits, slots);
  }

  lemma SkipsWhole(digits: seq<byte>)
    requires IsVarint(digits)
    ensures SkipVarint(digits) == |digits|
  {
  }

  lemma TakesRest(known: set<byte>, tag: byte, digits: seq<byte>, slots: Slots)
    requires tag in known && tag % 8 == 0 && SkipVarint(digits) == |digits|
    ensures ParseAll(known, [tag] + digits, slots) == slots[tag := Num(VarintValue(digits) % 0x1_0000_0000)]
  {
    hide VarintValue, SkipVarint;
    var rest := [tag] + digits;
    assert rest[1..] == digits;
    NothingLeft(known, slots[tag := Num(VarintValue(digits) % 0x1_0000_0000)]);
    assert digits[..|digits|] == digits && digits[|digits|..] == [];
    assert ParseOne(known, rest, slots) == (slots[tag := Num(VarintValue(digits) % 0x1_0000_0000)], []);
  }

  lemma NothingLeft(known: set<byte>, slots: Slots)
    ensures ParseAll(known, [], slots) == slots
  {
  }

  /** A number that the input breaks off in is kept as far as it goes, even if nothing of it is there. */
  lemma BrokenNumberKept(known: set<byte>, tag: byte, digits: seq<byte>, slots: Slots)
    requires tag in known && tag < 128 && tag % 8 == 0 && forall i :: 0 <= i < |digits| ==> digits[i] >= 128
    ensures ParseAll(known, [tag] + digits, slots) == slots[tag := Num(VarintValue(digits) % 0x1_0000_0000)]
  {
    NeverEnds(digits);
    TakesRest(known, tag, digits, slots);
  }

  lemma {:induction false} NeverEnds(digits: seq<byte>)
    requires forall i :: 0 <= i < |digits| ==> digits[i] >= 128
    ensures SkipVarint(digits) == |digits|
  {
    if digits != [] {
      NeverEnds(digits[1..]);
    }
  }

  /** A string that is said to be longer than what is left is not kept, and nothing is read after it, known or not. */
  lemma LongStringDropped(known: set<byte>, tag: byte, length: seq<byte>, left: seq<byte>, slots: Slots)
    requires tag < 128 && tag % 8 == 2 && IsVarint(length) && VarintValue(length) % 0x1_0000_0000_0000_0000 > |left|
    ensures ParseAll(known, [tag] + (length + left), slots) == slots
  {
    hide VarintValue;
    var after := length + left;
    var rest := [tag] + after;
    assert rest[1..] == after;
    VarintSplits(length, left);
    assert SkipVarint(rest) == 1;
    hide SkipVarint, IsVarint;
    NothingLeft(known, slots);
    assert TakeStr(after) == (None, []);
    assert ParseOne(known, rest, slots) == (slots, []);
  }

  /** Nothing is read from a field of another wire type on. */
  lemma OtherTypesEnd(known: set<byte>, rest: seq<byte>, slots: Slots)
    requires rest != [] && rest[0] !in known && rest[0] % 8 != 0 && rest[0] % 8 != 2
    ensures ParseAll(known, rest, slots) == slots
  {
    NothingLeft(known, slots);
  }

  /** The version is the first byte, if there is one in front of MAC and signature; fields are read in between. */
  lemma VersionAndFields(known: set<byte>, version: byte, fields: seq<byte>, trailer: seq<byte>)
    ensures Read(known, [version] + fields + trailer, |trailer|) == (version, ParseAll(known, fields, map[]))
  {
    hide ParseAll;
    var input := [version] + fields + trailer;
    assert input[1..|input| - |trailer|] == fields;
  }

  lemma TooShort(known: set<byte>, input: seq<byte>, trailer: nat)
    requires |input| <= trailer
    ensures Read(known, input, trailer) == (0, map[])
  {
  }
}
