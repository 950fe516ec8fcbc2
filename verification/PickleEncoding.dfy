/** Encrypted pickles (src/pickle_encoding.c): raw bytes at the tail of a buffer are encrypted, given a
 *  MAC and turned into base64 without leaving it, and all of it undone in place. */
module PickleEncoding {
  import opened Words
  import opened MessageCodec
  import opened CipherSuite
  import Base64
  import Cbc
  import Hkdf

  /** "Pickle" */
  const INFO: seq<byte> := [0x50, 0x69, 0x63, 0x6B, 0x6C, 0x65]

  datatype Outcome = Success(length: nat) | InvalidBase64 | BadAccountKey

  // ----- what a pickle means -----

  /** Ciphertext, then MAC. */
  function Closed(p: Primitives, k: Keys, raw: seq<byte>): (s: seq<byte>)
    requires p.Valid() && |k.aes| == 32 && |k.iv| == 16
    ensures |s| == CbcLength(|raw|) + MAC_LENGTH
  {
    CiphertextIs(p, k, raw);
    Ciphertext(p, k, raw) + Mac(p, k, Ciphertext(p, k, raw))
  }

  /** Everything but the MAC. */
  function Covered(s: seq<byte>): (c: seq<byte>)
    ensures |c| == if |s| >= MAC_LENGTH then |s| - MAC_LENGTH else 0
  {
    if |s| >= MAC_LENGTH then s[..|s| - MAC_LENGTH] else []
  }

  ghost predicate GoodMac(p: Primitives, k: Keys, s: seq<byte>) {
    |s| >= MAC_LENGTH && s[|s| - MAC_LENGTH..] == Mac(p, k, Covered(s))
  }

  /** If the MAC is good, it stands behind whole blocks. Input with a good MAC behind anything else is
   *  excluded below: the block loop would leave the buffer on it. */
  ghost predicate WholeBlocks(p: Primitives, k: Keys, s: seq<byte>) {
    GoodMac(p, k, s) ==> |Covered(s)| > 0 && |Covered(s)| % 16 == 0
  }

  ghost function Opened(p: Primitives, k: Keys, s: seq<byte>): Option<seq<byte>>
    requires p.Valid() && |k.aes| == 32 && |k.iv| == 16 && WholeBlocks(p, k, s)
  {
    if GoodMac(p, k, s) then Plaintext(p, k, Covered(s)) else None
  }

  lemma ClosedIsWhole(p: Primitives, k: Keys, raw: seq<byte>)
    requires p.Valid() && |k.aes| == 32 && |k.iv| == 16
    ensures Covered(Closed(p, k, raw)) == Ciphertext(p, k, raw) && GoodMac(p, k, Closed(p, k, raw))
  {
    hide Primitives.Valid, Ciphertext, Mac;
    CoveredFront(Ciphertext(p, k, raw), Mac(p, k, Ciphertext(p, k, raw)));
  }

  lemma CoveredFront(c: seq<byte>, m: seq<byte>)
    requires |m| == MAC_LENGTH
    ensures Covered(c + m) == c && (c + m)[|c + m| - MAC_LENGTH..] == m
  {
  }

  /** A good MAC can stand behind any bytes, so that input of other lengths does get past the check. */
  lemma GoodMacAnyLength(p: Primitives, k: Keys, c: seq<byte>)
    ensures GoodMac(p, k, c + Mac(p, k, c))
    ensures WholeBlocks(p, k, c + Mac(p, k, c)) <==> Cbc.StaysInside(|c|)
  {
    hide Mac;
    CoveredFront(c, Mac(p, k, c));
    Cbc.StaysInsideIff(|c|);
    hide Covered, Cbc.StaysInside;
  }

  lemma OpenedClosed(p: Primitives, k: Keys, raw: seq<byte>)
    requires p.Valid() && |k.aes| == 32 && |k.iv| == 16
    ensures WholeBlocks(p, k, Closed(p, k, raw)) && Opened(p, k, Closed(p, k, raw)) == Some(raw)
  {
    ClosedIsWhole(p, k, raw);
    hide Primitives.Valid, Closed, Ciphertext, Plaintext, GoodMac, Covered;
    PlaintextOfCiphertext(p, k, raw);
  }

  /** The ciphertext, and behind it 8 bytes of HMAC over it; the keys are derived for the purpose "Pickle". */
  lemma ClosedLayout(p: Primitives, key: seq<byte>, raw: seq<byte>)
    requires p.Valid()
    ensures var s := Closed(p, DerivedKeys(p, INFO, key), raw);
      var secrets := PickleSecrets(p, key);
      var n := |s|;
      && n == CbcLength(|raw|) + 8
      && s[..n - 8] == Cbc.Chained(p.cipher(secrets[..32]), secrets[64..], Cbc.Padded(raw))
      && s[n - 8..] == Hkdf.Hmac(p.transform, secrets[32..64], s[..n - 8])[..8]
  {
    hide Primitives.Valid, DerivedKeys, Mac, Cbc.Chained, Cbc.Padded, PickleSecrets, CbcLength;
    var k := DerivedKeys(p, INFO, key);
    PickleKeys(p, key, Ciphertext(p, k, raw));
    Tail(Ciphertext(p, k, raw), Mac(p, k, Ciphertext(p, k, raw)));
    hide Ciphertext;
  }

  lemma Tail(c: seq<byte>, m: seq<byte>)
    requires |m| == 8
    ensures (c + m)[..|c + m| - 8] == c && (c + m)[|c + m| - 8..] == m
  {
  }

  function PickleSecrets(p: Primitives, key: seq<byte>): (s: seq<byte>)
    ensures |s| == 80
  {
    Hkdf.Expand(p.transform, Hkdf.Hmac(p.transform, seq(32, i => 0), key), [0x50, 0x69, 0x63, 0x6B, 0x6C, 0x65], 80)
  }

  lemma PickleKeys(p: Primitives, key: seq<byte>, covered: seq<byte>)
    ensures var k, s := DerivedKeys(p, INFO, key), PickleSecrets(p, key);
      && k.aes == s[..32] && k.iv == s[64..] && Mac(p, k, covered) == Hkdf.Hmac(p.transform, s[32..64], covered)[..8]
  {
    KeysAndMac(p, INFO, key, covered);
    hide DerivedKeys, Mac, Hkdf.Expand, Hkdf.Hmac;
  }

  /** What is left without the padding, which the last byte counts: nothing if it asks for more than there is. */
  function Stripped(padded: seq<byte>): Option<seq<byte>>
    requires padded != []
  {
    var n, padding := |padded|, padded[|padded| - 1];
    if padding <= n then Some(padded[..n - padding]) else None
  }

  /** On arbitrary bytes, 8 after whole blocks: they open just when the MAC is that of what is in front of it and the
   *  padding is there. */
  lemma OpensIff(p: Primitives, key: seq<byte>, c: seq<byte>, mac: seq<byte>)
    requires p.Valid() && |c| > 0 && |c| % 16 == 0 && |mac| == 8
    ensures var secrets := PickleSecrets(p, key);
      && WholeBlocks(p, DerivedKeys(p, INFO, key), c + mac)
      && Opened(p, DerivedKeys(p, INFO, key), c + mac)
           == if mac != Hkdf.Hmac(p.transform, secrets[32..64], c)[..8] then None
              else Stripped(Cbc.Unchained(p.cipher(secrets[..32]), secrets[64..], c))
  {
    hide Primitives.Valid, DerivedKeys, Mac, Cbc.Unchained, PickleSecrets, Plaintext, Stripped, Covered;
    PickleKeys(p, key, c);
    CoveredFront(c, mac);
    PlaintextIs(p, DerivedKeys(p, INFO, key), c);
  }

  lemma PlaintextIs(p: Primitives, k: Keys, c: seq<byte>)
    requires p.Valid() && |k.aes| == 32 && |k.iv| == 16 && |c| > 0 && |c| % 16 == 0
    ensures var padded := Cbc.Unchained(p.cipher(k.aes), k.iv, c);
      |padded| == |c| && Plaintext(p, k, c) == Stripped(padded)
  {
    hide Primitives.Valid, Cbc.Unchained;
  }

  // ----- lengths -----

  function ClosedLength(rawLength: nat): nat { CbcLength(rawLength) + MAC_LENGTH }

  /** _olm_enc_output_length */
  function OutputLength(rawLength: nat): nat { Base64.EncodedLength(ClosedLength(rawLength)) }

  /** _olm_enc_output_pos: where the caller puts the raw bytes. */
  function OutputPos(output: nat, rawLength: nat): (pos: nat)
    ensures output <= pos && pos + ClosedLength(rawLength) == output + OutputLength(rawLength)
  {
    Base64.PromisedOverlaps(ClosedLength(rawLength), output);
    output + OutputLength(rawLength) - ClosedLength(rawLength)
  }

  // ----- the code -----

  lemma TwoOverwrites(was: seq<byte>, at: nat, c: seq<byte>, m: seq<byte>)
    requires at + |c| + |m| <= |was|
    ensures Overwrite(was, at, c)[at..at + |c|] == c
    ensures Overwrite(Overwrite(was, at, c), at + |c|, m)[at..at + |c| + |m|] == c + m
  {
  }

  /** s stands in memory at a place. */
  ghost predicate Stands(mem: seq<byte>, at: nat, s: seq<byte>) {
    at + |s| <= |mem| && mem[at..at + |s|] == s
  }

  lemma ClosedInMemory(p: Primitives, k: Keys, was: seq<byte>, mem: seq<byte>, raw: seq<byte>, at: nat)
    requires EncryptedMemory(p, k, was, mem, raw, at, at, ClosedLength(|raw|))
    ensures p.Valid() && |k.aes| == 32 && |k.iv| == 16 && Stands(mem, at, Closed(p, k, raw))
  {
    hide Primitives.Valid, Ciphertext, Mac, Overwrite, CbcLength;
    CiphertextIs(p, k, raw);
    var c := Ciphertext(p, k, raw);
    MacIsAtEnd(p, k, was, mem, c, at);
  }

  lemma MacIsAtEnd(p: Primitives, k: Keys, was: seq<byte>, mem: seq<byte>, c: seq<byte>, at: nat)
    requires at + |c| + MAC_LENGTH <= |was|
    requires mem == WithMac(p, k, Overwrite(was, at, c), at, |c| + MAC_LENGTH)
    ensures Stands(mem, at, c + Mac(p, k, c))
  {
    hide Mac, Overwrite;
    TwoOverwrites(was, at, c, Mac(p, k, c));
  }

  /** _olm_enc_output */
  method EncOutput(p: Primitives, key: seq<byte>, mem: array<byte>, output: nat, rawLength: nat, ghost raw: seq<byte>)
    returns (length: nat)
    requires p.Valid() && |key| < TWO32 && ClosedLength(rawLength) < TWO32
    requires output + OutputLength(rawLength) <= mem.Length
    requires |raw| == rawLength && Stands(mem[..], OutputPos(output, rawLength), raw)
    modifies mem
    ensures length == OutputLength(rawLength)
    ensures Stands(mem[..], output, Base64.Encoded(Closed(p, DerivedKeys(p, INFO, key), raw)))
  {
    hide Primitives.Valid, DerivedKeys, EncryptedMemory, Closed, Base64.Encoded, Base64.EncodedLength,
      Base64.EncodeOverlap, CbcLength, Cbc.Overlap, Stands;
    var rawOutput := OutputPos(output, rawLength);
    Base64.PromisedOverlaps(ClosedLength(rawLength), output);
    Seal(p, key, mem, rawOutput, rawLength, raw);
    EncodeAt(mem, rawOutput, ClosedLength(rawLength), output, Closed(p, DerivedKeys(p, INFO, key), raw));
    length := OutputLength(rawLength);
  }

  method EncodeAt(mem: array<byte>, input: nat, n: nat, output: nat, ghost s: seq<byte>)
    requires Stands(mem[..], input, s) && |s| == n && output + Base64.EncodedLength(n) <= mem.Length
    requires Base64.EncodeOverlap(input, n, output)
    modifies mem
    ensures Stands(mem[..], output, Base64.Encoded(s))
  {
    hide Primitives.Valid, Base64.Encoded, Base64.EncodedLength, Base64.EncodeOverlap;
    InArray(mem, input, s);
    var end := Base64.EncodeBase64(mem, input, n, output);
    InWhole(mem, output, Base64.Encoded(s));
  }

  lemma InArray(mem: array<byte>, at: nat, s: seq<byte>)
    requires Stands(mem[..], at, s)
    ensures at + |s| <= mem.Length && mem[at..at + |s|] == s
  {
    assert mem[..][at..at + |s|] == mem[at..at + |s|];
  }

  lemma InWhole(mem: array<byte>, at: nat, s: seq<byte>)
    requires at + |s| <= mem.Length && mem[at..at + |s|] == s
    ensures Stands(mem[..], at, s)
  {
    assert mem[..][at..at + |s|] == mem[at..at + |s|];
  }

  lemma SameStart(at: nat, n: nat)
    ensures Cbc.Overlap(at, n, at)
  {
  }

  /** The first half: encrypt and authenticate where the raw bytes stand. */
  method Seal(p: Primitives, key: seq<byte>, mem: array<byte>, at: nat, rawLength: nat, ghost raw: seq<byte>)
    requires p.Valid() && |key| < TWO32 && ClosedLength(rawLength) < TWO32
    requires at + ClosedLength(rawLength) <= mem.Length
    requires |raw| == rawLength && Stands(mem[..], at, raw)
    modifies mem
    ensures Stands(mem[..], at, Closed(p, DerivedKeys(p, INFO, key), raw))
  {
    hide Primitives.Valid, DerivedKeys, EncryptedMemory, Closed, Cbc.Overlap;
    SameStart(at, rawLength);
    ghost var was := mem[..];
    InArray(mem, at, raw);
    hide Primitives.Valid, Stands;
    var ok := CipherEncrypt(p, INFO, key, mem, at, rawLength, at, CbcLength(rawLength), at, ClosedLength(rawLength));
    ClosedInMemory(p, DerivedKeys(p, INFO, key), was, mem[..], raw, at);
  }

  /** The second half of reading: check the MAC and decrypt where the ciphertext stands. */
  method Unseal(p: Primitives, key: seq<byte>, mem: array<byte>, at: nat, n: nat, ghost s: seq<byte>)
    returns (length: Option<nat>)
    requires p.Valid() && |key| < TWO32 && n == |s| < TWO32 && Stands(mem[..], at, s)
    requires WholeBlocks(p, DerivedKeys(p, INFO, key), s)
    modifies mem
    ensures OpenedTo(mem[..], at, Opened(p, DerivedKeys(p, INFO, key), s), length)
  {
    hide Primitives.Valid, DerivedKeys, Authentic, Cbc.Overlap, DecryptedMemory, Opened, OpenedTo, Stands, GoodMac;
    ghost var k, was := DerivedKeys(p, INFO, key), mem[..];
    var rawLength := if n < MAC_LENGTH then 0 else n - MAC_LENGTH;
    AuthenticIs(p, k, was, at, n, s);
    CoveredStands(was, at, s);
    length := DecryptAt(p, key, mem, at, n, rawLength, Covered(s));
    OpenedIs(p, k, s, was, mem[..], at, length);
  }

  method DecryptAt(p: Primitives, key: seq<byte>, mem: array<byte>, at: nat, n: nat, rawLength: nat, ghost c: seq<byte>)
    returns (length: Option<nat>)
    requires p.Valid() && |key| < TWO32 && n < TWO32 && at + n <= mem.Length
    requires rawLength == |c| == (if n < MAC_LENGTH then 0 else n - MAC_LENGTH) && Stands(mem[..], at, c)
    requires Authentic(p, DerivedKeys(p, INFO, key), mem[..], at, n) ==> |c| > 0 && |c| % 16 == 0
    modifies mem
    ensures Authentic(p, DerivedKeys(p, INFO, key), old(mem[..]), at, n)
        ==> DecryptedMemory(p, DerivedKeys(p, INFO, key), c, old(mem[..]), mem[..], at, length)
    ensures !Authentic(p, DerivedKeys(p, INFO, key), old(mem[..]), at, n) ==> length == None
  {
    hide Primitives.Valid, DerivedKeys, Authentic, Cbc.Overlap, DecryptedMemory, Stands;
    SameStart(at, rawLength);
    InArray(mem, at, c);
    length := CipherDecrypt(p, INFO, key, mem, at, n, at, rawLength, at, rawLength);
  }

  /** What reading left behind: the raw bytes at the place, or nothing. */
  ghost predicate OpenedTo(mem: seq<byte>, at: nat, raw: Option<seq<byte>>, length: Option<nat>) {
    if raw.None? then length == None else length == Some(|raw.value|) && Stands(mem, at, raw.value)
  }

  lemma CoveredStands(mem: seq<byte>, at: nat, s: seq<byte>)
    requires Stands(mem, at, s)
    ensures at + |s| <= |mem| && Stands(mem, at, Covered(s))
  {
    if |s| >= MAC_LENGTH {
      assert mem[at..at + |Covered(s)|] == mem[at..at + |s|][..|s| - MAC_LENGTH];
    }
  }

  lemma OpenedIs(p: Primitives, k: Keys, s: seq<byte>, was: seq<byte>, mem: seq<byte>, at: nat, length: Option<nat>)
    requires p.Valid() && |k.aes| == 32 && |k.iv| == 16 && WholeBlocks(p, k, s)
    requires GoodMac(p, k, s) ==> DecryptedMemory(p, k, Covered(s), was, mem, at, length)
    requires !GoodMac(p, k, s) ==> length == None
    ensures OpenedTo(mem, at, Opened(p, k, s), length)
  {
    hide Primitives.Valid, GoodMac, Plaintext, Covered;
  }

  lemma AuthenticIs(p: Primitives, k: Keys, mem: seq<byte>, at: nat, n: nat, s: seq<byte>)
    requires n == |s| && Stands(mem, at, s)
    ensures Authentic(p, k, mem, at, n) <==> GoodMac(p, k, s)
  {
    hide Primitives.Valid, Mac;
    if n >= MAC_LENGTH {
      assert Covered(s) == mem[at..at + n - MAC_LENGTH];
      assert s[n - MAC_LENGTH..] == mem[at + n - MAC_LENGTH..at + n - MAC_LENGTH + MAC_LENGTH];
    }
  }

  /** What _olm_enc_input makes of the characters. */
  ghost predicate ReadTo(p: Primitives, k: Keys, chars: seq<byte>, mem: seq<byte>, at: nat, result: Outcome)
    requires p.Valid() && |k.aes| == 32 && |k.iv| == 16 && DecodesWhole(p, k, chars)
  {
    var s := Base64.Decoded(chars);
    if s.None? then result == InvalidBase64
    else
      var raw := Opened(p, k, s.value);
      if raw.None? then result == BadAccountKey else result == Success(|raw.value|) && Stands(mem, at, raw.value)
  }

  ghost predicate DecodesWhole(p: Primitives, k: Keys, chars: seq<byte>) {
    var s := Base64.Decoded(chars);
    s.Some? ==> WholeBlocks(p, k, s.value)
  }

  /** _olm_enc_input */
  method EncInput(p: Primitives, key: seq<byte>, mem: array<byte>, input: nat, b64Length: nat, ghost chars: seq<byte>)
    returns (result: Outcome)
    requires p.Valid() && |key| < TWO32 && |chars| == b64Length < TWO32 && Stands(mem[..], input, chars)
    requires DecodesWhole(p, DerivedKeys(p, INFO, key), chars)
    modifies mem
    ensures ReadTo(p, DerivedKeys(p, INFO, key), chars, mem[..], input, result)
  {
    hide Primitives.Valid, DerivedKeys, Base64.Decoded, WholeBlocks, Opened, Base64.DecodeOverlap,
      Base64.DecodedLength, Stands;
    var encLength := DecodeAt(mem, input, b64Length, chars);
    ghost var s := Base64.Decoded(chars);
    if encLength.None? {
      return InvalidBase64;
    }
    var rawLength := Unseal(p, key, mem, input, encLength.value, s.value);
    result := if rawLength.None? then BadAccountKey else Success(rawLength.value);
  }

  method DecodeAt(mem: array<byte>, input: nat, n: nat, ghost chars: seq<byte>) returns (length: Option<nat>)
    requires |chars| == n && Stands(mem[..], input, chars)
    modifies mem
    ensures var s := Base64.Decoded(chars);
      if s.None? then length == None else length == Some(|s.value|) && |s.value| <= n && Stands(mem[..], input, s.value)
  {
    hide Primitives.Valid, Base64.Decoded, Base64.DecodeOverlap, Base64.DecodedLength, Base64.Quad, Base64.Octet;
    InArray(mem, input, chars);
    DecodeInPlace(input, n);
    length := Base64.DecodeBase64(mem, input, n, input);
    if length.Some? {
      InWhole(mem, input, mem[input..input + length.value]);
    }
  }

  lemma DecodeInPlace(input: nat, n: nat)
    ensures Base64.DecodeOverlap(input, n, input)
    ensures Base64.DecodedLength(n).Some? ==> Base64.DecodedLength(n).value <= n
  {
    Base64.LengthsByGroup(n / 4, n % 4);
    hide Primitives.Valid, Base64.DecodedLength;
  }

  /** What was written at the tail of a buffer and put away is what reading the buffer gives back. */
  lemma PickleRoundTrip(p: Primitives, key: seq<byte>, raw: seq<byte>)
    requires p.Valid()
    ensures var k := DerivedKeys(p, INFO, key);
      && Base64.Decoded(Base64.Encoded(Closed(p, k, raw))) == Some(Closed(p, k, raw))
      && WholeBlocks(p, k, Closed(p, k, raw)) && Opened(p, k, Closed(p, k, raw)) == Some(raw)
  {
    hide Primitives.Valid, DerivedKeys, Closed, Base64.Decoded, Base64.Encoded;
    OpenedClosed(p, DerivedKeys(p, INFO, key), raw);
    Base64.RoundTrip(Closed(p, DerivedKeys(p, INFO, key), raw));
  }
}
