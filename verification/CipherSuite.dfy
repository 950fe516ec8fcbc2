/** The AES-SHA-256 cipher (src/cipher.cpp): CBC, and a truncated HMAC at the end of the output. */
module CipherSuite {
  import opened Words
  import opened Sha256
  import opened Hkdf
  import opened MessageCodec
  import Cbc
  import AesCbc

  const MAC_LENGTH := 8

  /** The block transform of SHA-256, and the block cipher of a key. */
  datatype Primitives = Primitives(transform: Transform, cipher: seq<byte> -> Cbc.BlockCipher)
  {
    ghost predicate Valid() {
      forall k: seq<byte> :: |k| == 32 ==> cipher(k).Valid()
    }
  }

  /** With AES, whatever its key schedule. */
  lemma AesPrimitives(transform: Transform, schedule: seq<byte> -> seq<bv32>)
    requires forall k: seq<byte> :: |k| == 32 ==> AesCbc.Scheduled(schedule(k), 256)
    ensures Primitives(transform, (k: seq<byte>) => AesCbc.CipherFor(schedule(k), 256)).Valid()
  {
    forall k: seq<byte> | |k| == 32
      ensures AesCbc.CipherFor(schedule(k), 256).Valid()
    {
      AesCbc.AesIsBlockCipher(schedule(k), 256);
    }
  }

  datatype Keys = Keys(aes: seq<byte>, mac: seq<byte>, iv: seq<byte>)

  /** derive_keys: 80 bytes of HKDF without salt, cut in three. */
  function DerivedKeys(p: Primitives, info: seq<byte>, key: seq<byte>): (k: Keys)
    ensures |k.aes| == 32 && |k.mac| == 32 && |k.iv| == 16
  {
    var secrets := Expand(p.transform, Extract(p.transform, None, key), info, 80);
    Keys(secrets[..32], secrets[32..64], secrets[64..])
  }

  function Ciphertext(p: Primitives, k: Keys, plaintext: seq<byte>): (c: seq<byte>)
    requires p.Valid() && |k.aes| == 32 && |k.iv| == 16
    ensures |c| == CbcLength(|plaintext|) && |c| % 16 == 0 && |c| > 0
  {
    Cbc.Chained(p.cipher(k.aes), k.iv, Cbc.Padded(plaintext))
  }

  function Mac(p: Primitives, k: Keys, covered: seq<byte>): (m: seq<byte>)
    ensures |m| == MAC_LENGTH
  {
    Hmac(p.transform, k.mac, covered)[..MAC_LENGTH]
  }

  /** What decryption makes of a ciphertext of whole blocks. */
  function Plaintext(p: Primitives, k: Keys, c: seq<byte>): Option<seq<byte>>
    requires p.Valid() && |k.aes| == 32 && |k.iv| == 16 && |c| > 0 && |c| % 16 == 0
  {
    KeptOf(Cbc.Unchained(p.cipher(k.aes), k.iv, c))
  }

  lemma PlaintextOfCiphertext(p: Primitives, k: Keys, m: seq<byte>)
    requires p.Valid() && |k.aes| == 32 && |k.iv| == 16
    ensures Plaintext(p, k, Ciphertext(p, k, m)) == Some(m)
  {
    hide Cbc.BlockCipher.Valid, Cbc.Unchained, Cbc.Chained, Cbc.Padded, Cbc.Unpadded;
    Cbc.CbcRoundTrip(p.cipher(k.aes), k.iv, m);
  }

  /** The 80 bytes are the AES key, the MAC key and the initial vector, in this order; the MAC is the first 8
   *  bytes of an HMAC under the second. */
  lemma KeysAndMac(p: Primitives, info: seq<byte>, key: seq<byte>, covered: seq<byte>)
    ensures var k := DerivedKeys(p, info, key);
      var secrets := Expand(p.transform, Hmac(p.transform, seq(32, i => 0), key), info, 80);
      && k.aes + k.mac + k.iv == secrets && |k.aes| == 32 && |k.mac| == 32 && |k.iv| == 16
      && Mac(p, k, covered) == Hmac(p.transform, secrets[32..64], covered)[..8]
  {
    hide Expand, Hmac;
    ExtractFormula(p.transform, [], key);
    hide Extract;
    var secrets := Expand(p.transform, Extract(p.transform, None, key), info, 80);
    assert secrets[..32] + secrets[32..64] + secrets[64..] == secrets;
  }

  /** Block j of the ciphertext, over AES with the first key and the initial vector. */
  lemma CiphertextBlocks(p: Primitives, k: Keys, m: seq<byte>, j: nat)
    requires p.Valid() && |k.aes| == 32 && |k.iv| == 16 && 16 * j <= |m|
    ensures var c, padded := Ciphertext(p, k, m), Cbc.Padded(m);
      && 16 * (j + 1) <= |c| == |padded|
      && c[16 * j..16 * j + 16]
           == p.cipher(k.aes).encrypt(Cbc.XorBlock(if j == 0 then k.iv else c[16 * j - 16..16 * j],
                                                  padded[16 * j..16 * j + 16]))
  {
    hide Cbc.BlockCipher.Valid, Cbc.Chained, Cbc.XorBlock;
    Cbc.PaddedShape(m);
    assert 16 * (j + 1) <= |Cbc.Padded(m)| by { WholeAbove(j, |m|, |Cbc.Padded(m)|); }
    hide Cbc.Padded;
    Cbc.ChainedBlock(p.cipher(k.aes), k.iv, Cbc.Padded(m), j);
  }

  lemma WholeAbove(j: nat, n: nat, whole: nat)
    requires 16 * j <= n < whole && whole % 16 == 0
    ensures 16 * (j + 1) <= whole
  {
  }

  // ----- the code -----

  method DeriveKeys(p: Primitives, info: seq<byte>, key: seq<byte>) returns (k: Keys)
    requires |info| < TWO32 && |key| < TWO32
    ensures k == DerivedKeys(p, info, key)
  {
    hide Cbc.BlockCipher.Valid, Expand, Extract;
    var secrets := new byte[80];
    HkdfSha256(p.transform, key, None, info, secrets);
    var s := secrets[..];
    k := Keys(s[..32], s[32..64], s[64..]);
  }

  lemma OverwriteFrom(was: seq<byte>, mem: seq<byte>, at: nat, s: seq<byte>)
    requires at + |s| <= |mem| && mem[at..at + |s|] == s && Cbc.SameBut(was, mem, at, |s|)
    ensures at + |s| <= |was| && mem == Overwrite(was, at, s)
  {
    forall k | 0 <= k < |mem|
      ensures mem[k] == Overwrite(was, at, s)[k]
    {
      if at <= k < at + |s| {
        assert mem[k] == mem[at..at + |s|][k - at];
      }
    }
  }

  /** Memory once the ciphertext is in place, and once the MAC is in place over it. */
  function WithCiphertext(p: Primitives, k: Keys, was: seq<byte>, m: seq<byte>, at: nat): (mem: seq<byte>)
    requires p.Valid() && |k.aes| == 32 && |k.iv| == 16 && at + CbcLength(|m|) <= |was|
    ensures |mem| == |was|
  {
    Overwrite(was, at, Ciphertext(p, k, m))
  }

  function WithMac(p: Primitives, k: Keys, mem: seq<byte>, output: nat, outputLength: nat): (r: seq<byte>)
    requires MAC_LENGTH <= outputLength && output + outputLength <= |mem|
    ensures |r| == |mem|
  {
    var end := output + outputLength - MAC_LENGTH;
    Overwrite(mem, end, Mac(p, k, mem[output..end]))
  }

  lemma CiphertextIs(p: Primitives, k: Keys, m: seq<byte>)
    requires p.Valid() && |k.aes| == 32 && |k.iv| == 16
    ensures Ciphertext(p, k, m) == Cbc.Chained(p.cipher(k.aes), k.iv, Cbc.Padded(m))
    ensures |Ciphertext(p, k, m)| == CbcLength(|m|)
  {
    hide Cbc.BlockCipher.Valid, Cbc.Chained;
  }

  ghost predicate StoredCiphertext(p: Primitives, k: Keys, was: seq<byte>, mem: seq<byte>, m: seq<byte>, at: nat) {
    && p.Valid() && |k.aes| == 32 && |k.iv| == 16 && at + CbcLength(|m|) <= |was|
    && mem == WithCiphertext(p, k, was, m, at)
  }

  /** Memory after encryption. The MAC covers the output up to itself, whatever stands there. */
  ghost predicate EncryptedMemory(p: Primitives, k: Keys, was: seq<byte>, mem: seq<byte>, m: seq<byte>, ciphertext: nat,
                                  output: nat, outputLength: nat)
  {
    && p.Valid() && |k.aes| == 32 && |k.iv| == 16 && ciphertext + CbcLength(|m|) <= |was|
    && MAC_LENGTH <= outputLength && output + outputLength <= |was|
    && mem == WithMac(p, k, WithCiphertext(p, k, was, m, ciphertext), output, outputLength)
  }

  /** aes_sha_256_cipher_encrypt */
  method CipherEncrypt(p: Primitives, info: seq<byte>, key: seq<byte>, mem: array<byte>, plaintext: nat, n: nat,
                       ciphertext: nat, ciphertextLength: nat, output: nat, outputLength: nat) returns (ok: bool)
    requires p.Valid() && |info| < TWO32 && |key| < TWO32 && outputLength < TWO32
    requires plaintext + n <= mem.Length && output + outputLength <= mem.Length
    requires ciphertext + ciphertextLength <= mem.Length && Cbc.Overlap(plaintext, n, ciphertext)
    modifies mem
    ensures ok <==> CbcLength(n) <= ciphertextLength && MAC_LENGTH <= outputLength
    ensures !ok ==> mem[..] == old(mem[..])
    ensures ok ==> EncryptedMemory(p, DerivedKeys(p, info, key), old(mem[..]), mem[..],
                                   old(mem[plaintext..plaintext + n]),
                                   ciphertext, output, outputLength)
  {
    hide Cbc.BlockCipher.Valid, DerivedKeys, WithMac, WithCiphertext;
    ghost var was, m := mem[..], mem[plaintext..plaintext + n];
    if ciphertextLength < CbcLength(n) || outputLength < MAC_LENGTH {
      return false;
    }
    var k := DeriveKeys(p, info, key);
    StoreCiphertext(p, k, mem, plaintext, n, ciphertext);
    StoreMac(p, k, mem, output, outputLength);
    return true;
  }

  method StoreCiphertext(p: Primitives, k: Keys, mem: array<byte>, plaintext: nat, n: nat, ciphertext: nat)
    requires p.Valid() && |k.aes| == 32 && |k.iv| == 16
    requires plaintext + n <= mem.Length && ciphertext + CbcLength(n) <= mem.Length
    requires Cbc.Overlap(plaintext, n, ciphertext)
    modifies mem
    ensures StoredCiphertext(p, k, old(mem[..]), mem[..], old(mem[plaintext..plaintext + n]), ciphertext)
  {
    hide Cbc.BlockCipher.Valid, Cbc.SameBut, Ciphertext, Cbc.Chained, Cbc.Padded, Overwrite;
    ghost var was, m := mem[..], mem[plaintext..plaintext + n];
    Cbc.EncryptCbc(mem, p.cipher(k.aes), k.iv, plaintext, n, ciphertext);
    CiphertextIs(p, k, m);
    assert mem[..][ciphertext..ciphertext + CbcLength(n)] == mem[ciphertext..ciphertext + CbcLength(n)];
    OverwriteFrom(was, mem[..], ciphertext, Ciphertext(p, k, m));
  }

  method StoreMac(p: Primitives, k: Keys, mem: array<byte>, output: nat, outputLength: nat)
    requires MAC_LENGTH <= outputLength && output + outputLength <= mem.Length && outputLength < TWO32 && |k.mac| == 32
    modifies mem
    ensures mem[..] == WithMac(p, k, old(mem[..]), output, outputLength)
  {
    hide Cbc.BlockCipher.Valid, Hmac, Cbc.SameBut, Cbc.At, Overwrite;
    ghost var was := mem[..];
    var end := output + outputLength - MAC_LENGTH;
    var covered := mem[output..end];
    assert covered == was[output..end];
    var mac := HmacSha256(p.transform, k.mac, covered);
    Cbc.CopyTo(mem, end, mac[..MAC_LENGTH]);
    Cbc.AtSlice(mem[..], end, mac[..MAC_LENGTH]);
    OverwriteFrom(was, mem[..], end, mac[..MAC_LENGTH]);
  }

  /** The outcome of decrypting c in place of memory: the plaintext at its place, or None. */
  ghost predicate DecryptedMemory(p: Primitives, k: Keys, c: seq<byte>, was: seq<byte>, mem: seq<byte>, plaintext: nat,
                                  length: Option<nat>)
  {
    && p.Valid() && |k.aes| == 32 && |k.iv| == 16 && |c| > 0 && |c| % 16 == 0
    && Cbc.SameBut(was, mem, plaintext, |c|)
    && match Plaintext(p, k, c)
       case None => length == None
       case Some(m) => length == Some(|m|) && plaintext + |m| <= |mem| && mem[plaintext..plaintext + |m|] == m
  }

  /** aes_sha_256_cipher_decrypt. Nothing is written unless the MAC is right. A right MAC over a ciphertext
   *  that is not of whole blocks is excluded: see Cbc.StaysInside. */
  method CipherDecrypt(p: Primitives, info: seq<byte>, key: seq<byte>, mem: array<byte>, input: nat, inputLength: nat,
                       ciphertext: nat, n: nat, plaintext: nat, maxLength: nat) returns (length: Option<nat>)
    requires p.Valid() && |info| < TWO32 && |key| < TWO32 && inputLength < TWO32
    requires input + inputLength <= mem.Length
    requires n <= maxLength && MAC_LENGTH <= inputLength ==>
               ciphertext + n <= mem.Length && plaintext + maxLength <= mem.Length
    requires Cbc.Overlap(ciphertext, n, plaintext)
    requires n <= maxLength && Authentic(p, DerivedKeys(p, info, key), mem[..], input, inputLength) ==>
               n > 0 && n % 16 == 0
    modifies mem
    ensures n <= maxLength && Authentic(p, DerivedKeys(p, info, key), old(mem[..]), input, inputLength)
        ==> DecryptedMemory(p, DerivedKeys(p, info, key), old(mem[ciphertext..ciphertext + n]), old(mem[..]), mem[..],
                            plaintext, length)
    ensures !(n <= maxLength && Authentic(p, DerivedKeys(p, info, key), old(mem[..]), input, inputLength))
        ==> length == None && mem[..] == old(mem[..])
  {
    hide Cbc.BlockCipher.Valid, DerivedKeys, Authentic, DecryptedMemory, Cbc.Overlap;
    if maxLength < n {
      return None;
    }
    if inputLength < MAC_LENGTH {
      ShortIsNot(p, DerivedKeys(p, info, key), mem[..], input, inputLength);
      return None;
    }
    var k := DeriveKeys(p, info, key);
    var good := CheckMac(p, k, mem, input, inputLength);
    if !good {
      return None;
    }
    length := DecryptInto(p, k, mem, ciphertext, n, plaintext);
  }

  lemma ShortIsNot(p: Primitives, k: Keys, mem: seq<byte>, input: nat, inputLength: nat)
    requires inputLength < MAC_LENGTH
    ensures !Authentic(p, k, mem, input, inputLength)
  {
  }

  method DecryptInto(p: Primitives, k: Keys, mem: array<byte>, ciphertext: nat, n: nat, plaintext: nat)
    returns (length: Option<nat>)
    requires p.Valid() && |k.aes| == 32 && |k.iv| == 16 && n > 0 && n % 16 == 0
    requires ciphertext + n <= mem.Length && plaintext + n <= mem.Length && Cbc.Overlap(ciphertext, n, plaintext)
    modifies mem
    ensures DecryptedMemory(p, k, old(mem[ciphertext..ciphertext + n]), old(mem[..]), mem[..], plaintext, length)
  {
    hide Cbc.BlockCipher.Valid, Cbc.Unchained, Cbc.Unpadded, Cbc.SameBut, Plaintext, Cbc.Overlap;
    ghost var was, c := mem[..], mem[ciphertext..ciphertext + n];
    length := Cbc.DecryptCbc(mem, p.cipher(k.aes), k.iv, ciphertext, n, plaintext);
    assert mem[..][plaintext..plaintext + n] == mem[plaintext..plaintext + n];
    hide Cbc.BlockCipher.Valid, DecryptedMemory;
    DecryptedHolds(p, k, c, was, mem[..], plaintext, length, mem[plaintext..plaintext + n]);
  }

  ghost predicate Unchains(p: Primitives, k: Keys, c: seq<byte>, padded: seq<byte>) {
    && p.Valid() && |k.aes| == 32 && |k.iv| == 16 && |c| > 0 && |c| % 16 == 0
    && padded == Cbc.Unchained(p.cipher(k.aes), k.iv, c)
  }

  lemma DecryptedHolds(p: Primitives, k: Keys, c: seq<byte>, was: seq<byte>, mem: seq<byte>, plaintext: nat,
                       length: Option<nat>, padded: seq<byte>)
    requires Unchains(p, k, c, padded) && |padded| == |c| > 0 && plaintext + |c| <= |mem|
    requires Cbc.SameBut(was, mem, plaintext, |c|)
    requires mem[plaintext..plaintext + |c|] == padded && length == Cbc.Unpadded(padded)
    ensures DecryptedMemory(p, k, c, was, mem, plaintext, length)
  {
    hide Unchains, Primitives.Valid, Cbc.Unpadded, Cbc.SameBut, Plaintext;
    PlaintextIs(p, k, c, padded);
    if length.Some? {
      FrontOfSlice(mem, plaintext, |c|, length.value);
    }
  }

  lemma FrontOfSlice(mem: seq<byte>, at: nat, n: nat, m: nat)
    requires m <= n && at + n <= |mem|
    ensures mem[at..at + n][..m] == mem[at..at + m]
  {
  }

  lemma PlaintextIs(p: Primitives, k: Keys, c: seq<byte>, padded: seq<byte>)
    requires Unchains(p, k, c, padded) && padded != []
    ensures p.Valid() && |k.aes| == 32 && |k.iv| == 16 && |c| > 0 && |c| % 16 == 0
    ensures Plaintext(p, k, c) == KeptOf(padded)
    ensures Cbc.Unpadded(padded).Some? ==> Cbc.Unpadded(padded).value <= |padded|
  {
    hide Cbc.BlockCipher.Valid, Cbc.Unchained;
  }

  function KeptOf(padded: seq<byte>): Option<seq<byte>>
    requires padded != []
  {
    match Cbc.Unpadded(padded)
    case None => None
    case Some(n) => Some(padded[..n])
  }

  /** The MAC at the end of the input is that of what comes before it. */
  ghost predicate Authentic(p: Primitives, k: Keys, mem: seq<byte>, input: nat, inputLength: nat) {
    && MAC_LENGTH <= inputLength && input + inputLength <= |mem|
    && var end := input + inputLength - MAC_LENGTH;
       mem[end..end + MAC_LENGTH] == Mac(p, k, mem[input..end])
  }

  method CheckMac(p: Primitives, k: Keys, mem: array<byte>, input: nat, inputLength: nat) returns (good: bool)
    requires MAC_LENGTH <= inputLength && input + inputLength <= mem.Length && inputLength < TWO32 && |k.mac| == 32
    ensures good == Authentic(p, k, mem[..], input, inputLength)
  {
    hide Cbc.BlockCipher.Valid, Hmac;
    var end := input + inputLength - MAC_LENGTH;
    var mac := HmacSha256(p.transform, k.mac, mem[input..end]);
    good := mem[end..end + MAC_LENGTH] == mac[..MAC_LENGTH];
    assert mem[..][input..end] == mem[input..end] && mem[..][end..end + MAC_LENGTH] == mem[end..end + MAC_LENGTH];
  }
}
