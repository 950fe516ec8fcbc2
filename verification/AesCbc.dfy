/** AES on blocks of bytes, and as the block cipher under CBC. */
module AesCbc {
  import opened Words
  import opened Aes
  import opened AesRounds
  import Cbc

  // ----- bytes as numbers and bytes as bits -----

  function ToOctet(b: byte): Octet { Octet(b as bv8) }
  function FromOctet(o: Octet): (b: byte) { o.bits as int }

  lemma OctetThrough(o: Octet)
    ensures ToOctet(FromOctet(o)) == o
  {
  }

  lemma DoubleBits(b: bv8)
    requires b as int < 128
    ensures (b << 1) as int == 2 * (b as int)
  {
  }

  lemma DoubleBitsAndOne(b: bv8)
    requires b as int < 128
    ensures ((b << 1) | 1) as int == 2 * (b as int) + 1
  {
    assert b & 0x80 == 0;
  }

  lemma {:induction false} OctetFor(x: nat) returns (o: Octet)
    requires x < 256
    ensures FromOctet(o) == x
  {
    if x == 0 {
      o := Octet(0);
    } else {
      var half := OctetFor(x / 2);
      if x % 2 == 0 {
        DoubleBits(half.bits);
        o := Octet(half.bits << 1);
      } else {
        DoubleBitsAndOne(half.bits);
        o := Octet((half.bits << 1) | 1);
      }
    }
  }

  lemma ByteThrough(b: byte)
    ensures FromOctet(ToOctet(b)) == b
  {
    var o := OctetFor(b);
    OctetThrough(o);
    hide ToOctet, FromOctet;
  }

  function Octets(b: seq<byte>): (o: seq<Octet>)
    ensures |o| == |b|
  {
    seq(|b|, i requires 0 <= i < |b| => ToOctet(b[i]))
  }

  function Bytes(o: seq<Octet>): (b: seq<byte>)
    ensures |b| == |o|
  {
    seq(|o|, i requires 0 <= i < |o| => FromOctet(o[i]))
  }

  lemma OctetsThrough(o: seq<Octet>)
    ensures Octets(Bytes(o)) == o
  {
    hide ToOctet, FromOctet;
    forall i | 0 <= i < |o|
      ensures Octets(Bytes(o))[i] == o[i]
    {
      OctetThrough(o[i]);
    }
  }

  lemma BytesThrough(b: seq<byte>)
    ensures Bytes(Octets(b)) == b
  {
    hide ToOctet, FromOctet;
    forall i | 0 <= i < |b|
      ensures Bytes(Octets(b))[i] == b[i]
    {
      ByteThrough(b[i]);
    }
  }

  // ----- aes_encrypt and aes_decrypt -----

  ghost predicate Scheduled(w: seq<bv32>, keysize: nat) {
    keysize in {128, 192, 256} && |w| == 4 * Rounds(keysize) + 4
  }

  function EncryptedBytes(w: seq<bv32>, keysize: nat, b: seq<byte>): (c: seq<byte>)
    requires Scheduled(w, keysize) && |b| == 16
    ensures |c| == 16
  {
    Bytes(Encrypted(Octets(b), w, Rounds(keysize)))
  }

  function DecryptedBytes(w: seq<bv32>, keysize: nat, c: seq<byte>): (b: seq<byte>)
    requires Scheduled(w, keysize) && |c| == 16
    ensures |b| == 16
  {
    Bytes(Decrypted(Octets(c), w, Rounds(keysize)))
  }

  lemma AesInverse(w: seq<bv32>, keysize: nat, b: seq<byte>)
    requires Scheduled(w, keysize) && |b| == 16
    ensures DecryptedBytes(w, keysize, EncryptedBytes(w, keysize, b)) == b
  {
    hide Bytes, Octets, Encrypted, Decrypted;
    OctetsThrough(Encrypted(Octets(b), w, Rounds(keysize)));
    DecryptedEncrypted(Octets(b), w, Rounds(keysize));
    BytesThrough(b);
  }

  method Load(input: seq<byte>) returns (state: array2<Octet>)
    requires |input| == 16
    ensures fresh(state) && state.Length0 == state.Length1 == 4 && Flat(state) == Octets(input)
  {
    hide ToOctet;
    state := new Octet[4, 4]((r, c) requires 0 <= r < 4 && 0 <= c < 4 => ToOctet(input[4 * c + r]));
  }

  method AesEncrypt(input: seq<byte>, w: seq<bv32>, keysize: nat) returns (output: seq<byte>)
    requires |input| == 16 && Scheduled(w, keysize)
    ensures output == EncryptedBytes(w, keysize, input)
  {
    hide Flat, Encrypted, Octets, Bytes;
    var state := Load(input);
    EncryptState(state, w, keysize);
    output := Bytes(Flat(state));
  }

  method AesDecrypt(input: seq<byte>, w: seq<bv32>, keysize: nat) returns (output: seq<byte>)
    requires |input| == 16 && Scheduled(w, keysize)
    ensures output == DecryptedBytes(w, keysize, input)
  {
    hide Flat, Decrypted, Octets, Bytes;
    var state := Load(input);
    DecryptState(state, w, keysize);
    output := Bytes(Flat(state));
  }

  // ----- under CBC -----

  /** The block cipher of one key schedule. */
  function Cipher(w: seq<bv32>, keysize: nat): Cbc.BlockCipher
    requires Scheduled(w, keysize)
  {
    Cbc.BlockCipher(b => if |b| == 16 then EncryptedBytes(w, keysize, b) else [],
                    c => if |c| == 16 then DecryptedBytes(w, keysize, c) else [])
  }

  /** The same for any words; what is not a schedule enciphers nothing. */
  function CipherFor(w: seq<bv32>, keysize: nat): Cbc.BlockCipher {
    if keysize in {128, 192, 256} && |w| == 4 * Rounds(keysize) + 4 then Cipher(w, keysize)
    else Cbc.BlockCipher(b => [], c => [])
  }

  lemma AesIsBlockCipher(w: seq<bv32>, keysize: nat)
    requires Scheduled(w, keysize)
    ensures Cipher(w, keysize).Valid() && CipherFor(w, keysize) == Cipher(w, keysize)
  {
    hide EncryptedBytes, DecryptedBytes;
    forall b: seq<byte> | |b| == 16
      ensures DecryptedBytes(w, keysize, EncryptedBytes(w, keysize, b)) == b
    {
      AesInverse(w, keysize, b);
    }
  }

  /** AES in CBC mode gives back every message, whatever its length, the key schedule and the vector. */
  lemma AesCbcRoundTrip(w: seq<bv32>, keysize: nat, iv: seq<byte>, m: seq<byte>)
    requires Scheduled(w, keysize) && |iv| == 16
    ensures Cbc.Recovers(Cipher(w, keysize), iv, m)
  {
    AesIsBlockCipher(w, keysize);
    hide Cipher;
    Cbc.CbcRoundTrip(Cipher(w, keysize), iv, m);
  }
}
