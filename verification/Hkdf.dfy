/** HMAC and HKDF over streaming SHA-256 (src/crypto.cpp). */
module Hkdf {
  import opened Words
  import opened Bitwise
  import opened Sha256

  // ----- section 2 of RFC 2104 -----

  /** The key filled up to a block, hashed first if it is longer. */
  function BlockKey(f: Transform, key: seq<byte>): (k: seq<byte>)
    ensures |k| == 64
  {
    if |key| > 64 then Hash(f, key) + Zeros(32) else key + Zeros(64 - |key|)
  }

  /** Every byte of a block xored with c. */
  function Pad(key: seq<byte>, c: byte): (p: seq<byte>)
    ensures |p| == |key|
  {
    seq(|key|, i requires 0 <= i < |key| => XorByte(key[i], c))
  }

  function Hmac(f: Transform, key: seq<byte>, text: seq<byte>): (h: seq<byte>)
    ensures |h| == 32
  {
    var k := BlockKey(f, key);
    Hash(f, Pad(k, 0x5C) + Hash(f, Pad(k, 0x36) + text))
  }

  // ----- sections 2.2 and 2.3 of RFC 5869 -----

  function Extract(f: Transform, salt: Option<seq<byte>>, input: seq<byte>): seq<byte> {
    Hmac(f, if salt.Some? then salt.value else Zeros(32), input)
  }

  /** T(n); the counter is one byte, which is all the RFC allows for. */
  function Block(f: Transform, prk: seq<byte>, info: seq<byte>, n: nat): (t: seq<byte>)
    ensures |t| == if n == 0 then 0 else 32
  {
    if n == 0 then [] else Hmac(f, prk, Block(f, prk, info, n - 1) + info + [U8(n)])
  }

  /** T(1) | T(2) | ... | T(n) */
  function Blocks(f: Transform, prk: seq<byte>, info: seq<byte>, n: nat): (s: seq<byte>)
    ensures |s| == 32 * n
  {
    if n == 0 then [] else Blocks(f, prk, info, n - 1) + Block(f, prk, info, n)
  }

  function Expand(f: Transform, prk: seq<byte>, info: seq<byte>, length: nat): (okm: seq<byte>)
    ensures |okm| == length
  {
    Blocks(f, prk, info, (length + 31) / 32)[..length]
  }

  /** section 2 of RFC 2104: the inner and the outer block are the key, filled up with zeros, xored with 0x36 and
   *  with 0x5C. */
  lemma HmacFormula(f: Transform, key: seq<byte>, text: seq<byte>, inner: seq<byte>, outer: seq<byte>)
    requires |key| <= 64 && |inner| == |outer| == 64
    requires forall i :: 0 <= i < 64 ==> XorByte(inner[i], 0x36) == if i < |key| then key[i] else 0
    requires forall i :: 0 <= i < 64 ==> XorByte(outer[i], 0x5C) == if i < |key| then key[i] else 0
    ensures Hmac(f, key, text) == Hash(f, outer + Hash(f, inner + text))
  {
    hide XorByte, Hash;
    var k := BlockKey(f, key);
    forall i | 0 <= i < 64
      ensures Pad(k, 0x36)[i] == inner[i] && Pad(k, 0x5C)[i] == outer[i]
    {
      XorByteTwice(inner[i], 0x36);
      XorByteTwice(outer[i], 0x5C);
    }
    assert Pad(k, 0x36) == inner && Pad(k, 0x5C) == outer;
  }

  /** A longer key is hashed first. */
  lemma HmacLongKey(f: Transform, key: seq<byte>, text: seq<byte>)
    requires |key| > 64
    ensures Hmac(f, key, text) == Hmac(f, Hash(f, key), text)
  {
    hide Hash, Pad;
    assert BlockKey(f, key) == BlockKey(f, Hash(f, key));
  }

  /** section 2.2 of RFC 5869: the salt is the key, and 32 zeros stand for a missing one. */
  lemma ExtractFormula(f: Transform, salt: seq<byte>, input: seq<byte>)
    ensures Extract(f, Some(salt), input) == Hmac(f, salt, input)
    ensures Extract(f, None, input) == Hmac(f, seq(32, i => 0), input)
  {
    hide Hmac;
    assert Zeros(32) == seq(32, i => 0);
  }

  /** section 2.3 of RFC 5869: the first block is made from the info and 1, block n + 1 from block n, the info
   *  and n + 1. */
  lemma ExpandFormula(f: Transform, prk: seq<byte>, info: seq<byte>, length: nat, n: nat)
    requires 32 * (n + 1) <= length && n < 255
    ensures var okm := Expand(f, prk, info, length);
      okm[32 * n..32 * (n + 1)]
        == Hmac(f, prk, (if n == 0 then [] else okm[32 * (n - 1)..32 * n]) + info + [n + 1])
  {
    hide Hmac;
    var all := (length + 31) / 32;
    BlocksPrefix(f, prk, info, n + 1, all);
    BlockPlace(f, prk, info, n);
    PartOfFront(Blocks(f, prk, info, all), length, 32 * (n + 1), 32 * n, 32 * (n + 1));
    if n > 0 {
      BlockPlace(f, prk, info, n - 1);
      BlocksPrefix(f, prk, info, n, all);
      PartOfFront(Blocks(f, prk, info, all), length, 32 * n, 32 * (n - 1), 32 * n);
    }
    hide Blocks;
  }

  lemma BlockPlace(f: Transform, prk: seq<byte>, info: seq<byte>, n: nat)
    ensures Blocks(f, prk, info, n + 1)[32 * n..32 * (n + 1)] == Block(f, prk, info, n + 1)
  {
    hide Block;
  }

  lemma PartOfFront(s: seq<byte>, length: nat, front: nat, from: nat, to: nat)
    requires from <= to <= front <= length <= |s|
    ensures s[..length][from..to] == s[..front][from..to]
  {
  }

  lemma {:induction false} BlocksPrefix(f: Transform, prk: seq<byte>, info: seq<byte>, n: nat, m: nat)
    requires n <= m
    ensures Blocks(f, prk, info, m)[..32 * n] == Blocks(f, prk, info, n)
  {
    hide Block;
    var last := Block(f, prk, info, m);
    if n < m {
      BlocksPrefix(f, prk, info, n, m - 1);
      FrontOfSum(Blocks(f, prk, info, m - 1), last, 32 * n);
    } else {
      FrontOfSum(Blocks(f, prk, info, m), [], 32 * m);
    }
  }

  lemma FrontOfSum(a: seq<byte>, b: seq<byte>, k: nat)
    requires k <= |a|
    ensures (a + b)[..k] == a[..k]
    ensures k == |a| ==> a[..k] == a
  {
  }

  /** Asking for fewer bytes gives the beginning of what asking for more gives. */
  lemma ExpandPrefix(f: Transform, prk: seq<byte>, info: seq<byte>, short: nat, long: nat)
    requires short <= long
    ensures Expand(f, prk, info, long)[..short] == Expand(f, prk, info, short)
  {
    BlocksPrefix(f, prk, info, (short + 31) / 32, (long + 31) / 32);
    hide Blocks;
    var all, some := Blocks(f, prk, info, (long + 31) / 32), Blocks(f, prk, info, (short + 31) / 32);
    assert all[..32 * ((short + 31) / 32)][..short] == all[..short];
  }

  // ----- the code -----

  /** _olm_crypto_sha256 */
  method HashOf(f: Transform, input: seq<byte>) returns (output: seq<byte>)
    requires |input| < TWO32
    ensures output == Hash(f, input)
  {
    hide Context.Holds, Hash;
    var result := new byte[32];
    var context := new Context(f);
    context.Update(input, []);
    assert [] + input == input;
    context.Final(result, 0, input);
    output := result[0..0 + 32];
  }

  /** hmac_sha256_key */
  method MakeKey(f: Transform, key: seq<byte>) returns (hmacKey: seq<byte>)
    requires |key| < TWO32
    ensures hmacKey == BlockKey(f, key)
  {
    var buffer := new byte[64](i => 0);
    if |key| > 64 {
      var digest := HashOf(f, key);
      hide Hash;
      forall i | 0 <= i < 32 {
        buffer[i] := digest[i];
      }
      assert buffer[..] == digest + Zeros(32);
    } else {
      forall i | 0 <= i < |key| {
        buffer[i] := key[i];
      }
      assert buffer[..] == key + Zeros(64 - |key|);
    }
    hmacKey := buffer[..];
  }

  /** The loop that xors a pad. */
  method XorPad(pad: array<byte>, key: seq<byte>, c: byte)
    requires |key| == 64 <= pad.Length && pad[..64] == key
    modifies pad
    ensures pad[..64] == Pad(key, c)
    ensures forall k :: 64 <= k < pad.Length ==> pad[k] == old(pad[k])
  {
    hide XorByte;
    var i := 0;
    while i < 64
      invariant 0 <= i <= 64
      invariant forall k :: 0 <= k < i ==> pad[k] == XorByte(key[k], c)
      invariant forall k :: i <= k < 64 ==> pad[k] == key[k]
      invariant forall k :: 64 <= k < pad.Length ==> pad[k] == old(pad[k])
    {
      assert pad[i] == pad[..64][i];
      pad[i] := XorByte(pad[i], c);
      i := i + 1;
    }
  }

  /** hmac_sha256_init */
  method HmacInit(f: Transform, hmacKey: seq<byte>) returns (context: Context)
    requires |hmacKey| == 64
    ensures fresh(context) && fresh(context.data) && context.f == f && context.Holds(Pad(hmacKey, 0x36))
  {
    hide Context.Holds, Pad;
    var ipad := new byte[64](i requires 0 <= i < 64 => hmacKey[i]);
    assert ipad[..64] == hmacKey;
    XorPad(ipad, hmacKey, 0x36);
    var block := ipad[..];
    assert block == ipad[..64];
    context := new Context(f);
    context.Update(block, []);
    assert [] + block == block;
  }

  /** hmac_sha256_final */
  method HmacFinal(context: Context, hmacKey: seq<byte>, ghost text: seq<byte>) returns (output: seq<byte>)
    requires |hmacKey| == 64 && context.Holds(Pad(hmacKey, 0x36) + text)
    modifies context, context.data
    ensures output == Hash(context.f, Pad(hmacKey, 0x5C) + Hash(context.f, Pad(hmacKey, 0x36) + text))
  {
    hide Pad, Hash, Context.Holds;
    var opad := new byte[96](i requires 0 <= i < 96 => if i < 64 then hmacKey[i] else 0);
    assert opad[..64] == hmacKey;
    XorPad(opad, hmacKey, 0x5C);
    ghost var outer := opad[..64];
    context.Final(opad, 64, Pad(hmacKey, 0x36) + text);
    assert opad[..64] == outer;
    assert opad[..] == opad[..64] + opad[64..64 + 32];
    output := HashOf(context.f, opad[..]);
  }

  /** _olm_crypto_hmac_sha256 */
  method HmacSha256(f: Transform, key: seq<byte>, input: seq<byte>) returns (output: seq<byte>)
    requires |key| < TWO32 && |input| < TWO32
    ensures output == Hmac(f, key, input)
  {
    hide Pad, Hash, BlockKey, Context.Holds;
    var hmacKey := MakeKey(f, key);
    var context := HmacInit(f, hmacKey);
    context.Update(input, Pad(hmacKey, 0x36));
    output := HmacFinal(context, hmacKey, input);
  }

  /** One step of the expansion: the block before it, the info and the counter, as they are streamed. */
  method NextBlock(f: Transform, hmacKey: seq<byte>, before: seq<byte>, info: seq<byte>, iteration: byte)
    returns (output: seq<byte>)
    requires |hmacKey| == 64 && |before| < TWO32 && |info| < TWO32
    ensures output == Hash(f, Pad(hmacKey, 0x5C) + Hash(f, Pad(hmacKey, 0x36) + (before + info + [iteration])))
  {
    hide Pad, Hash, Context.Holds;
    ghost var ipad := Pad(hmacKey, 0x36);
    var context := HmacInit(f, hmacKey);
    context.Update(before, ipad);
    context.Update(info, ipad + before);
    context.Update([iteration], ipad + before + info);
    assert ipad + before + info + [iteration] == ipad + (before + info + [iteration]);
    output := HmacFinal(context, hmacKey, before + info + [iteration]);
  }

  /** _olm_crypto_hkdf_sha256: a missing salt is 32 zeros. */
  method HkdfSha256(f: Transform, input: seq<byte>, salt: Option<seq<byte>>, info: seq<byte>, output: array<byte>)
    requires |input| < TWO32 && |info| < TWO32 && (salt.Some? ==> |salt.value| < TWO32)
    modifies output
    ensures output[..] == Expand(f, Extract(f, salt, input), info, output.Length)
  {
    hide Pad, Hash, BlockKey, Zeros, Block, Blocks;
    var prk := HmacSha256(f, if salt.Some? then salt.value else Zeros(32), input);
    var hmacKey := MakeKey(f, prk);
    var iteration := 1;
    BlockOne(f, prk, info);
    var stepResult := NextBlock(f, hmacKey, [], info, 1);
    ghost var n := 1;
    var at := 0;
    while output.Length - at > 32
      invariant n >= 1 && at == 32 * (n - 1) <= output.Length && iteration == U8(n)
      invariant at < output.Length || at == 0
      invariant stepResult == Block(f, prk, info, n)
      invariant output[..at] == Blocks(f, prk, info, n - 1)
    {
      StoreBlock(output, at, stepResult);
      BlockNext(f, prk, info, n);
      at := at + 32;
      iteration := U8((iteration as int) + 1);
      NextCounter(n);
      stepResult := NextBlock(f, hmacKey, stepResult, info, iteration);
      n := n + 1;
    }
    var rest := output.Length - at;
    StoreBlock(output, at, stepResult[..rest]);
    LastBlock(f, prk, info, n, output[..], at);
  }

  method StoreBlock(output: array<byte>, at: nat, block: seq<byte>)
    requires at + |block| <= output.Length
    modifies output
    ensures output[..at] == old(output[..at]) && output[..at + |block|] == output[..at] + block
  {
    forall k | 0 <= k < |block| {
      output[at + k] := block[k];
    }
  }

  lemma NextCounter(n: nat)
    ensures U8(U8(n) + 1) == U8(n + 1)
  {
  }

  lemma BlockOne(f: Transform, prk: seq<byte>, info: seq<byte>)
    ensures Block(f, prk, info, 1)
      == Hash(f, Pad(BlockKey(f, prk), 0x5C) + Hash(f, Pad(BlockKey(f, prk), 0x36) + ([] + info + [1])))
    ensures Blocks(f, prk, info, 0) == []
  {
    hide Hash, Pad, BlockKey;
    assert Block(f, prk, info, 0) == [];
  }

  lemma BlockNext(f: Transform, prk: seq<byte>, info: seq<byte>, n: nat)
    requires n >= 1
    ensures Blocks(f, prk, info, n) == Blocks(f, prk, info, n - 1) + Block(f, prk, info, n)
    ensures Block(f, prk, info, n + 1)
      == Hash(f, Pad(BlockKey(f, prk), 0x5C)
                 + Hash(f, Pad(BlockKey(f, prk), 0x36) + (Block(f, prk, info, n) + info + [U8(n + 1)])))
  {
    hide Hash, Pad, BlockKey;
  }

  lemma LastBlock(f: Transform, prk: seq<byte>, info: seq<byte>, n: nat, output: seq<byte>, at: nat)
    requires n >= 1 && at == 32 * (n - 1) <= |output| <= at + 32 && (at < |output| || at == 0)
    requires output == Blocks(f, prk, info, n - 1) + Block(f, prk, info, n)[..|output| - at]
    ensures output == Expand(f, prk, info, |output|)
  {
    hide Block;
    if output == [] {
      assert Expand(f, prk, info, 0) == [];
    } else {
      assert (|output| + 31) / 32 == n;
      CutSum(Blocks(f, prk, info, n - 1), Block(f, prk, info, n), |output|);
    }
  }

  lemma CutSum(a: seq<byte>, b: seq<byte>, k: nat)
    requires |a| <= k <= |a| + |b|
    ensures (a + b)[..k] == a + b[..k - |a|]
  {
  }
}
