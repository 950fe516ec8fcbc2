/** Streaming SHA-256 (lib/crypto-algorithms/sha256.c) around a block transform that is a parameter. */
module Sha256 {
  import opened Words

  /** Eight words. */
  type Chaining = s: seq<u32> | |s| == 8 witness [0, 0, 0, 0, 0, 0, 0, 0]

  /** sha256_transform: the new state from the old one and 64 bytes. */
  type Transform = (Chaining, seq<byte>) -> Chaining

  const INITIAL: Chaining := [0x6a09e667, 0xbb67ae85, 0x3c6ef372, 0xa54ff53a, 0x510e527f, 0x9b05688c, 0x1f83d9ab,
                              0x5be0cd19]

  // ----- the padded message: section 5.1.1 of FIPS 180-4 -----

  function Zeros(n: nat): (z: seq<byte>)
    ensures |z| == n && forall i :: 0 <= i < n ==> z[i] == 0
  {
    seq(n, i => 0)
  }

  /** The eight bytes of a 64-bit number, most significant first. */
  function BigEndian64(x: nat): (b: seq<byte>)
    ensures |b| == 8
  {
    [U8(x / 0x100_0000_0000_0000), U8(x / 0x1_0000_0000_0000), U8(x / 0x100_0000_0000), U8(x / 0x1_0000_0000),
     U8(x / 0x100_0000), U8(x / 0x1_0000), U8(x / 0x100), U8(x)]
  }

  /** The zeros that bring the length to 8 short of a multiple of 64. */
  function ZeroCount(n: nat): (k: nat)
    ensures (n + 1 + k + 8) % 64 == 0 && k < 64
  {
    (119 - n % 64) % 64
  }

  function Padded(m: seq<byte>): (p: seq<byte>)
    ensures |p| % 64 == 0
  {
    m + [0x80] + Zeros(ZeroCount(|m|)) + BigEndian64(8 * |m| % TWO64)
  }

  /** The transform folded over the blocks of a message. */
  function Absorbed(f: Transform, st: Chaining, m: seq<byte>): Chaining
    requires |m| % 64 == 0
  {
    if m == [] then st else f(Absorbed(f, st, m[..|m| - 64]), m[|m| - 64..])
  }

  lemma AbsorbOne(f: Transform, st: Chaining, m: seq<byte>, block: seq<byte>)
    requires |m| % 64 == 0 && |block| == 64
    ensures Absorbed(f, st, m + block) == f(Absorbed(f, st, m), block)
  {
    assert (m + block)[..|m + block| - 64] == m && (m + block)[|m + block| - 64..] == block;
  }

  /** The eight words, most significant byte first. */
  function Output(st: Chaining): (h: seq<byte>)
    ensures |h| == 32
  {
    seq(32, k requires 0 <= k < 32 => OutputByte(st, k))
  }

  function OutputByte(st: Chaining, k: nat): byte
    requires k < 32
  {
    U8(st[k / 4] / ByteWeight(k % 4))
  }

  function ByteWeight(i: nat): (w: nat)
    ensures w > 0
  {
    if i == 0 then 0x100_0000 else if i == 1 then 0x1_0000 else if i == 2 then 0x100 else 1
  }

  /** SHA-256 in one go. */
  function Hash(f: Transform, m: seq<byte>): (h: seq<byte>)
    ensures |h| == 32
  {
    Output(Absorbed(f, INITIAL, Padded(m)))
  }

  // ----- what these functions compute, in the terms of FIPS 180-4 -----

  /** Four bytes as a word, the most significant first. */
  function WordAt(b: seq<byte>, at: nat): nat
    requires at + 4 <= |b|
  {
    (b[at] as int) * 0x100_0000 + (b[at + 1] as int) * 0x1_0000 + (b[at + 2] as int) * 0x100 + b[at + 3]
  }

  /** The words of the digest, read back most significant byte first, are those of the state. */
  lemma OutputWords(st: Chaining, i: nat)
    requires i < 8
    ensures st[i] == WordAt(Output(st), 4 * i)
  {
    FourDigits(st[i]);
    assert (4 * i) / 4 == (4 * i + 1) / 4 == (4 * i + 2) / 4 == (4 * i + 3) / 4 == i;
    assert (4 * i) % 4 == 0 && (4 * i + 1) % 4 == 1 && (4 * i + 2) % 4 == 2 && (4 * i + 3) % 4 == 3;
    var h := Output(st);
    assert h[4 * i] == OutputByte(st, 4 * i) && h[4 * i + 1] == OutputByte(st, 4 * i + 1);
    assert h[4 * i + 2] == OutputByte(st, 4 * i + 2) && h[4 * i + 3] == OutputByte(st, 4 * i + 3);
    hide Output;
  }

  lemma FourDigits(x: u32)
    ensures x == (U8(x / 0x100_0000) as int) * 0x100_0000 + (U8(x / 0x1_0000) as int) * 0x1_0000
                 + (U8(x / 0x100) as int) * 0x100 + U8(x)
  {
    FloorBelow(x, 0x100);
    FloorBelow(x / 0x100, 0x100);
    FloorBelow(x / 0x1_0000, 0x100);
    assert x / 0x100 / 0x100 == x / 0x1_0000 && x / 0x1_0000 / 0x100 == x / 0x100_0000 < 0x100;
  }

  /** The length is stored most significant byte first as well. */
  lemma LengthBytes(x: nat)
    requires x < TWO64
    ensures x == WordAt(BigEndian64(x), 0) * 0x1_0000_0000 + WordAt(BigEndian64(x), 4)
  {
    var high, low := x / TWO32, x % TWO32;
    FloorBelow(x, TWO32);
    FourDigits(high);
    FourDigits(low);
    HighDigit(x, 1, 0x1_0000_0000);
    HighDigit(x, 0x100, 0x100_0000_0000);
    HighDigit(x, 0x1_0000, 0x1_0000_0000_0000);
    HighDigit(x, 0x100_0000, 0x100_0000_0000_0000);
    LowDigit(x, 1);
    LowDigit(x, 0x100);
    LowDigit(x, 0x1_0000);
    LowDigit(x, 0x100_0000);
    hide U8;
  }

  lemma HighDigit(x: nat, d: nat, e: nat)
    requires d > 0 && e == d * TWO32
    ensures x / e == x / TWO32 / d
  {
    FloorBelow(x, TWO32);
    FloorBelow(x / TWO32, d);
    var q, r := x / TWO32 / d, x / TWO32 % d;
    assert x == q * e + (r * TWO32 + x % TWO32) by {
      assert (q * d + r) * TWO32 == q * (d * TWO32) + r * TWO32;
    }
    DivideIs(x, e, q, r * TWO32 + x % TWO32);
  }

  lemma LowDigit(x: nat, d: nat)
    requires d == 1 || d == 0x100 || d == 0x1_0000 || d == 0x100_0000
    ensures U8(x / d) == U8(x % TWO32 / d)
  {
    FloorBelow(x, TWO32);
    var q, low := x / TWO32, x % TWO32;
    var e := TWO32 / d;
    assert e * d == TWO32 && e % 256 == 0;
    FloorBelow(low, d);
    assert x == (q * e + low / d) * d + low % d by {
      assert (q * e + low / d) * d == q * (e * d) + low / d * d;
    }
    DivideIs(x, d, q * e + low / d, low % d);
    AddMultiple(low / d, q * (e / 256), 256);
    assert q * (e / 256) * 256 == q * e;
  }

  /** The message, one bit set, as few zeros as there can be, and the length in bits. */
  lemma PaddedShape(m: seq<byte>)
    ensures var p := Padded(m);
      && |p| % 64 == 0 && |m| + 9 <= |p| < |m| + 9 + 64
      && p[..|m|] == m && p[|m|] == 128 && (forall i :: |m| < i < |p| - 8 ==> p[i] == 0)
      && p[|p| - 8..] == BigEndian64(8 * |m| % 0x1_0000_0000_0000_0000)
  {
  }

  /** The words that hashing starts from: the first 32 bits of the fractional parts of the square roots of the
   *  first eight primes. */
  lemma InitialWords()
    ensures IsRoot(2, 1, INITIAL[0]) && IsRoot(3, 1, INITIAL[1]) && IsRoot(5, 2, INITIAL[2]) && IsRoot(7, 2, INITIAL[3])
    ensures IsRoot(11, 3, INITIAL[4]) && IsRoot(13, 3, INITIAL[5]) && IsRoot(17, 4, INITIAL[6])
    ensures IsRoot(19, 4, INITIAL[7])
  {
  }

  /** floor(sqrt(n) * 2^32) is whole * 2^32 + fraction. */
  predicate IsRoot(n: nat, whole: nat, fraction: u32) {
    var r := whole * 0x1_0000_0000 + fraction;
    r * r <= n * 0x1_0000_0000_0000_0000 < (r + 1) * (r + 1)
  }

  /** A message that leaves room for its padding in one block. */
  lemma ShortHash(f: Transform, m: seq<byte>)
    requires |m| < 56
    ensures |Padded(m)| == 64 && Hash(f, m) == Output(f(INITIAL, Padded(m)))
  {
    PaddedShape(m);
    hide Padded, Output;
    var p := Padded(m);
    assert p[..|p| - 64] == [] && p[|p| - 64..] == p;
    assert Absorbed(f, INITIAL, []) == INITIAL;
  }

  // ----- the context -----

  /** The whole blocks of m, and the bytes after them. */
  function Whole(m: seq<byte>): (w: seq<byte>)
    ensures |w| % 64 == 0
  {
    m[..|m| - |m| % 64]
  }

  function Rest(m: seq<byte>): (r: seq<byte>)
    ensures |r| == |m| % 64
  {
    m[|m| - |m| % 64..]
  }

  lemma BitsGrow(x: nat)
    ensures (8 * x % TWO64 + 512) % TWO64 == 8 * (x + 64) % TWO64
  {
    FloorBelow(8 * x, TWO64);
    AddMultiple(8 * x % TWO64 + 512, 8 * x / TWO64, TWO64);
  }

  lemma AppendByte(m: seq<byte>, b: byte)
    ensures |Rest(m)| < 63 ==> Whole(m + [b]) == Whole(m) && Rest(m + [b]) == Rest(m) + [b]
    ensures |Rest(m)| == 63 ==> Whole(m + [b]) == Whole(m) + (Rest(m) + [b]) && Rest(m + [b]) == []
  {
  }

  /** The message with its padding, less the last block. */
  function LastWhole(m: seq<byte>): (w: seq<byte>)
    ensures |w| % 64 == 0
  {
    if |Rest(m)| < 56 then Whole(m) else Whole(m) + (Rest(m) + [0x80] + Zeros(63 - |Rest(m)|))
  }

  /** The first 56 bytes of the last block. */
  function LastStart(m: seq<byte>): (s: seq<byte>)
    ensures |s| == 56
  {
    if |Rest(m)| < 56 then Rest(m) + [0x80] + Zeros(55 - |Rest(m)|) else Zeros(56)
  }

  lemma PaddedBlocks(m: seq<byte>)
    ensures Padded(m) == LastWhole(m) + (LastStart(m) + BigEndian64(8 * |m| % TWO64))
  {
    var r := |Rest(m)|;
    assert m == Whole(m) + Rest(m);
    if r < 56 {
      assert ZeroCount(|m|) == 55 - r;
    } else {
      assert ZeroCount(|m|) == 119 - r;
      assert Zeros(119 - r) == Zeros(63 - r) + Zeros(56);
    }
    hide BigEndian64, Whole, Rest, ZeroCount;
  }

  lemma TotalBits(m: seq<byte>)
    ensures (8 * |Whole(m)| % TWO64 + |Rest(m)| * 8) % TWO64 == 8 * |m| % TWO64
  {
  }

  class Context {
    const f: Transform
    const data: array<byte>
    var datalen: nat
    var bitlen: nat
    var state: Chaining

    /** The context has taken in exactly m. */
    ghost predicate Holds(m: seq<byte>)
      reads this, data
    {
      && data.Length == 64 && datalen == |Rest(m)|
      && data[..datalen] == Rest(m)
      && bitlen == 8 * |Whole(m)| % TWO64
      && state == Absorbed(f, INITIAL, Whole(m))
    }

    /** sha256_init */
    constructor (f: Transform)
      ensures Holds([]) && fresh(data) && this.f == f
    {
      this.f := f;
      data := new byte[64](i => 0);
      datalen, bitlen := 0, 0;
      state := INITIAL;
    }

    /** One turn of the loop of sha256_update. */
    method Take(b: byte, ghost m: seq<byte>)
      requires Holds(m)
      modifies this, data
      ensures Holds(m + [b])
    {
      hide Whole, Rest, Absorbed;
      AppendByte(m, b);
      BitsGrow(|Whole(m)|);
      data[datalen] := b;
      datalen := datalen + 1;
      assert data[..datalen] == Rest(m) + [b];
      if datalen == 64 {
        AbsorbOne(f, INITIAL, Whole(m), Rest(m) + [b]);
        assert data[..] == data[..datalen];
        state := f(state, data[..]);
        bitlen := (bitlen + 512) % TWO64;
        datalen := 0;
      }
    }

    /** sha256_update */
    method Update(input: seq<byte>, ghost m: seq<byte>)
      requires Holds(m) && |input| < TWO32
      modifies this, data
      ensures Holds(m + input)
    {
      hide Holds;
      assert m + input[..0] == m;
      var i := 0;
      while i < |input|
        invariant 0 <= i <= |input|
        invariant Holds(m + input[..i])
      {
        assert m + input[..i] + [input[i]] == m + input[..i + 1];
        Take(input[i], m + input[..i]);
        i := i + 1;
      }
      assert input[..i] == input;
    }

    /** sha256_final: pad, append the length, transform, and write the state out. */
    method Final(hash: array<byte>, at: nat, ghost m: seq<byte>)
      requires Holds(m) && hash != data && at + 32 <= hash.Length
      modifies this, data, hash
      ensures hash[at..at + 32] == Hash(f, m)
      ensures forall k :: 0 <= k < hash.Length && !(at <= k < at + 32) ==> hash[k] == old(hash[k])
    {
      hide LastStart, LastWhole, Output, BigEndian64, Padded, Absorbed;
      PaddedBlocks(m);
      PadRest(m);
      var bits := (bitlen + datalen * 8) % TWO64;
      TotalBits(m);
      StoreLength(bits, data[..56]);
      AbsorbOne(f, INITIAL, LastWhole(m), data[..]);
      state := f(state, data[..]);
      WriteOut(hash, at);
    }

    /** Fill the buffer up to the length field, with a transform in between if there is no room. */
    method PadRest(ghost m: seq<byte>)
      requires Holds(m)
      modifies this`state, data
      ensures data[..56] == LastStart(m) && state == Absorbed(f, INITIAL, LastWhole(m))
    {
      ghost var rest := Rest(m);
      hide Whole, Rest, Absorbed;
      if datalen < 56 {
        Pad(56, rest);
        assert data[..56] == rest + [0x80] + Zeros(55 - |rest|);
      } else {
        Pad(64, rest);
        assert data[..] == data[..64];
        AbsorbOne(f, INITIAL, Whole(m), data[..]);
        state := f(state, data[..]);
        forall k | 0 <= k < 56 {
          data[k] := 0;
        }
        assert data[..56] == Zeros(56);
      }
    }

    /** One byte 0x80, then zeros up to the limit. */
    method Pad(limit: nat, ghost rest: seq<byte>)
      requires data.Length == 64 && datalen == |rest| < limit <= 64 && data[..datalen] == rest
      modifies data
      ensures data[..limit] == rest + [0x80] + Zeros(limit - 1 - |rest|)
    {
      var i := datalen;
      data[i] := 0x80;
      i := i + 1;
      while i < limit
        invariant |rest| + 1 <= i <= limit && datalen == |rest|
        invariant data[..i] == rest + [0x80] + Zeros(i - 1 - |rest|)
      {
        data[i] := 0;
        i := i + 1;
      }
    }

    method StoreLength(bits: nat, ghost start: seq<byte>)
      requires data.Length == 64 && data[..56] == start
      modifies data
      ensures data[..] == start + BigEndian64(bits)
    {
      hide U8;
      data[63] := U8(bits);
      data[62] := U8(bits / 0x100);
      data[61] := U8(bits / 0x1_0000);
      data[60] := U8(bits / 0x100_0000);
      data[59] := U8(bits / 0x1_0000_0000);
      data[58] := U8(bits / 0x100_0000_0000);
      data[57] := U8(bits / 0x1_0000_0000_0000);
      data[56] := U8(bits / 0x100_0000_0000_0000);
      assert data[..56] == start;
    }

    method WriteOut(hash: array<byte>, at: nat)
      requires at + 32 <= hash.Length
      modifies hash
      ensures hash[at..at + 32] == Output(state)
      ensures forall k :: 0 <= k < hash.Length && !(at <= k < at + 32) ==> hash[k] == old(hash[k])
    {
      var i := 0;
      while i < 4
        invariant 0 <= i <= 4
        invariant forall k :: 0 <= k < 32 && k % 4 < i ==> hash[at + k] == OutputByte(state, k)
        invariant forall k :: 0 <= k < hash.Length && !(at <= k < at + 32) ==> hash[k] == old(hash[k])
      {
        var w := ByteWeight(i);
        hash[at + i] := U8(state[0] / w);
        hash[at + i + 4] := U8(state[1] / w);
        hash[at + i + 8] := U8(state[2] / w);
        hash[at + i + 12] := U8(state[3] / w);
        hash[at + i + 16] := U8(state[4] / w);
        hash[at + i + 20] := U8(state[5] / w);
        hash[at + i + 24] := U8(state[6] / w);
        hash[at + i + 28] := U8(state[7] / w);
        i := i + 1;
      }
    }
  }
}
