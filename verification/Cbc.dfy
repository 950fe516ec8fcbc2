/** AES in CBC mode with padding (src/crypto.cpp), around a block cipher that is a parameter. Input and
 *  output are places in one memory and may be the same place. */
module Cbc {
  import opened Words
  import opened Bitwise

  const BLOCK := 16

  /** One key's block cipher: both directions, on blocks of 16 bytes. */
  datatype BlockCipher = BlockCipher(encrypt: seq<byte> -> seq<byte>, decrypt: seq<byte> -> seq<byte>)
  {
    ghost predicate Valid() {
      && (forall b: seq<byte> :: |b| == BLOCK ==> |encrypt(b)| == BLOCK)
      && (forall b: seq<byte> :: |b| == BLOCK ==> |decrypt(b)| == BLOCK)
      && (forall b: seq<byte> :: |b| == BLOCK ==> decrypt(encrypt(b)) == b)
    }
  }

  function XorBlock(a: seq<byte>, b: seq<byte>): (r: seq<byte>)
    requires |a| == |b|
    ensures |r| == |a|
  {
    seq(|a|, i requires 0 <= i < |a| => XorByte(a[i], b[i]))
  }

  // ----- section 6.3 of RFC 5652, and cipher block chaining -----

  function Fill(n: nat): nat { BLOCK - n % BLOCK }

  /** Between 1 and 16 bytes, each saying how many there are. */
  function Padded(m: seq<byte>): (p: seq<byte>)
    ensures |p| == |m| + Fill(|m|) && |p| % BLOCK == 0
  {
    m + seq(Fill(|m|), i => Fill(|m|))
  }

  /** Every byte of the padding says how many bytes it has, from 1 to 16. */
  lemma PaddedShape(m: seq<byte>)
    ensures var p := Padded(m);
      && |p| % 16 == 0 && |m| + 1 <= |p| <= |m| + 16 && p[..|m|] == m
      && forall i :: |m| <= i < |p| ==> p[i] == |p| - |m|
  {
  }

  /** The block before the next one: the last of the ciphertext so far, or the initial vector. */
  function Previous(iv: seq<byte>, c: seq<byte>): (b: seq<byte>)
    requires |iv| == BLOCK && |c| % BLOCK == 0
    ensures |b| == BLOCK
  {
    if c == [] then iv else c[|c| - BLOCK..]
  }

  function Chained(e: BlockCipher, iv: seq<byte>, p: seq<byte>): (c: seq<byte>)
    requires e.Valid() && |iv| == BLOCK && |p| % BLOCK == 0
    ensures |c| == |p|
  {
    if p == [] then []
    else
      var c := Chained(e, iv, p[..|p| - BLOCK]);
      c + e.encrypt(XorBlock(Previous(iv, c), p[|p| - BLOCK..]))
  }

  /** Block j of what is decrypted is the block cipher's inverse of block j, xored with the ciphertext block before
   *  it or, for the first, the initial vector; for arbitrary ciphertexts. */
  lemma {:induction false} UnchainedBlock(e: BlockCipher, iv: seq<byte>, c: seq<byte>, j: nat)
    requires e.Valid() && |iv| == BLOCK && |c| % BLOCK == 0 && 16 * (j + 1) <= |c|
    ensures |e.decrypt(c[16 * j..16 * j + 16])| == 16
    ensures Unchained(e, iv, c)[16 * j..16 * j + 16]
         == XorBlock(e.decrypt(c[16 * j..16 * j + 16]), if j == 0 then iv else c[16 * j - 16..16 * j])
    decreases |c|
  {
    var front, last := c[..|c| - BLOCK], c[|c| - BLOCK..];
    SplitLast(c);
    UnchainedLast(e, iv, front, last);
    DecryptsBlock(e, c[16 * j..16 * j + 16]);
    hide BlockCipher.Valid, XorBlock, Unchained, Previous;
    var p, x := Unchained(e, iv, front), XorBlock(e.decrypt(last), Previous(iv, front));
    if 16 * (j + 1) < |c| {
      NotLast(j, |c|);
      UnchainedBlock(e, iv, front, j);
      BlockOfFront(p, x, j);
      BlockOfFront(front, last, j);
    } else {
      LastOf(front, last, c, j);
      LastOf(p, x, c, j);
      PreviousIs(iv, front, c, j);
    }
  }

  lemma PreviousIs(iv: seq<byte>, front: seq<byte>, c: seq<byte>, j: nat)
    requires |iv| == BLOCK && |c| == 16 * (j + 1) && front == c[..|c| - BLOCK]
    ensures |front| % BLOCK == 0 && Previous(iv, front) == if j == 0 then iv else c[16 * j - 16..16 * j]
  {
  }

  lemma SplitLast(c: seq<byte>)
    requires |c| >= BLOCK && |c| % BLOCK == 0
    ensures c == c[..|c| - BLOCK] + c[|c| - BLOCK..] && (|c| - BLOCK) % BLOCK == 0
  {
  }

  lemma DecryptsBlock(e: BlockCipher, b: seq<byte>)
    requires e.Valid() && |b| == BLOCK
    ensures |e.decrypt(b)| == BLOCK
  {
  }

  lemma NotLast(j: nat, n: nat)
    requires 16 * (j + 1) < n && n % BLOCK == 0
    ensures 16 * (j + 1) <= n - BLOCK && (n - BLOCK) % BLOCK == 0
  {
  }

  /** The last byte says how much is cut off, up to everything; only a number past the length is refused. */
  lemma UnpaddedIff(p: seq<byte>)
    requires p != []
    ensures Unpadded(p).Some? <==> p[|p| - 1] <= |p|
    ensures Unpadded(p).Some? ==> Unpadded(p).value == |p| - p[|p| - 1]
  {
  }

  /** Block j of the ciphertext is the encryption of block j of the plaintext, xored with the ciphertext block
   *  before it or, for the first, the initial vector. */
  lemma {:induction false} ChainedBlock(e: BlockCipher, iv: seq<byte>, p: seq<byte>, j: nat)
    requires e.Valid() && |iv| == BLOCK && |p| % BLOCK == 0 && 16 * (j + 1) <= |p|
    ensures var c := Chained(e, iv, p);
      c[16 * j..16 * j + 16]
        == e.encrypt(XorBlock(if j == 0 then iv else c[16 * j - 16..16 * j], p[16 * j..16 * j + 16]))
    decreases |p|
  {
    hide BlockCipher.Valid, XorBlock;
    var front := p[..|p| - BLOCK];
    var c := Chained(e, iv, front);
    var x := e.encrypt(XorBlock(Previous(iv, c), p[|p| - BLOCK..]));
    assert Chained(e, iv, p) == c + x && |x| == BLOCK;
    assert 16 * (j + 1) < |p| ==> 16 * (j + 1) <= |front|;
    if 16 * (j + 1) < |p| {
      ChainedBlock(e, iv, front, j);
      BlockOfFront(c, x, j);
      BlockOfFront(front, p[|p| - BLOCK..], j);
      assert p == front + p[|p| - BLOCK..];
    } else {
      LastOf(c, x, p, j);
    }
  }

  lemma BlockOfFront(c: seq<byte>, x: seq<byte>, j: nat)
    requires 16 * (j + 1) <= |c|
    ensures (c + x)[16 * j..16 * j + 16] == c[16 * j..16 * j + 16]
    ensures j > 0 ==> (c + x)[16 * j - 16..16 * j] == c[16 * j - 16..16 * j]
  {
  }

  lemma LastOf(c: seq<byte>, x: seq<byte>, p: seq<byte>, j: nat)
    requires |x| == BLOCK && |c| + BLOCK == |p| && |p| == 16 * (j + 1)
    ensures (c + x)[16 * j..16 * j + 16] == x && p[16 * j..16 * j + 16] == p[|p| - BLOCK..]
    ensures j > 0 ==> (c + x)[16 * j - 16..16 * j] == c[|c| - BLOCK..]
  {
  }

  function Unchained(e: BlockCipher, iv: seq<byte>, c: seq<byte>): (p: seq<byte>)
    requires e.Valid() && |iv| == BLOCK && |c| % BLOCK == 0
    ensures |p| == |c|
  {
    if c == [] then []
    else
      var front := c[..|c| - BLOCK];
      Unchained(e, iv, front) + XorBlock(e.decrypt(c[|c| - BLOCK..]), Previous(iv, front))
  }

  /** How much of the padded plaintext is kept: None if the last byte asks for more than there is. */
  function Unpadded(p: seq<byte>): Option<nat>
    requires p != []
  {
    var padding := p[|p| - 1];
    if padding > |p| then None else Some(|p| - padding)
  }

  lemma {:induction false} UnchainedChained(e: BlockCipher, iv: seq<byte>, p: seq<byte>)
    requires e.Valid() && |iv| == BLOCK && |p| % BLOCK == 0
    ensures Unchained(e, iv, Chained(e, iv, p)) == p
  {
    if p != [] {
      var front, block := p[..|p| - BLOCK], p[|p| - BLOCK..];
      assert p == front + block;
      UnchainedChained(e, iv, front);
      var c := Chained(e, iv, front);
      ChainedLast(e, iv, front, block);
      UnchainedLast(e, iv, c, e.encrypt(XorBlock(Previous(iv, c), block)));
      XorsBack(Previous(iv, c), block);
      hide XorBlock, Previous, Chained, Unchained;
    }
  }

  lemma ChainedLast(e: BlockCipher, iv: seq<byte>, front: seq<byte>, block: seq<byte>)
    requires e.Valid() && |iv| == BLOCK && |front| % BLOCK == 0 && |block| == BLOCK
    ensures Chained(e, iv, front + block)
      == Chained(e, iv, front) + e.encrypt(XorBlock(Previous(iv, Chained(e, iv, front)), block))
  {
    var p := front + block;
    assert p[..|p| - BLOCK] == front && p[|p| - BLOCK..] == block;
    hide XorBlock, Previous;
  }

  lemma UnchainedLast(e: BlockCipher, iv: seq<byte>, front: seq<byte>, block: seq<byte>)
    requires e.Valid() && |iv| == BLOCK && |front| % BLOCK == 0 && |block| == BLOCK
    ensures Unchained(e, iv, front + block)
      == Unchained(e, iv, front) + XorBlock(e.decrypt(block), Previous(iv, front))
  {
    var c := front + block;
    assert c[..|c| - BLOCK] == front && c[|c| - BLOCK..] == block;
    hide XorBlock, Previous;
  }

  lemma XorsBack(a: seq<byte>, b: seq<byte>)
    requires |a| == |b|
    ensures XorBlock(XorBlock(a, b), a) == b
  {
    hide XorByte;
    forall i | 0 <= i < |a|
      ensures XorBlock(XorBlock(a, b), a)[i] == b[i]
    {
      XorByteTwice(b[i], a[i]);
      XorByteCommutes(a[i], b[i]);
    }
  }

  lemma XorByteCommutes(a: byte, b: byte)
    ensures XorByte(a, b) == XorByte(b, a)
  {
    XorCommutes(a, b, 8);
  }

  /** m comes back: decrypting its encryption keeps just as many bytes, and these bytes. */
  ghost predicate Recovers(e: BlockCipher, iv: seq<byte>, m: seq<byte>) {
    && e.Valid() && |iv| == BLOCK
    && var p := Unchained(e, iv, Chained(e, iv, Padded(m)));
       Unpadded(p) == Some(|m|) && p[..|m|] == m
  }

  /** Whatever its length, a message that was padded and chained comes back. */
  lemma CbcRoundTrip(e: BlockCipher, iv: seq<byte>, m: seq<byte>)
    requires e.Valid() && |iv| == BLOCK
    ensures Recovers(e, iv, m)
  {
    hide Unchained, Chained, Padded, Unpadded;
    UnchainedChained(e, iv, Padded(m));
    UnpaddedPadded(m);
  }

  lemma UnpaddedPadded(m: seq<byte>)
    ensures Unpadded(Padded(m)) == Some(|m|) && Padded(m)[..|m|] == m
  {
  }

  // ----- the code -----

  /** The output does not reach input that is yet to be read. */
  ghost predicate Overlap(input: nat, n: nat, output: nat) {
    output <= input || input + n <= output
  }

  /** s stands in memory from `at` on. */
  ghost predicate At(mem: seq<byte>, at: nat, s: seq<byte>) {
    at + |s| <= |mem| && forall k {:trigger s[k]} :: 0 <= k < |s| ==> mem[at + k] == s[k]
  }

  /** mem' is mem but for n bytes from `at` on. */
  ghost predicate SameBut(mem: seq<byte>, mem': seq<byte>, at: nat, n: nat) {
    |mem| == |mem'| && forall k :: 0 <= k < |mem| && !(at <= k < at + n) ==> mem'[k] == mem[k]
  }

  lemma AtJoin(mem: seq<byte>, mem': seq<byte>, at: nat, s: seq<byte>, b: seq<byte>)
    requires At(mem, at, s) && At(mem', at + |s|, b) && SameBut(mem, mem', at + |s|, |b|)
    ensures At(mem', at, s + b)
  {
    forall k {:trigger (s + b)[k]} | 0 <= k < |s + b|
      ensures mem'[at + k] == (s + b)[k]
    {
      if k < |s| {
        assert s[k] == (s + b)[k];
      } else {
        assert b[k - |s|] == (s + b)[k];
      }
    }
  }

  lemma AtSlice(mem: seq<byte>, at: nat, s: seq<byte>)
    requires At(mem, at, s)
    ensures mem[at..at + |s|] == s
  {
    forall k | 0 <= k < |s|
      ensures mem[at..at + |s|][k] == s[k]
    {
    }
  }

  method CopyTo(mem: array<byte>, at: nat, value: seq<byte>)
    requires at + |value| <= mem.Length
    modifies mem
    ensures At(mem[..], at, value) && SameBut(old(mem[..]), mem[..], at, |value|)
  {
    forall k | 0 <= k < |value| {
      mem[at + k] := value[k];
    }
  }

  /** xor_block, on a block of its own. */
  method XorInto(block: array<byte>, input: seq<byte>)
    requires block.Length == |input|
    modifies block
    ensures block[..] == XorBlock(old(block[..]), input)
  {
    hide XorByte;
    var i := 0;
    while i < |input|
      invariant 0 <= i <= |input|
      invariant forall k :: 0 <= k < i ==> block[k] == XorByte(old(block[k]), input[k])
      invariant forall k :: i <= k < |input| ==> block[k] == old(block[k])
    {
      block[i] := XorByte(block[i], input[i]);
      i := i + 1;
    }
  }

  /** One block: xor, encrypt, keep a copy for the next. */
  method EncryptBlock(mem: array<byte>, inputBlock: array<byte>, e: BlockCipher, input: seq<byte>, output: nat)
    requires e.Valid() && mem != inputBlock && inputBlock.Length == |input| == BLOCK && output + BLOCK <= mem.Length
    modifies mem, inputBlock
    ensures inputBlock[..] == e.encrypt(XorBlock(old(inputBlock[..]), input))
    ensures At(mem[..], output, inputBlock[..]) && SameBut(old(mem[..]), mem[..], output, BLOCK)
  {
    hide XorBlock;
    XorInto(inputBlock, input);
    var c := e.encrypt(inputBlock[..]);
    CopyTo(mem, output, c);
    CopyTo(inputBlock, 0, c);
    AtSlice(inputBlock[..], 0, c);
    assert inputBlock[..] == inputBlock[..][0..BLOCK];
  }

  /** Whole blocks up to m are done: their ciphertext is at output, the rest of the input untouched. */
  ghost predicate ChainedUpTo(mem: seq<byte>, was: seq<byte>, e: BlockCipher, iv: seq<byte>, raw: seq<byte>,
                              input: nat, output: nat, m: nat)
  {
    && e.Valid() && |iv| == BLOCK && m <= |raw| && m % BLOCK == 0
    && At(mem, output, Chained(e, iv, raw[..m]))
    && At(mem, input + m, raw[m..])
    && SameBut(was, mem, output, m)
  }

  lemma NextChained(mem: seq<byte>, mem': seq<byte>, was: seq<byte>, e: BlockCipher, iv: seq<byte>, raw: seq<byte>,
                    input: nat, output: nat, m: nat, c: seq<byte>)
    requires ChainedUpTo(mem, was, e, iv, raw, input, output, m) && m + BLOCK <= |raw|
    requires Overlap(input, |raw|, output)
    requires c == e.encrypt(XorBlock(Previous(iv, Chained(e, iv, raw[..m])), raw[m..m + BLOCK]))
    requires At(mem', output + m, c) && SameBut(mem, mem', output + m, BLOCK)
    ensures ChainedUpTo(mem', was, e, iv, raw, input, output, m + BLOCK)
    ensures Previous(iv, Chained(e, iv, raw[..m + BLOCK])) == c
  {
    hide BlockCipher.Valid, XorBlock, Chained, At, Previous;
    assert raw[..m + BLOCK] == raw[..m] + raw[m..m + BLOCK];
    ChainedLast(e, iv, raw[..m], raw[m..m + BLOCK]);
    AtJoin(mem, mem', output, Chained(e, iv, raw[..m]), c);
    RestKept(mem, mem', raw, input, m, output + m);
    PreviousIsLast(iv, Chained(e, iv, raw[..m]), c);
  }

  /** Storing a block where it cannot reach the rest of the input. */
  lemma RestKept(mem: seq<byte>, mem': seq<byte>, raw: seq<byte>, input: nat, m: nat, at: nat)
    requires m + BLOCK <= |raw| && At(mem, input + m, raw[m..]) && SameBut(mem, mem', at, BLOCK)
    requires at <= input + m || input + |raw| <= at
    ensures At(mem', input + (m + BLOCK), raw[m + BLOCK..])
  {
    forall k {:trigger raw[m + BLOCK..][k]} | 0 <= k < |raw| - m - BLOCK
      ensures mem'[input + (m + BLOCK) + k] == raw[m + BLOCK..][k]
    {
      assert raw[m..][BLOCK + k] == raw[m + BLOCK..][k];
    }
  }

  lemma PreviousIsLast(iv: seq<byte>, c: seq<byte>, block: seq<byte>)
    requires |iv| == BLOCK && |c| % BLOCK == 0 && |block| == BLOCK
    ensures Previous(iv, c + block) == block
  {
  }

  lemma NoneChained(was: seq<byte>, e: BlockCipher, iv: seq<byte>, raw: seq<byte>, input: nat, output: nat)
    requires e.Valid() && |iv| == BLOCK && At(was, input, raw) && output <= |was|
    ensures ChainedUpTo(was, was, e, iv, raw, input, output, 0)
    ensures Previous(iv, Chained(e, iv, raw[..0])) == iv
  {
    assert raw[0..] == raw;
  }

  lemma SliceAt(mem: seq<byte>, at: nat, n: nat)
    requires at + n <= |mem|
    ensures At(mem, at, mem[at..at + n])
  {
  }

  /** The next n bytes of what stands at a place. */
  method Load(mem: array<byte>, at: nat, n: nat, ghost rest: seq<byte>) returns (block: seq<byte>)
    requires At(mem[..], at, rest) && n <= |rest|
    ensures block == rest[..n]
  {
    block := mem[at..at + n];
    forall k | 0 <= k < n
      ensures block[k] == rest[k]
    {
      assert rest[k] == mem[at + k];
    }
  }

  /** _olm_crypto_aes_encrypt_cbc */
  method EncryptCbc(mem: array<byte>, e: BlockCipher, iv: seq<byte>, input: nat, n: nat, output: nat)
    requires e.Valid() && |iv| == BLOCK
    requires input + n <= mem.Length && output + CbcLength(n) <= mem.Length && Overlap(input, n, output)
    modifies mem
    ensures mem[output..output + CbcLength(n)] == Chained(e, iv, Padded(old(mem[input..input + n])))
    ensures SameBut(old(mem[..]), mem[..], output, CbcLength(n))
  {
    hide BlockCipher.Valid, XorBlock, Previous, Chained, ChainedUpTo, At, SameBut;
    ghost var was, raw := mem[..], mem[input..input + n];
    assert raw == was[input..input + n];
    SliceAt(was, input, n);
    var inputBlock := new byte[BLOCK](i requires 0 <= i < BLOCK => iv[i]);
    assert inputBlock[..] == iv;
    NoneChained(was, e, iv, raw, input, output);
    var m := 0;
    while n - m >= BLOCK
      invariant 0 <= m <= n && m % BLOCK == 0
      invariant ChainedUpTo(mem[..], was, e, iv, raw, input, output, m)
      invariant inputBlock[..] == Previous(iv, Chained(e, iv, raw[..m]))
    {
      NextEncrypted(mem, inputBlock, was, e, iv, raw, input, output, m);
      m := m + BLOCK;
    }
    LastEncrypted(mem, inputBlock, was, e, iv, raw, input, n, output, m);
  }

  method NextEncrypted(mem: array<byte>, inputBlock: array<byte>, ghost was: seq<byte>, e: BlockCipher,
                       ghost iv: seq<byte>,
                       ghost raw: seq<byte>, input: nat, output: nat, m: nat)
    requires mem != inputBlock && inputBlock.Length == BLOCK && Overlap(input, |raw|, output)
    requires ChainedUpTo(mem[..], was, e, iv, raw, input, output, m) && m + BLOCK <= |raw|
    requires output + m + BLOCK <= mem.Length
    requires inputBlock[..] == Previous(iv, Chained(e, iv, raw[..m]))
    modifies mem, inputBlock
    ensures ChainedUpTo(mem[..], was, e, iv, raw, input, output, m + BLOCK)
    ensures inputBlock[..] == Previous(iv, Chained(e, iv, raw[..m + BLOCK]))
  {
    hide XorBlock, Previous, Chained, At, SameBut, Overlap;
    ghost var before := mem[..];
    var block := Load(mem, input + m, BLOCK, raw[m..]);
    assert block == raw[m..m + BLOCK];
    EncryptBlock(mem, inputBlock, e, block, output + m);
    NextChained(before, mem[..], was, e, iv, raw, input, output, m, inputBlock[..]);
  }

  /** The last block: the bytes left over and the padding are xored in one by one. */
  method LastEncrypted(mem: array<byte>, inputBlock: array<byte>, ghost was: seq<byte>, e: BlockCipher,
                       ghost iv: seq<byte>,
                       ghost raw: seq<byte>, input: nat, n: nat, output: nat, m: nat)
    requires mem != inputBlock && inputBlock.Length == BLOCK
    requires ChainedUpTo(mem[..], was, e, iv, raw, input, output, m)
    requires m <= n == |raw| < m + BLOCK && output + CbcLength(n) <= mem.Length
    requires inputBlock[..] == Previous(iv, Chained(e, iv, raw[..m]))
    modifies mem, inputBlock
    ensures mem[output..output + CbcLength(n)] == Chained(e, iv, Padded(raw))
    ensures SameBut(was, mem[..], output, CbcLength(n))
  {
    hide XorBlock, Previous, Chained, At, Padded, SameBut;
    ghost var before := mem[..];
    var rest := Load(mem, input + m, n - m, raw[m..]);
    assert rest == raw[m..];
    PaddedLast(raw[..m], rest, raw);
    XorTail(inputBlock, rest);
    var c := e.encrypt(inputBlock[..]);
    CopyTo(mem, output + m, c);
    LastChained(before, mem[..], was, e, iv, raw, input, output, m, c);
    AtSlice(mem[..], output, Chained(e, iv, Padded(raw)));
    assert mem[output..output + CbcLength(n)] == mem[..][output..output + CbcLength(n)];
  }

  lemma LastChained(mem: seq<byte>, mem': seq<byte>, was: seq<byte>, e: BlockCipher, iv: seq<byte>, raw: seq<byte>,
                    input: nat, output: nat, m: nat, c: seq<byte>)
    requires ChainedUpTo(mem, was, e, iv, raw, input, output, m) && |raw| < m + BLOCK
    requires |Padded(raw[m..])| == BLOCK
    requires c == e.encrypt(XorBlock(Previous(iv, Chained(e, iv, raw[..m])), Padded(raw[m..])))
    requires At(mem', output + m, c) && SameBut(mem, mem', output + m, BLOCK)
    ensures At(mem', output, Chained(e, iv, Padded(raw))) && SameBut(was, mem', output, CbcLength(|raw|))
  {
    hide XorBlock, Chained, At, Previous, Padded;
    assert raw == raw[..m] + raw[m..];
    PaddedLast(raw[..m], raw[m..], raw);
    ChainedLast(e, iv, raw[..m], Padded(raw[m..]));
    AtJoin(mem, mem', output, Chained(e, iv, raw[..m]), c);
  }

  lemma PaddedLast(p: seq<byte>, tail: seq<byte>, all: seq<byte>)
    requires |p| % BLOCK == 0 && |tail| < BLOCK && all == p + tail
    ensures Padded(all) == p + Padded(tail) && |Padded(tail)| == BLOCK && CbcLength(|all|) == |p| + BLOCK
  {
  }

  method XorTail(inputBlock: array<byte>, tail: seq<byte>)
    requires inputBlock.Length == BLOCK && |tail| < BLOCK
    modifies inputBlock
    ensures inputBlock[..] == XorBlock(old(inputBlock[..]), Padded(tail))
  {
    hide XorByte;
    ghost var was := inputBlock[..];
    var i := 0;
    while i < |tail|
      invariant 0 <= i <= |tail|
      invariant forall k :: 0 <= k < i ==> inputBlock[k] == XorByte(was[k], Padded(tail)[k])
      invariant forall k :: i <= k < BLOCK ==> inputBlock[k] == was[k]
    {
      inputBlock[i] := XorByte(inputBlock[i], tail[i]);
      i := i + 1;
    }
    while i < BLOCK
      invariant |tail| <= i <= BLOCK
      invariant forall k :: 0 <= k < i ==> inputBlock[k] == XorByte(was[k], Padded(tail)[k])
      invariant forall k :: i <= k < BLOCK ==> inputBlock[k] == was[k]
    {
      inputBlock[i] := XorByte(inputBlock[i], BLOCK - |tail|);
      i := i + 1;
    }
  }

  /** Blocks up to m are decrypted, the rest of the input untouched. */
  ghost predicate UnchainedUpTo(mem: seq<byte>, was: seq<byte>, e: BlockCipher, iv: seq<byte>, raw: seq<byte>,
                                input: nat, output: nat, m: nat)
  {
    && e.Valid() && |iv| == BLOCK && m <= |raw| && m % BLOCK == 0
    && At(mem, output, Unchained(e, iv, raw[..m]))
    && At(mem, input + m, raw[m..])
    && SameBut(was, mem, output, m)
  }

  lemma NextUnchained(mem: seq<byte>, mem': seq<byte>, was: seq<byte>, e: BlockCipher, iv: seq<byte>, raw: seq<byte>,
                      input: nat, output: nat, m: nat, p: seq<byte>)
    requires UnchainedUpTo(mem, was, e, iv, raw, input, output, m) && m + BLOCK <= |raw|
    requires Overlap(input, |raw|, output)
    requires p == XorBlock(e.decrypt(raw[m..m + BLOCK]), Previous(iv, raw[..m]))
    requires At(mem', output + m, p) && SameBut(mem, mem', output + m, BLOCK)
    ensures UnchainedUpTo(mem', was, e, iv, raw, input, output, m + BLOCK)
    ensures Previous(iv, raw[..m + BLOCK]) == raw[m..m + BLOCK]
  {
    hide BlockCipher.Valid, XorBlock, Unchained, At, Previous;
    assert raw[..m + BLOCK] == raw[..m] + raw[m..m + BLOCK];
    UnchainedLast(e, iv, raw[..m], raw[m..m + BLOCK]);
    AtJoin(mem, mem', output, Unchained(e, iv, raw[..m]), p);
    RestKept(mem, mem', raw, input, m, output + m);
    PreviousIsLast(iv, raw[..m], raw[m..m + BLOCK]);
  }

  /** Decrypt a block where it stands, then xor the block before into it. */
  method DecryptBlock(mem: array<byte>, block2: seq<byte>, block1: seq<byte>, e: BlockCipher, output: nat)
    requires e.Valid() && |block1| == |block2| == BLOCK && output + BLOCK <= mem.Length
    modifies mem
    ensures At(mem[..], output, XorBlock(e.decrypt(block2), block1)) && SameBut(old(mem[..]), mem[..], output, BLOCK)
  {
    hide XorByte;
    var p := e.decrypt(block2);
    ghost var was := mem[..];
    CopyTo(mem, output, p);
    var i := 0;
    while i < BLOCK
      invariant 0 <= i <= BLOCK
      invariant forall k {:trigger p[k]} :: 0 <= k < i ==> mem[output + k] == XorByte(p[k], block1[k])
      invariant forall k {:trigger p[k]} :: i <= k < BLOCK ==> mem[output + k] == p[k]
      invariant SameBut(was, mem[..], output, BLOCK)
    {
      mem[output + i] := XorByte(mem[output + i], block1[i]);
      i := i + 1;
    }
  }

  /** The reads of the decryption loop, of 16 bytes at each multiple of 16 below n and of the last byte
   *  of the output at the end, lie within n bytes. */
  ghost predicate StaysInside(n: nat) {
    n > 0 && forall i: nat :: i < n && i % BLOCK == 0 ==> i + BLOCK <= n
  }

  /** So it is for whole blocks, at least one, and for no other length. */
  lemma StaysInsideIff(n: nat)
    ensures StaysInside(n) <==> n > 0 && n % BLOCK == 0
  {
    var last := n - n % BLOCK;
    assert last % BLOCK == 0;
    if n % BLOCK == 0 {
      forall i: nat | i < n && i % BLOCK == 0
        ensures i + BLOCK <= n
      {
        assert i / BLOCK < n / BLOCK;
      }
    }
  }

  /** _olm_crypto_aes_decrypt_cbc: the length of the plaintext, or None for size_t(-1). */
  method DecryptCbc(mem: array<byte>, e: BlockCipher, iv: seq<byte>, input: nat, n: nat, output: nat)
    returns (length: Option<nat>)
    requires e.Valid() && |iv| == BLOCK && n > 0 && n % BLOCK == 0
    requires input + n <= mem.Length && output + n <= mem.Length && Overlap(input, n, output)
    modifies mem
    ensures mem[output..output + n] == Unchained(e, iv, old(mem[input..input + n]))
    ensures length == Unpadded(mem[output..output + n])
    ensures SameBut(old(mem[..]), mem[..], output, n)
  {
    hide BlockCipher.Valid, XorBlock, Previous, Unchained, UnchainedUpTo, At, SameBut, Overlap;
    ghost var was, raw := mem[..], mem[input..input + n];
    assert raw == was[input..input + n];
    SliceAt(was, input, n);
    var block1 := iv;
    NoneUnchained(was, e, iv, raw, input, output);
    var i := 0;
    while i < n
      invariant 0 <= i <= n && i % BLOCK == 0
      invariant UnchainedUpTo(mem[..], was, e, iv, raw, input, output, i)
      invariant |block1| == BLOCK && block1 == Previous(iv, raw[..i])
    {
      block1 := NextDecrypted(mem, block1, was, e, iv, raw, input, output, i);
      i := i + BLOCK;
    }
    AllUnchained(mem[..], was, e, iv, raw, input, output, n);
    assert mem[output..output + n] == mem[..][output..output + n];
    var padding := mem[output + n - 1];
    length := if padding > n then None else Some(n - padding);
  }

  lemma NoneUnchained(was: seq<byte>, e: BlockCipher, iv: seq<byte>, raw: seq<byte>, input: nat, output: nat)
    requires e.Valid() && |iv| == BLOCK && At(was, input, raw) && output <= |was|
    ensures UnchainedUpTo(was, was, e, iv, raw, input, output, 0)
    ensures Previous(iv, raw[..0]) == iv
  {
    assert raw[0..] == raw;
  }

  lemma AllUnchained(mem: seq<byte>, was: seq<byte>, e: BlockCipher, iv: seq<byte>, raw: seq<byte>, input: nat,
                     output: nat, n: nat)
    requires UnchainedUpTo(mem, was, e, iv, raw, input, output, n) && n == |raw|
    ensures output + n <= |mem| && mem[output..output + n] == Unchained(e, iv, raw) && SameBut(was, mem, output, n)
  {
    hide At, Unchained, SameBut;
    assert raw[..n] == raw;
    AtSlice(mem, output, Unchained(e, iv, raw));
    AtFits(mem, output, Unchained(e, iv, raw));
  }

  lemma AtFits(mem: seq<byte>, at: nat, s: seq<byte>)
    requires At(mem, at, s)
    ensures at + |s| <= |mem|
  {
  }

  method NextDecrypted(mem: array<byte>, block1: seq<byte>, ghost was: seq<byte>, e: BlockCipher, ghost iv: seq<byte>,
                       ghost raw: seq<byte>, input: nat, output: nat, m: nat) returns (block2: seq<byte>)
    requires Overlap(input, |raw|, output) && UnchainedUpTo(mem[..], was, e, iv, raw, input, output, m)
    requires m + BLOCK <= |raw| && output + m + BLOCK <= mem.Length
    requires |block1| == BLOCK && block1 == Previous(iv, raw[..m])
    modifies mem
    ensures UnchainedUpTo(mem[..], was, e, iv, raw, input, output, m + BLOCK)
    ensures |block2| == BLOCK && block2 == Previous(iv, raw[..m + BLOCK])
  {
    hide XorBlock, Previous, Unchained, At, SameBut, Overlap;
    ghost var before := mem[..];
    block2 := Load(mem, input + m, BLOCK, raw[m..]);
    assert block2 == raw[m..m + BLOCK];
    DecryptBlock(mem, block2, block1, e, output + m);
    NextUnchained(before, mem[..], was, e, iv, raw, input, output, m, XorBlock(e.decrypt(block2), block1));
  }
}
