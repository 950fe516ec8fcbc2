/** The rounds of AES on a 4 by 4 state (lib/crypto-algorithms/aes.c). */
module AesRounds {
  import opened Aes

  // ----- the steps on sixteen bytes, column by column: byte 4 * c + r is state[r][c] -----

  /** Row r, taken round, of column c. */
  function At(b: seq<Octet>, c: nat, r: nat): Octet
    requires |b| == 16 && c < 4
  {
    b[4 * c + r % 4]
  }

  function Replaced(x: Octet): Octet { Octet(SBox(x.bits)) }
  function InvReplaced(x: Octet): Octet { Octet(InvSBox(x.bits)) }

  function Substituted(b: seq<Octet>): (s: seq<Octet>)
    requires |b| == 16
    ensures |s| == 16
  {
    seq(16, k requires 0 <= k < 16 => Replaced(b[k]))
  }

  function InvSubstituted(b: seq<Octet>): (s: seq<Octet>)
    requires |b| == 16
    ensures |s| == 16
  {
    seq(16, k requires 0 <= k < 16 => InvReplaced(b[k]))
  }

  /** Row r moves left by r places. */
  function Shifted(b: seq<Octet>): (s: seq<Octet>)
    requires |b| == 16
    ensures |s| == 16
  {
    [b[0], b[5], b[10], b[15], b[4], b[9], b[14], b[3], b[8], b[13], b[2], b[7], b[12], b[1], b[6], b[11]]
  }

  /** Row r moves right by r places. */
  function InvShifted(b: seq<Octet>): (s: seq<Octet>)
    requires |b| == 16
    ensures |s| == 16
  {
    [b[0], b[13], b[10], b[7], b[4], b[1], b[14], b[11], b[8], b[5], b[2], b[15], b[12], b[9], b[6], b[3]]
  }

  function Mixed(b: seq<Octet>): (s: seq<Octet>)
    requires |b| == 16
    ensures |s| == 16
  {
    seq(16, k requires 0 <= k < 16 =>
      MixedByte(At(b, k / 4, k), At(b, k / 4, k + 1), At(b, k / 4, k + 2), At(b, k / 4, k + 3)))
  }

  function InvMixed(b: seq<Octet>): (s: seq<Octet>)
    requires |b| == 16
    ensures |s| == 16
  {
    seq(16, k requires 0 <= k < 16 =>
      InvMixedByte(At(b, k / 4, k), At(b, k / 4, k + 1), At(b, k / 4, k + 2), At(b, k / 4, k + 3)))
  }

  /** Byte j of a word of the key schedule, the most significant first. */
  function KeyByte(w: bv32, j: nat): Octet {
    Octet(((if j == 0 then w >> 24 else if j == 1 then w >> 16 else if j == 2 then w >> 8 else w) & 0xFF) as bv8)
  }

  function WithKey(b: seq<Octet>, w: seq<bv32>, round: nat): (s: seq<Octet>)
    requires |b| == 16 && 4 * round + 4 <= |w|
    ensures |s| == 16
  {
    seq(16, k requires 0 <= k < 16 => Plus(b[k], KeyByte(w[4 * round + k / 4], k % 4)))
  }

  // ----- each step is undone by its inverse -----

  lemma SubstitutedBack(b: seq<Octet>)
    requires |b| == 16
    ensures InvSubstituted(Substituted(b)) == b
  {
    hide SBox, InvSBox;
    forall k | 0 <= k < 16
      ensures InvSubstituted(Substituted(b))[k] == b[k]
    {
      SubstitutionInverse(b[k].bits);
    }
  }

  lemma ShiftedBack(b: seq<Octet>)
    requires |b| == 16
    ensures InvShifted(Shifted(b)) == b
  {
  }

  lemma MixedAt(b: seq<Octet>, c: nat, r: nat)
    requires |b| == 16 && c < 4
    ensures At(Mixed(b), c, r) == MixedByte(At(b, c, r), At(b, c, r + 1), At(b, c, r + 2), At(b, c, r + 3))
  {
    hide MixedByte;
    var k := 4 * c + r % 4;
    assert k / 4 == c && k % 4 == r % 4;
    Around(r, k, 1);
    Around(r, k, 2);
    Around(r, k, 3);
  }

  lemma Around(a: nat, b: nat, d: nat)
    requires a % 4 == b % 4
    ensures (a + d) % 4 == (b + d) % 4
  {
  }

  lemma MixedBack(b: seq<Octet>)
    requires |b| == 16
    ensures InvMixed(Mixed(b)) == b
  {
    hide Mixed, InvMixed;
    forall k | 0 <= k < 16
      ensures InvMixed(Mixed(b))[k] == b[k]
    {
      MixedBackAt(b, k);
    }
  }

  lemma InvMixedAt(b: seq<Octet>, k: nat)
    requires |b| == 16 && k < 16
    ensures InvMixed(b)[k] == InvMixedByte(At(b, k / 4, k), At(b, k / 4, k + 1), At(b, k / 4, k + 2),
                                           At(b, k / 4, k + 3))
  {
    hide InvMixedByte;
  }

  lemma MixedBackAt(b: seq<Octet>, k: nat)
    requires |b| == 16 && k < 16
    ensures InvMixed(Mixed(b))[k] == b[k]
  {
    hide MixedByte, InvMixedByte, Mixed, InvMixed;
    var c := k / 4;
    InvMixedAt(Mixed(b), k);
    MixedAt(b, c, k);
    MixedAt(b, c, k + 1);
    MixedAt(b, c, k + 2);
    MixedAt(b, c, k + 3);
    AroundFour(b, c, k);
    AroundFour(b, c, k + 1);
    AroundFour(b, c, k + 2);
    ByteBack(At(b, c, k), At(b, c, k + 1), At(b, c, k + 2), At(b, c, k + 3));
    assert At(b, c, k) == b[k];
    hide At;
  }

  lemma AroundFour(b: seq<Octet>, c: nat, r: nat)
    requires |b| == 16 && c < 4
    ensures At(b, c, r + 4) == At(b, c, r)
  {
  }

  lemma PlusTwice(x: Octet, y: Octet)
    ensures Plus(Plus(x, y), y) == x
  {
  }

  lemma WithKeyTwice(b: seq<Octet>, w: seq<bv32>, round: nat)
    requires |b| == 16 && 4 * round + 4 <= |w|
    ensures WithKey(WithKey(b, w, round), w, round) == b
  {
    hide Plus, KeyByte;
    forall k | 0 <= k < 16
      ensures WithKey(WithKey(b, w, round), w, round)[k] == b[k]
    {
      PlusTwice(b[k], KeyByte(w[4 * round + k / 4], k % 4));
    }
  }

  // ----- all rounds -----

  /** The state after `round` full rounds. */
  function Forward(b: seq<Octet>, w: seq<bv32>, round: nat): (s: seq<Octet>)
    requires |b| == 16 && 4 * round + 4 <= |w|
    ensures |s| == 16
  {
    if round == 0 then WithKey(b, w, 0)
    else WithKey(Mixed(Shifted(Substituted(Forward(b, w, round - 1)))), w, round)
  }

  /** The last round does not mix. */
  function Encrypted(b: seq<Octet>, w: seq<bv32>, rounds: nat): (s: seq<Octet>)
    requires |b| == 16 && 1 <= rounds && 4 * rounds + 4 <= |w|
    ensures |s| == 16
  {
    WithKey(Shifted(Substituted(Forward(b, w, rounds - 1))), w, rounds)
  }

  /** The state on the way back, before round `round` is undone. */
  function Backward(b: seq<Octet>, w: seq<bv32>, rounds: nat, round: nat): (s: seq<Octet>)
    requires |b| == 16 && 1 <= round <= rounds && 4 * rounds + 4 <= |w|
    ensures |s| == 16
    decreases rounds - round
  {
    if round == rounds then WithKey(b, w, rounds)
    else InvMixed(WithKey(InvSubstituted(InvShifted(Backward(b, w, rounds, round + 1))), w, round))
  }

  function Decrypted(b: seq<Octet>, w: seq<bv32>, rounds: nat): (s: seq<Octet>)
    requires |b| == 16 && 1 <= rounds && 4 * rounds + 4 <= |w|
    ensures |s| == 16
  {
    WithKey(InvSubstituted(InvShifted(Backward(b, w, rounds, 1))), w, 0)
  }

  lemma {:induction false} BackwardMeetsForward(b: seq<Octet>, w: seq<bv32>, rounds: nat, round: nat)
    requires |b| == 16 && 1 <= round <= rounds && 4 * rounds + 4 <= |w|
    ensures Backward(Encrypted(b, w, rounds), w, rounds, round) == Shifted(Substituted(Forward(b, w, round - 1)))
    decreases rounds - round
  {
    hide WithKey, Mixed, InvMixed, Shifted, InvShifted, Substituted, InvSubstituted;
    var before := Shifted(Substituted(Forward(b, w, round - 1)));
    if round == rounds {
      WithKeyTwice(before, w, rounds);
    } else {
      BackwardMeetsForward(b, w, rounds, round + 1);
      var s := Forward(b, w, round);
      ShiftedBack(Substituted(s));
      SubstitutedBack(s);
      WithKeyTwice(Mixed(before), w, round);
      MixedBack(before);
    }
  }

  /** Decryption undoes encryption, for every block, key schedule and number of rounds. */
  lemma DecryptedEncrypted(b: seq<Octet>, w: seq<bv32>, rounds: nat)
    requires |b| == 16 && 1 <= rounds && 4 * rounds + 4 <= |w|
    ensures Decrypted(Encrypted(b, w, rounds), w, rounds) == b
  {
    hide WithKey, Mixed, InvMixed, Shifted, InvShifted, Substituted, InvSubstituted, Encrypted, Backward;
    BackwardMeetsForward(b, w, rounds, 1);
    ShiftedBack(Substituted(Forward(b, w, 0)));
    SubstitutedBack(Forward(b, w, 0));
    WithKeyTwice(b, w, 0);
  }

  // ----- in place -----

  function Flat(state: array2<Octet>): (b: seq<Octet>)
    requires state.Length0 == state.Length1 == 4
    reads state
    ensures |b| == 16
  {
    [state[0, 0], state[1, 0], state[2, 0], state[3, 0],
     state[0, 1], state[1, 1], state[2, 1], state[3, 1],
     state[0, 2], state[1, 2], state[2, 2], state[3, 2],
     state[0, 3], state[1, 3], state[2, 3], state[3, 3]]
  }

  method AddRoundKey(state: array2<Octet>, w: seq<bv32>, round: nat)
    requires state.Length0 == state.Length1 == 4 && 4 * round + 4 <= |w|
    modifies state
    ensures Flat(state) == WithKey(old(Flat(state)), w, round)
  {
    hide Plus, KeyByte;
    WithKeyIs(Flat(state), w, round);
    AddSubkey(state, w[4 * round], 0);
    AddSubkey(state, w[4 * round + 1], 1);
    AddSubkey(state, w[4 * round + 2], 2);
    AddSubkey(state, w[4 * round + 3], 3);
  }

  lemma WithKeyIs(b: seq<Octet>, w: seq<bv32>, round: nat)
    requires |b| == 16 && 4 * round + 4 <= |w|
    ensures WithKey(b, w, round) == [
      Plus(b[0], KeyByte(w[4 * round], 0)), Plus(b[1], KeyByte(w[4 * round], 1)),
      Plus(b[2], KeyByte(w[4 * round], 2)), Plus(b[3], KeyByte(w[4 * round], 3)),
      Plus(b[4], KeyByte(w[4 * round + 1], 0)), Plus(b[5], KeyByte(w[4 * round + 1], 1)),
      Plus(b[6], KeyByte(w[4 * round + 1], 2)), Plus(b[7], KeyByte(w[4 * round + 1], 3)),
      Plus(b[8], KeyByte(w[4 * round + 2], 0)), Plus(b[9], KeyByte(w[4 * round + 2], 1)),
      Plus(b[10], KeyByte(w[4 * round + 2], 2)), Plus(b[11], KeyByte(w[4 * round + 2], 3)),
      Plus(b[12], KeyByte(w[4 * round + 3], 0)), Plus(b[13], KeyByte(w[4 * round + 3], 1)),
      Plus(b[14], KeyByte(w[4 * round + 3], 2)), Plus(b[15], KeyByte(w[4 * round + 3], 3))]
  {
    hide Plus, KeyByte;
  }

  method AddSubkey(state: array2<Octet>, w: bv32, c: nat)
    requires state.Length0 == state.Length1 == 4 && c < 4
    modifies state
    ensures forall r, k :: 0 <= r < 4 && 0 <= k < 4 ==>
              state[r, k] == if k == c then Plus(old(state[r, k]), KeyByte(w, r)) else old(state[r, k])
  {
    hide Plus, KeyByte;
    state[0, c] := Plus(state[0, c], KeyByte(w, 0));
    state[1, c] := Plus(state[1, c], KeyByte(w, 1));
    state[2, c] := Plus(state[2, c], KeyByte(w, 2));
    state[3, c] := Plus(state[3, c], KeyByte(w, 3));
  }

  method SubBytes(state: array2<Octet>)
    requires state.Length0 == state.Length1 == 4
    modifies state
    ensures Flat(state) == Substituted(old(Flat(state)))
  {
    hide Replaced;
    SubstitutedIs(Flat(state));
    SubBytesRow(state, 0);
    SubBytesRow(state, 1);
    SubBytesRow(state, 2);
    SubBytesRow(state, 3);
  }

  method SubBytesRow(state: array2<Octet>, r: nat)
    requires state.Length0 == state.Length1 == 4 && r < 4
    modifies state
    ensures forall i, k :: 0 <= i < 4 && 0 <= k < 4 ==>
              state[i, k] == if i == r then Replaced(old(state[i, k])) else old(state[i, k])
  {
    hide Replaced;
    state[r, 0] := Replaced(state[r, 0]);
    state[r, 1] := Replaced(state[r, 1]);
    state[r, 2] := Replaced(state[r, 2]);
    state[r, 3] := Replaced(state[r, 3]);
  }

  lemma SubstitutedIs(b: seq<Octet>)
    requires |b| == 16
    ensures Substituted(b) == [Replaced(b[0]), Replaced(b[1]), Replaced(b[2]), Replaced(b[3]), Replaced(b[4]),
                               Replaced(b[5]), Replaced(b[6]), Replaced(b[7]),
                               Replaced(b[8]), Replaced(b[9]), Replaced(b[10]), Replaced(b[11]),
                               Replaced(b[12]), Replaced(b[13]), Replaced(b[14]), Replaced(b[15])]
  {
    hide Replaced;
  }

  method InvSubBytes(state: array2<Octet>)
    requires state.Length0 == state.Length1 == 4
    modifies state
    ensures Flat(state) == InvSubstituted(old(Flat(state)))
  {
    hide InvReplaced;
    InvSubstitutedIs(Flat(state));
    InvSubBytesRow(state, 0);
    InvSubBytesRow(state, 1);
    InvSubBytesRow(state, 2);
    InvSubBytesRow(state, 3);
  }

  method InvSubBytesRow(state: array2<Octet>, r: nat)
    requires state.Length0 == state.Length1 == 4 && r < 4
    modifies state
    ensures forall i, k :: 0 <= i < 4 && 0 <= k < 4 ==>
              state[i, k] == if i == r then InvReplaced(old(state[i, k])) else old(state[i, k])
  {
    hide InvReplaced;
    state[r, 0] := InvReplaced(state[r, 0]);
    state[r, 1] := InvReplaced(state[r, 1]);
    state[r, 2] := InvReplaced(state[r, 2]);
    state[r, 3] := InvReplaced(state[r, 3]);
  }

  lemma InvSubstitutedIs(b: seq<Octet>)
    requires |b| == 16
    ensures InvSubstituted(b) == [InvReplaced(b[0]), InvReplaced(b[1]), InvReplaced(b[2]), InvReplaced(b[3]),
                                  InvReplaced(b[4]), InvReplaced(b[5]), InvReplaced(b[6]), InvReplaced(b[7]),
                                  InvReplaced(b[8]), InvReplaced(b[9]), InvReplaced(b[10]), InvReplaced(b[11]),
                                  InvReplaced(b[12]), InvReplaced(b[13]), InvReplaced(b[14]), InvReplaced(b[15])]
  {
    hide InvReplaced;
  }

  method ShiftRows(state: array2<Octet>)
    requires state.Length0 == state.Length1 == 4
    modifies state
    ensures Flat(state) == Shifted(old(Flat(state)))
  {
    var t := state[1, 0];
    state[1, 0] := state[1, 1];
    state[1, 1] := state[1, 2];
    state[1, 2] := state[1, 3];
    state[1, 3] := t;
    t := state[2, 0];
    state[2, 0] := state[2, 2];
    state[2, 2] := t;
    t := state[2, 1];
    state[2, 1] := state[2, 3];
    state[2, 3] := t;
    t := state[3, 0];
    state[3, 0] := state[3, 3];
    state[3, 3] := state[3, 2];
    state[3, 2] := state[3, 1];
    state[3, 1] := t;
  }

  method InvShiftRows(state: array2<Octet>)
    requires state.Length0 == state.Length1 == 4
    modifies state
    ensures Flat(state) == InvShifted(old(Flat(state)))
  {
    var t := state[1, 3];
    state[1, 3] := state[1, 2];
    state[1, 2] := state[1, 1];
    state[1, 1] := state[1, 0];
    state[1, 0] := t;
    t := state[2, 3];
    state[2, 3] := state[2, 1];
    state[2, 1] := t;
    t := state[2, 2];
    state[2, 2] := state[2, 0];
    state[2, 0] := t;
    t := state[3, 3];
    state[3, 3] := state[3, 0];
    state[3, 0] := state[3, 1];
    state[3, 1] := state[3, 2];
    state[3, 2] := t;
  }

  /** A column is copied before it is overwritten. */
  method MixColumn(state: array2<Octet>, c: nat)
    requires state.Length0 == state.Length1 == 4 && c < 4
    modifies state
    ensures forall r, k :: 0 <= r < 4 && 0 <= k < 4 && k != c ==> state[r, k] == old(state[r, k])
    ensures var b0, b1, b2, b3 := old(state[0, c]), old(state[1, c]), old(state[2, c]), old(state[3, c]);
      && state[0, c] == MixedByte(b0, b1, b2, b3) && state[1, c] == MixedByte(b1, b2, b3, b0)
      && state[2, c] == MixedByte(b2, b3, b0, b1) && state[3, c] == MixedByte(b3, b0, b1, b2)
  {
    hide Plus, Two, Three;
    var b0, b1, b2, b3 := state[0, c], state[1, c], state[2, c], state[3, c];
    Rotate(Two(b1), Three(b2), b3, b0);
    Rotate(Two(b2), Three(b3), b0, b1);
    Rotate(b1, Two(b2), Three(b3), b0);
    Rotate(Two(b3), Three(b0), b1, b2);
    Rotate(b2, Two(b3), Three(b0), b1);
    Rotate(b1, b2, Two(b3), Three(b0));
    state[0, c] := Sum(Two(b0), Three(b1), b2, b3);
    state[1, c] := Sum(b0, Two(b1), Three(b2), b3);
    state[2, c] := Sum(b0, b1, Two(b2), Three(b3));
    state[3, c] := Sum(Three(b0), b1, b2, Two(b3));
  }

  lemma MixedIs(b: seq<Octet>)
    requires |b| == 16
    ensures Mixed(b) == [
      MixedByte(b[0], b[1], b[2], b[3]), MixedByte(b[1], b[2], b[3], b[0]),
      MixedByte(b[2], b[3], b[0], b[1]), MixedByte(b[3], b[0], b[1], b[2]),
      MixedByte(b[4], b[5], b[6], b[7]), MixedByte(b[5], b[6], b[7], b[4]),
      MixedByte(b[6], b[7], b[4], b[5]), MixedByte(b[7], b[4], b[5], b[6]),
      MixedByte(b[8], b[9], b[10], b[11]), MixedByte(b[9], b[10], b[11], b[8]),
      MixedByte(b[10], b[11], b[8], b[9]), MixedByte(b[11], b[8], b[9], b[10]),
      MixedByte(b[12], b[13], b[14], b[15]), MixedByte(b[13], b[14], b[15], b[12]),
      MixedByte(b[14], b[15], b[12], b[13]), MixedByte(b[15], b[12], b[13], b[14])]
  {
    hide MixedByte;
  }

  method MixColumns(state: array2<Octet>)
    requires state.Length0 == state.Length1 == 4
    modifies state
    ensures Flat(state) == Mixed(old(Flat(state)))
  {
    hide MixedByte;
    MixedIs(Flat(state));
    MixColumn(state, 0);
    MixColumn(state, 1);
    MixColumn(state, 2);
    MixColumn(state, 3);
  }

  method InvMixColumn(state: array2<Octet>, c: nat)
    requires state.Length0 == state.Length1 == 4 && c < 4
    modifies state
    ensures forall r, k :: 0 <= r < 4 && 0 <= k < 4 && k != c ==> state[r, k] == old(state[r, k])
    ensures var b0, b1, b2, b3 := old(state[0, c]), old(state[1, c]), old(state[2, c]), old(state[3, c]);
      && state[0, c] == InvMixedByte(b0, b1, b2, b3) && state[1, c] == InvMixedByte(b1, b2, b3, b0)
      && state[2, c] == InvMixedByte(b2, b3, b0, b1) && state[3, c] == InvMixedByte(b3, b0, b1, b2)
  {
    hide Sum, Nine, Eleven, Thirteen, Fourteen;
    var b0, b1, b2, b3 := state[0, c], state[1, c], state[2, c], state[3, c];
    Rotate(Fourteen(b1), Eleven(b2), Thirteen(b3), Nine(b0));
    RotateTwice(Fourteen(b2), Eleven(b3), Thirteen(b0), Nine(b1));
    RotateThrice(Fourteen(b3), Eleven(b0), Thirteen(b1), Nine(b2));
    state[0, c] := Sum(Fourteen(b0), Eleven(b1), Thirteen(b2), Nine(b3));
    state[1, c] := Sum(Nine(b0), Fourteen(b1), Eleven(b2), Thirteen(b3));
    state[2, c] := Sum(Thirteen(b0), Nine(b1), Fourteen(b2), Eleven(b3));
    state[3, c] := Sum(Eleven(b0), Thirteen(b1), Nine(b2), Fourteen(b3));
  }

  lemma RotateTwice(a: Octet, b: Octet, c: Octet, d: Octet)
    ensures Sum(c, d, a, b) == Sum(a, b, c, d)
  {
    Rotate(a, b, c, d);
    Rotate(d, a, b, c);
    hide Sum;
  }

  lemma RotateThrice(a: Octet, b: Octet, c: Octet, d: Octet)
    ensures Sum(b, c, d, a) == Sum(a, b, c, d)
  {
    RotateTwice(a, b, c, d);
    Rotate(c, d, a, b);
    hide Sum;
  }

  lemma InvMixedIs(b: seq<Octet>)
    requires |b| == 16
    ensures InvMixed(b) == [
      InvMixedByte(b[0], b[1], b[2], b[3]), InvMixedByte(b[1], b[2], b[3], b[0]),
      InvMixedByte(b[2], b[3], b[0], b[1]), InvMixedByte(b[3], b[0], b[1], b[2]),
      InvMixedByte(b[4], b[5], b[6], b[7]), InvMixedByte(b[5], b[6], b[7], b[4]),
      InvMixedByte(b[6], b[7], b[4], b[5]), InvMixedByte(b[7], b[4], b[5], b[6]),
      InvMixedByte(b[8], b[9], b[10], b[11]), InvMixedByte(b[9], b[10], b[11], b[8]),
      InvMixedByte(b[10], b[11], b[8], b[9]), InvMixedByte(b[11], b[8], b[9], b[10]),
      InvMixedByte(b[12], b[13], b[14], b[15]), InvMixedByte(b[13], b[14], b[15], b[12]),
      InvMixedByte(b[14], b[15], b[12], b[13]), InvMixedByte(b[15], b[12], b[13], b[14])]
  {
    hide InvMixedByte;
  }

  method InvMixColumns(state: array2<Octet>)
    requires state.Length0 == state.Length1 == 4
    modifies state
    ensures Flat(state) == InvMixed(old(Flat(state)))
  {
    hide InvMixedByte;
    InvMixedIs(Flat(state));
    InvMixColumn(state, 0);
    InvMixColumn(state, 1);
    InvMixColumn(state, 2);
    InvMixColumn(state, 3);
  }

  // ----- whole blocks -----

  /** The rounds for a key size. */
  function Rounds(keysize: nat): nat { if keysize == 128 then 10 else if keysize == 192 then 12 else 14 }

  method Round(state: array2<Octet>, w: seq<bv32>, round: nat, ghost b: seq<Octet>)
    requires state.Length0 == state.Length1 == 4 && |b| == 16 && round >= 1 && 4 * round + 4 <= |w|
    requires Flat(state) == Forward(b, w, round - 1)
    modifies state
    ensures Flat(state) == Forward(b, w, round)
  {
    hide Flat, Substituted, Shifted, Mixed, WithKey;
    SubBytes(state);
    ShiftRows(state);
    MixColumns(state);
    AddRoundKey(state, w, round);
  }

  method FinalRound(state: array2<Octet>, w: seq<bv32>, rounds: nat, ghost b: seq<Octet>)
    requires state.Length0 == state.Length1 == 4 && |b| == 16 && rounds >= 1 && 4 * rounds + 4 <= |w|
    requires Flat(state) == Forward(b, w, rounds - 1)
    modifies state
    ensures Flat(state) == Encrypted(b, w, rounds)
  {
    hide Flat, Substituted, Shifted, WithKey, Forward;
    SubBytes(state);
    ShiftRows(state);
    AddRoundKey(state, w, rounds);
  }

  method InvRound(state: array2<Octet>, w: seq<bv32>, rounds: nat, round: nat, ghost b: seq<Octet>)
    requires state.Length0 == state.Length1 == 4 && |b| == 16 && 1 <= round < rounds && 4 * rounds + 4 <= |w|
    requires Flat(state) == Backward(b, w, rounds, round + 1)
    modifies state
    ensures Flat(state) == Backward(b, w, rounds, round)
  {
    hide Flat, InvSubstituted, InvShifted, InvMixed, WithKey;
    InvShiftRows(state);
    InvSubBytes(state);
    AddRoundKey(state, w, round);
    InvMixColumns(state);
  }

  /** The rounds of aes_encrypt. */
  method EncryptState(state: array2<Octet>, w: seq<bv32>, keysize: nat)
    requires state.Length0 == state.Length1 == 4 && keysize in {128, 192, 256} && |w| == 4 * Rounds(keysize) + 4
    modifies state
    ensures Flat(state) == Encrypted(old(Flat(state)), w, Rounds(keysize))
  {
    hide Flat, WithKey, Forward, Encrypted;
    ghost var b := Flat(state);
    AddRoundKey(state, w, 0);
    ForwardZero(b, w);
    Round(state, w, 1, b);
    Round(state, w, 2, b);
    Round(state, w, 3, b);
    Round(state, w, 4, b);
    Round(state, w, 5, b);
    Round(state, w, 6, b);
    Round(state, w, 7, b);
    Round(state, w, 8, b);
    Round(state, w, 9, b);
    if keysize != 128 {
      Round(state, w, 10, b);
      Round(state, w, 11, b);
      if keysize != 192 {
        Round(state, w, 12, b);
        Round(state, w, 13, b);
        FinalRound(state, w, 14, b);
      } else {
        FinalRound(state, w, 12, b);
      }
    } else {
      FinalRound(state, w, 10, b);
    }
  }

  lemma ForwardZero(b: seq<Octet>, w: seq<bv32>)
    requires |b| == 16 && |w| >= 4
    ensures Forward(b, w, 0) == WithKey(b, w, 0)
  {
  }

  /** The rounds of aes_decrypt. */
  method DecryptState(state: array2<Octet>, w: seq<bv32>, keysize: nat)
    requires state.Length0 == state.Length1 == 4 && keysize in {128, 192, 256} && |w| == 4 * Rounds(keysize) + 4
    modifies state
    ensures Flat(state) == Decrypted(old(Flat(state)), w, Rounds(keysize))
  {
    hide Flat, WithKey, Backward, Decrypted, InvShifted, InvSubstituted;
    ghost var b := Flat(state);
    var rounds := Rounds(keysize);
    BackwardLast(b, w, rounds);
    if keysize > 128 {
      if keysize > 192 {
        AddRoundKey(state, w, 14);
        InvRound(state, w, rounds, 13, b);
        InvRound(state, w, rounds, 12, b);
      } else {
        AddRoundKey(state, w, 12);
      }
      InvRound(state, w, rounds, 11, b);
      InvRound(state, w, rounds, 10, b);
    } else {
      AddRoundKey(state, w, 10);
    }
    InvRound(state, w, rounds, 9, b);
    InvRound(state, w, rounds, 8, b);
    InvRound(state, w, rounds, 7, b);
    InvRound(state, w, rounds, 6, b);
    InvRound(state, w, rounds, 5, b);
    InvRound(state, w, rounds, 4, b);
    InvRound(state, w, rounds, 3, b);
    InvRound(state, w, rounds, 2, b);
    InvRound(state, w, rounds, 1, b);
    InvShiftRows(state);
    InvSubBytes(state);
    AddRoundKey(state, w, 0);
    DecryptedIs(b, w, rounds);
  }

  lemma BackwardLast(b: seq<Octet>, w: seq<bv32>, rounds: nat)
    requires |b| == 16 && 1 <= rounds && 4 * rounds + 4 <= |w|
    ensures Backward(b, w, rounds, rounds) == WithKey(b, w, rounds)
  {
  }

  lemma DecryptedIs(b: seq<Octet>, w: seq<bv32>, rounds: nat)
    requires |b| == 16 && 1 <= rounds && 4 * rounds + 4 <= |w|
    ensures Decrypted(b, w, rounds) == WithKey(InvSubstituted(InvShifted(Backward(b, w, rounds, 1))), w, 0)
  {
  }
}
