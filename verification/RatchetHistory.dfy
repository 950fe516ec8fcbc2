/** What two parties have done together: the ratchet keys in the order they were made, and the
 *  messages sent under each. Epoch e is the turn that made key e; even epochs are Alice's. */
module RatchetHistory {
  import opened Words
  import opened DoubleRatchet

  datatype History = History(secret: seq<byte>, keys: seq<nat>, log: seq<seq<seq<byte>>>) {
    ghost predicate Valid() {
      && |keys| == |log| > 0
      && (forall a, b :: 0 <= a < b < |keys| ==> keys[a] != keys[b])
      // chain indices are 32 bits: no chain carries 2^32 messages
      && (forall e :: 0 <= e < |log| ==> |log[e]| < TWO32)
    }

    function Last(): int { |keys| - 1 }
  }

  // ----- the keys both parties ought to have -----

  function RootAt(secret: seq<byte>, keys: seq<nat>, e: nat): Key
    requires e < |keys|
  {
    if e == 0 then InitialRoot(secret)
    else Root(RootAt(secret, keys, e - 1), SharedSecret(keys[e - 1], keys[e]))
  }

  function ChainAt(secret: seq<byte>, keys: seq<nat>, e: nat): Key
    requires e < |keys|
  {
    if e == 0 then InitialChain(secret)
    else Chain(RootAt(secret, keys, e - 1), SharedSecret(keys[e - 1], keys[e]))
  }

  function MessageKey(h: History, e: nat, i: nat): Key
    requires e < |h.keys|
  {
    ForMessage(Iterate(ChainAt(h.secret, h.keys, e), i))
  }

  /** Message number i of epoch e as its sender put it on the wire. */
  function SentMessage(h: History, e: nat, i: nat): Reader
    requires h.Valid() && e < |h.log| && i < |h.log[e]|
  {
    MessageOf(h.keys[e], i, MessageKey(h, e, i), h.log[e][i])
  }

  lemma {:induction false} RootAtPrefix(secret: seq<byte>, keys: seq<nat>, keys': seq<nat>, e: nat)
    requires e < |keys| && keys <= keys'
    ensures RootAt(secret, keys, e) == RootAt(secret, keys', e)
    ensures ChainAt(secret, keys, e) == ChainAt(secret, keys', e)
  {
    if e > 0 {
      RootAtPrefix(secret, keys, keys', e - 1);
    }
  }

  // ----- derivations tell epochs and counters apart -----

  function RootDepth(k: Key): nat {
    if k.Root? then 1 + RootDepth(k.root) else 0
  }

  lemma {:induction false} RootDepthIsEpoch(secret: seq<byte>, keys: seq<nat>, e: nat)
    requires e < |keys|
    ensures RootDepth(RootAt(secret, keys, e)) == e
  {
    if e > 0 {
      RootDepthIsEpoch(secret, keys, e - 1);
    }
  }

  lemma {:induction false} IterateInjective(a: Key, b: Key, n: nat)
    requires Iterate(a, n) == Iterate(b, n)
    ensures a == b
  {
    if n > 0 {
      IterateInjective(a, b, n - 1);
    }
  }

  /** The chain a party at epoch `mine` would derive against key e opens the messages of epoch e
   *  exactly when e is the very next epoch. */
  lemma DerivedChainOpens(h: History, mine: nat, e: nat, i: nat)
    requires h.Valid() && mine < |h.keys| && e < |h.keys|
    ensures ForMessage(Iterate(Chain(RootAt(h.secret, h.keys, mine), SharedSecret(h.keys[mine], h.keys[e])), i))
              == MessageKey(h, e, i)
       <==> e == mine + 1
  {
    var derived := Chain(RootAt(h.secret, h.keys, mine), SharedSecret(h.keys[mine], h.keys[e]));
    if Iterate(derived, i) == Iterate(ChainAt(h.secret, h.keys, e), i) {
      IterateInjective(derived, ChainAt(h.secret, h.keys, e), i);
      RootDepthIsEpoch(h.secret, h.keys, mine);
      RootDepthIsEpoch(h.secret, h.keys, e - 1);
    }
  }

  /** Either side of a Diffie-Hellman exchange computes the same secret. */
  lemma SharedSecretSymmetric(a: nat, b: nat)
    ensures SharedSecret(a, b) == SharedSecret(b, a)
  {
  }

  // ----- growth -----

  /** h' continues h: more epochs, more messages, nothing rewritten. */
  ghost predicate Extends(h: History, h': History) {
    && h.secret == h'.secret && h.keys <= h'.keys && |h.log| <= |h'.log|
    && (forall e :: 0 <= e < |h.log| ==> h.log[e] <= h'.log[e])
  }

  function WithMessage(h: History, e: nat, plaintext: seq<byte>): History
    requires e < |h.log|
  {
    h.(log := h.log[e := h.log[e] + [plaintext]])
  }

  function WithEpoch(h: History, key: nat): History {
    h.(keys := h.keys + [key], log := h.log + [[]])
  }
}
