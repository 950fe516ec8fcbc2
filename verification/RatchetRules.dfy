/** When a ratchet encrypts and when it decrypts, state by state (src/ratchet.cpp), and what this means for two of
 *  them: either can always send, and the other can read it. */
module RatchetRules {
  import opened Words
  import opened BoundedList
  import opened MessageFormats
  import opened DoubleRatchet
  import opened RatchetHistory
  import opened RatchetParty
  import opened RatchetDelivery
  import opened RatchetProtocol

  function NextIndex(st: State): nat { if st.sender.Some? then st.sender.value.chain.index else 0 }

  /** A message comes out just when there is a chain or randomness for a key, and room for the message. */
  lemma EncryptsIff(st: State, plaintext: seq<byte>, newKey: nat, randomLength: nat, room: nat)
    requires st.Valid()
    ensures var out := Encrypted(st, plaintext, newKey, randomLength, room);
      var random := st.sender.Some? || randomLength >= 32;
      && (out.1.Some? <==> random && room >= NormalLength(NextIndex(st), 32, CbcLength(|plaintext|), 8))
      && (!random ==> out == (st.(lastError := NOT_ENOUGH_RANDOM), None))
      && (random && out.1.None? ==> out == (st.(lastError := OUTPUT_BUFFER_TOO_SMALL), None))
  {
    hide CbcLength, NormalLength;
  }

  /** What it says and what is left: the chain's counter and message key, and then the next ones. */
  lemma EncryptsTo(st: State, plaintext: seq<byte>, newKey: nat, randomLength: nat, room: nat)
    requires st.Valid() && Encrypted(st, plaintext, newKey, randomLength, room).1.Some?
    ensures var (after, message) := Encrypted(st, plaintext, newKey, randomLength, room);
      && (st.sender.Some? ==>
            var SenderChain(key, chain) := st.sender.value;
            && message.value
               == Reader(3, Some(chain.index), Some(key), 32, Some(Sealed(ForMessage(chain.key), plaintext)))
            && after == st.(sender := Some(SenderChain(key, after.sender.value.chain)))
            && after.sender.value.chain.key == Next(chain.key)
            && after.sender.value.chain.index == (if chain.index == 0xFFFF_FFFF then 0 else chain.index + 1))
      && (st.sender.None? ==>
            var dh := SharedSecret(newKey, st.receivers[0].ratchetKey);
            var first := Chain(st.root, dh);
            && message.value == Reader(3, Some(0), Some(newKey), 32, Some(Sealed(ForMessage(first), plaintext)))
            && after == st.(root := Root(st.root, dh), sender := Some(SenderChain(newKey, ChainKey(1, Next(first))))))
  {
    hide CbcLength, NormalLength;
  }

  // ----- arbitrary messages -----

  /** What is asked of a message before any key is looked at. */
  predicate WellFormed(r: Reader, room: nat) {
    && r.version == 3 && r.counter.Some? && r.ratchetKey.Some? && r.ciphertext.Some?
    && room >= CbcLength(|r.ciphertext.value.plaintext|) && r.ratchetKeyLength == 32
  }

  lemma MalformedRefused(st: State, r: Reader, room: nat, sequential: bool)
    requires st.Valid() && !WellFormed(r, room)
    ensures Decrypted(st, r, room, sequential)
         == (st.(lastError :=
               if r.version != 3 then BAD_MESSAGE_VERSION
               else if r.counter.None? || r.ratchetKey.None? || r.ciphertext.None? then BAD_MESSAGE_FORMAT
               else if room < CbcLength(|r.ciphertext.value.plaintext|) then OUTPUT_BUFFER_TOO_SMALL
               else BAD_MESSAGE_FORMAT), None)
  {
    hide CbcLength, DecryptedWellFormed;
  }

  /** A key that none of the receiver chains has: only the chain that our own newest key gives may open it. */
  lemma UnknownKeyOpensIff(st: State, r: Reader, room: nat, sequential: bool)
    requires st.Valid() && WellFormed(r, room)
    requires forall k :: 0 <= k < |st.receivers| ==> st.receivers[k].ratchetKey != r.ratchetKey.value
    ensures var out := Decrypted(st, r, room, sequential);
      var i, sealed := r.counter.value, r.ciphertext.value;
      && (out.1.Some? <==>
            && st.sender.Some? && i <= 2000
            && var dh := SharedSecret(st.sender.value.ratchetKey, r.ratchetKey.value);
               sealed.key == ForMessage(Iterate(Chain(st.root, dh), i)))
      && (out.1.Some? ==> out.1.value == sealed.plaintext)
      && (out.1.None? ==>
            out.0 == st.(lastError := if st.sender.None? then SENDER_CHAIN_NOT_ACKNOWLEDGED
                                      else if i > 2000 then MAX_MESSAGE_GAP_EXCEEDED
                                      else if st.lastError == SUCCESS then BAD_MESSAGE_MAC else st.lastError))
  {
    hide CbcLength, PastMessage, WithReceiver, Iterate;
  }

  /** A key that a receiver chain has: from the chain's index on, the chain opens it; before, a stored key does. */
  lemma KnownKeyOpensIff(st: State, r: Reader, k: nat, room: nat, sequential: bool)
    requires st.Valid() && WellFormed(r, room) && k < |st.receivers| && st.receivers[k].ratchetKey == r.ratchetKey.value
    requires forall j :: 0 <= j < k ==> st.receivers[j].ratchetKey != r.ratchetKey.value
    ensures var out := Decrypted(st, r, room, sequential);
      var i, sealed, chain := r.counter.value, r.ciphertext.value, st.receivers[k].chain;
      && (i < chain.index ==>
            (out.1.Some? <==> exists j :: 0 <= j < |st.skipped| && Fits(st.skipped[j], r.ratchetKey.value, i, sealed)))
      && (i >= chain.index ==>
            (out.1.Some? <==>
               && i - chain.index <= 2000 && (sequential ==> i == chain.index)
               && sealed.key == ForMessage(Iterate(chain.key, i - chain.index))))
      && (out.1.Some? ==> out.1.value == sealed.plaintext)
      && (out.1.None? ==>
            out.0 == st.(lastError := if sequential && i > chain.index then MESSAGE_OUT_OF_ORDER
                                      else if i < chain.index then ALREADY_DECRYPTED_OR_KEYS_SKIPPED
                                      else if i - chain.index > 2000 then MAX_MESSAGE_GAP_EXCEEDED
                                      else if st.lastError == SUCCESS then BAD_MESSAGE_MAC else st.lastError))
  {
    assert FindChain(st.receivers, r.ratchetKey.value) == k;
    hide CbcLength, PastMessage, WithReceiver, Iterate, FindChain, FindSkipped, Erased;
  }

  /** The next message key of a chain: one derivation a message, and none skipped. */
  lemma {:induction false} ChainKeys(chain: Key, n: nat)
    ensures Iterate(chain, 0) == chain && Iterate(chain, n + 1) == Next(Iterate(chain, n))
  {
  }

  // ----- what a delivery leaves -----

  /** On the chain of the message: it stands one past it, with the keys of the messages passed over in front. */
  lemma MovesPast(st: State, r: Reader, k: nat, room: nat, sequential: bool)
    requires st.Valid() && WellFormed(r, room) && k < |st.receivers| && st.receivers[k].ratchetKey == r.ratchetKey.value
    requires forall j :: 0 <= j < k ==> st.receivers[j].ratchetKey != r.ratchetKey.value
    requires st.receivers[k].chain.index <= r.counter.value && Decrypted(st, r, room, sequential).1.Some?
    ensures var after := Decrypted(st, r, room, sequential).0;
      var i, chain := r.counter.value, st.receivers[k].chain;
      && after == st.(skipped := after.skipped, receivers := after.receivers)
      && |after.receivers| == |st.receivers|
      && (forall j :: 0 <= j < |st.receivers| && j != k ==> after.receivers[j] == st.receivers[j])
      && after.receivers[k] == ReceiverChain(r.ratchetKey.value,
           ChainKey(if i == 0xFFFF_FFFF then 0 else i + 1, Next(Iterate(chain.key, i - chain.index))))
      && StoredInFront(st.skipped, after.skipped, r.ratchetKey.value, chain, i - chain.index)
  {
    assert FindChain(st.receivers, r.ratchetKey.value) == k;
    StoreInFront(st.skipped, r.ratchetKey.value, st.receivers[k].chain, r.counter.value - st.receivers[k].chain.index);
    hide CbcLength, WithReceiver, Iterate, FindChain, FindSkipped, Erased, Store, StoredInFront;
  }

  /** The n keys from the chain's index on stand in front, the last one first, and the older ones follow; what is
   *  past the fortieth is gone. */
  ghost predicate StoredInFront(was: seq<SkippedKey>, now: seq<SkippedKey>, ratchetKey: nat, chain: ChainKey, n: nat) {
    && |now| == (if |was| + n <= 40 then |was| + n else 40)
    && (forall j :: 0 <= j < |now| && j < n ==>
          now[j].ratchetKey == ratchetKey && now[j].index == chain.index + (n - 1 - j)
          && now[j].key == ForMessage(Iterate(chain.key, n - 1 - j)))
    && (forall j :: n <= j < |now| ==> now[j] == was[j - n])
  }

  lemma {:induction false} StoreInFront(was: seq<SkippedKey>, ratchetKey: nat, chain: ChainKey, n: nat)
    requires |was| <= 40 && chain.index + n < TWO32
    ensures StoredInFront(was, Store(was, ratchetKey, chain, n), ratchetKey, chain, n)
  {
    if n > 0 {
      StoreInFront(was, ratchetKey, chain, n - 1);
      var before := Store(was, ratchetKey, chain, n - 1);
      InsertedFront(before, 40,
        SkippedKey(ratchetKey, chain.index + n - 1, ForMessage(Iterate(chain.key, n - 1))));
      hide Store;
    }
  }

  /** With a new chain: it is the first of at most five, the root has moved on, and our own turn is used up. */
  lemma StartsChain(st: State, r: Reader, room: nat, sequential: bool)
    requires st.Valid() && WellFormed(r, room) && Decrypted(st, r, room, sequential).1.Some?
    requires forall k :: 0 <= k < |st.receivers| ==> st.receivers[k].ratchetKey != r.ratchetKey.value
    ensures var after := Decrypted(st, r, room, sequential).0;
      var i, n := r.counter.value, |st.receivers|;
      st.sender.Some? &&
      var dh := SharedSecret(st.sender.value.ratchetKey, r.ratchetKey.value);
      && after.root == Root(st.root, dh) && after.sender.None? && after.lastError == st.lastError
      && |after.receivers| == (if n < 5 then n + 1 else 5)
      && after.receivers[0] == ReceiverChain(r.ratchetKey.value, ChainKey(i + 1, Next(Iterate(Chain(st.root, dh), i))))
      && (forall j :: 0 < j < |after.receivers| ==> after.receivers[j] == st.receivers[j - 1])
      && StoredInFront(st.skipped, after.skipped, r.ratchetKey.value, ChainKey(0, Chain(st.root, dh)), i)
  {
    hide CbcLength, Iterate, FindSkipped, Erased, Store, StoredInFront;
    assert FindChain(st.receivers, r.ratchetKey.value) == |st.receivers|;
    hide FindChain;
    var i := r.counter.value;
    var dh := SharedSecret(st.sender.value.ratchetKey, r.ratchetKey.value);
    var started := ReceiverChain(r.ratchetKey.value, ChainKey(0, Chain(st.root, dh)));
    StoreInFront(st.skipped, r.ratchetKey.value, started.chain, i);
    InsertedFront(st.receivers, 5, started);
  }

  function Without(st: State, j: nat): State
    requires j < |st.skipped|
  {
    st.(skipped := st.skipped[..j] + st.skipped[j + 1..])
  }

  /** With a stored key: this key is gone, and nothing else has changed. */
  lemma UsesStoredKey(st: State, r: Reader, k: nat, room: nat, sequential: bool)
    requires st.Valid() && WellFormed(r, room) && k < |st.receivers| && st.receivers[k].ratchetKey == r.ratchetKey.value
    requires forall j :: 0 <= j < k ==> st.receivers[j].ratchetKey != r.ratchetKey.value
    requires r.counter.value < st.receivers[k].chain.index && Decrypted(st, r, room, sequential).1.Some?
    ensures exists j :: 0 <= j < |st.skipped|
                        && Fits(st.skipped[j], r.ratchetKey.value, r.counter.value, r.ciphertext.value)
                        && Decrypted(st, r, room, sequential).0 == Without(st, j)
  {
    assert FindChain(st.receivers, r.ratchetKey.value) == k;
    hide CbcLength, Iterate, FindChain, PastMessage, WithReceiver;
  }

  // ----- two parties -----

  /** The message is the newest one of its epoch, and nothing has happened to the peer. */
  ghost predicate Newest(w: World, w': World, who: nat, plaintext: seq<byte>, message: Option<Reader>)
    requires who < 2
  {
    var e := w'.Of(who).epoch;
    && w'.h.Valid() && e < |w'.h.log| && |w'.h.log[e]| > 0
    && |w'.h.log[e]| - 1 == (if e < |w.h.log| then |w.h.log[e]| else 0)
    && w'.h.log[e][|w'.h.log[e]| - 1] == plaintext
    && message == Some(SentMessage(w'.h, e, |w'.h.log[e]| - 1))
    && w'.Of(who).st.sender.Some? && w'.Of(1 - who) == w.Of(1 - who)
  }

  /** What a party needs to be able to send: 32 random bytes for a new key, fewer than 2^32 messages in its epoch, and
   *  room for the message. */
  ghost predicate ReadyToSend(w: World, who: nat, plaintext: seq<byte>, newKey: nat, randomLength: nat, room: nat) {
    && WorldInv(w) && who < 2 && newKey !in w.h.keys && randomLength >= 32
    && w.Of(who).epoch < |w.h.log| && |w.h.log[w.Of(who).epoch]| + 1 < TWO32
    && room >= NormalLength(NextIndex(w.Of(who).st), 32, CbcLength(|plaintext|), 8)
  }

  lemma SendsOnChain(w: World, who: nat, plaintext: seq<byte>, newKey: nat, randomLength: nat, room: nat)
    requires ReadyToSend(w, who, plaintext, newKey, randomLength, room) && w.Of(who).st.sender.Some?
    requires PartyInv(w.h, who, w.Of(who)) && w.Of(who).st.Valid() && w.h.Valid()
    ensures Newest(w, Step(w, Encrypt(who, plaintext, newKey, randomLength, room)), who, plaintext,
                   Encrypted(w.Of(who).st, plaintext, newKey, randomLength, room).1)
  {
    hide WorldInv, PartyInv, Encrypted, NormalLength, CbcLength, SentMessage;
    var p := w.Of(who);
    EncryptsIff(p.st, plaintext, newKey, randomLength, room);
    EncryptOnChain(w.h, who, p, plaintext, newKey, randomLength, room);
    EncryptLeavesSender(p.st, plaintext, newKey, randomLength, room);
  }

  lemma SendsOnTurn(w: World, who: nat, plaintext: seq<byte>, newKey: nat, randomLength: nat, room: nat)
    requires ReadyToSend(w, who, plaintext, newKey, randomLength, room) && w.Of(who).st.sender.None?
    requires PartyInv(w.h, who, w.Of(who)) && w.Of(who).st.Valid() && w.h.Valid()
    ensures Newest(w, Step(w, Encrypt(who, plaintext, newKey, randomLength, room)), who, plaintext,
                   Encrypted(w.Of(who).st, plaintext, newKey, randomLength, room).1)
  {
    hide WorldInv, PartyInv, Encrypted, NormalLength, CbcLength, SentMessage;
    var p := w.Of(who);
    EncryptsIff(p.st, plaintext, newKey, randomLength, room);
    OtherParty(w, who);
    EncryptOnNewChain(w.h, who, p, plaintext, newKey, randomLength, room);
    EncryptLeavesSender(p.st, plaintext, newKey, randomLength, room);
  }

  /** In every state that can be reached either party can send, and what it sends is a new message of the history. */
  lemma CanAlwaysSend(w: World, who: nat, plaintext: seq<byte>, newKey: nat, randomLength: nat, room: nat)
    requires ReadyToSend(w, who, plaintext, newKey, randomLength, room)
    ensures w.Of(who).st.Valid() && Possible(w, Encrypt(who, plaintext, newKey, randomLength, room))
    ensures Encrypted(w.Of(who).st, plaintext, newKey, randomLength, room).1.Some?
    ensures Newest(w, Step(w, Encrypt(who, plaintext, newKey, randomLength, room)), who, plaintext,
                   Encrypted(w.Of(who).st, plaintext, newKey, randomLength, room).1)
  {
    hide WorldInv, PartyInv, Encrypted, NormalLength, CbcLength, Newest;
    PartyOf(w, who);
    PartyParts(w.h, who, w.Of(who));
    EncryptsIff(w.Of(who).st, plaintext, newKey, randomLength, room);
    if w.Of(who).st.sender.Some? {
      SendsOnChain(w, who, plaintext, newKey, randomLength, room);
    } else {
      SendsOnTurn(w, who, plaintext, newKey, randomLength, room);
    }
  }

  /** A party is never ahead of what was sent. */
  lemma NeverAhead(h: History, who: nat, p: Party, e: nat)
    requires PartyInv(h, who, p) && KeepsChain(p, e)
    ensures e < |h.log| && ChainOf(p, e).index <= |h.log[e]|
  {
    hide ShelfValid, Accounted, KeysAgree, ChainAt, RootAt, Iterate;
    assert ChainFor(h, p.Top() - 2 * ((p.Top() - e) / 2), p.st.receivers[(p.Top() - e) / 2]);
  }

  /** How many messages the peer would have to pass over to get to number i of epoch e. */
  ghost function Missing(peer: Party, e: nat, i: nat): int {
    if KeepsChain(peer, e) then i - ChainOf(peer, e).index else i
  }

  /** The peer reads what was just sent, unless more than 2000 messages before it are missing (or any, where the order
   *  is insisted on and the chain is known). */
  lemma WhatIsSentIsRead(w: World, who: nat, plaintext: seq<byte>, newKey: nat, randomLength: nat, room: nat,
                         room': nat, sequential: bool)
    requires ReadyToSend(w, who, plaintext, newKey, randomLength, room) && room' >= CbcLength(|plaintext|)
    ensures w.Of(who).st.Valid() && w.Of(1 - who).st.Valid()
    ensures Possible(w, Encrypt(who, plaintext, newKey, randomLength, room))
    ensures var message := Encrypted(w.Of(who).st, plaintext, newKey, randomLength, room).1;
      var peer := w.Of(1 - who);
      var e := Step(w, Encrypt(who, plaintext, newKey, randomLength, room)).Of(who).epoch;
      message.Some? && message.value.counter.Some? &&
      var missing := Missing(peer, e, message.value.counter.value);
      && missing >= 0
      && (missing <= 2000 && (sequential && KeepsChain(peer, e) ==> missing == 0)
          ==> Decrypted(peer.st, message.value, room', sequential).1 == Some(plaintext))
  {
    hide WorldInv, PartyInv, Encrypted, Decrypted, NormalLength, CbcLength, KeepsChain, ChainOf, MessageKey, Step;
    CanAlwaysSend(w, who, plaintext, newKey, randomLength, room);
    var a := Encrypt(who, plaintext, newKey, randomLength, room);
    StepKeeps(w, a);
    var w' := Step(w, a);
    var peer, e := w.Of(1 - who), w'.Of(who).epoch;
    var i := |w'.h.log[e]| - 1;
    PartyOf(w, 1 - who);
    PartyParts(w.h, 1 - who, peer);
    if KeepsChain(peer, e) {
      NeverAhead(w.h, 1 - who, peer, e);
    }
    var missing := Missing(peer, e, i);
    if missing <= 2000 && (sequential && KeepsChain(peer, e) ==> missing == 0) {
      NeverStuck(w', 1 - who, i, room', sequential);
    }
  }
}
