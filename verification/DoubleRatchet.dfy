/** The Double Ratchet (src/ratchet.cpp) of one party.
 *
 * Keys are terms: two derivations give the same key exactly when they are the same derivation
 * of the same inputs. A Diffie-Hellman secret is the unordered pair of its two private keys, and
 * a public key is named by its private key. A sealed plaintext opens under the one key it was
 * sealed with. */
module DoubleRatchet {
  import opened Words
  import opened BoundedList
  import opened MessageFormats

  const PROTOCOL_VERSION := 3
  const MAX_MESSAGE_GAP := 2000
  const MAX_RECEIVER_CHAINS := 5
  const MAX_SKIPPED_MESSAGE_KEYS := 40
  const KEY_LENGTH := 32
  const MAC_LENGTH := 8

  datatype Error =
    | SUCCESS
    | NOT_ENOUGH_RANDOM
    | OUTPUT_BUFFER_TOO_SMALL
    | BAD_MESSAGE_VERSION
    | BAD_MESSAGE_FORMAT
    | BAD_MESSAGE_MAC
    | MESSAGE_OUT_OF_ORDER
    | ALREADY_DECRYPTED_OR_KEYS_SKIPPED
    | MAX_MESSAGE_GAP_EXCEEDED
    | SENDER_CHAIN_NOT_ACKNOWLEDGED
    | BAD_MESSAGE_KEY_ID
    | BAD_SIGNATURE

  // ----- keys -----

  datatype Dh = Dh(low: nat, high: nat)

  function SharedSecret(ours: nat, theirs: nat): Dh {
    if ours <= theirs then Dh(ours, theirs) else Dh(theirs, ours)
  }

  /** Everything the KDFs derive. The two halves of one HKDF output are Root and Chain. */
  datatype Key =
    | InitialRoot(secret: seq<byte>)
    | InitialChain(secret: seq<byte>)
    | Root(root: Key, dh: Dh)
    | Chain(root: Key, dh: Dh)
    | Next(chain: Key)
    | ForMessage(chain: Key)

  function Iterate(chain: Key, n: nat): Key {
    if n == 0 then chain else Next(Iterate(chain, n - 1))
  }

  datatype ChainKey = ChainKey(index: u32, key: Key)
  datatype SenderChain = SenderChain(ratchetKey: nat, chain: ChainKey)
  datatype ReceiverChain = ReceiverChain(ratchetKey: nat, chain: ChainKey)
  datatype SkippedKey = SkippedKey(ratchetKey: nat, index: u32, key: Key)

  // ----- messages -----

  datatype Sealed = Sealed(key: Key, plaintext: seq<byte>)

  /** What decode_message makes of the input. */
  datatype Reader = Reader(version: byte, counter: Option<u32>, ratchetKey: Option<nat>,
                           ratchetKeyLength: nat, ciphertext: Option<Sealed>)

  function MessageOf(ratchetKey: nat, counter: u32, key: Key, plaintext: seq<byte>): Reader {
    Reader(PROTOCOL_VERSION, Some(counter), Some(ratchetKey), KEY_LENGTH, Some(Sealed(key, plaintext)))
  }

  // ----- the state of one party, and its two operations as functions -----

  datatype State = State(root: Key, sender: Option<SenderChain>, receivers: seq<ReceiverChain>,
                         skipped: seq<SkippedKey>, lastError: Error)
  {
    predicate Valid() {
      && |receivers| <= 5 && |skipped| <= 40
      && (sender.None? ==> receivers != [])
    }
  }

  function InitialAlice(secret: seq<byte>, ratchetKey: nat): State {
    State(InitialRoot(secret), Some(SenderChain(ratchetKey, ChainKey(0, InitialChain(secret)))), [], [], SUCCESS)
  }

  function InitialBob(secret: seq<byte>, theirRatchetKey: nat): State {
    State(InitialRoot(secret), None, [ReceiverChain(theirRatchetKey, ChainKey(0, InitialChain(secret)))], [], SUCCESS)
  }

  /** encrypt_output_length */
  function EncryptOutputLength(st: State, plaintext: seq<byte>): nat {
    var counter := if st.sender.Some? then st.sender.value.chain.index else 0;
    NormalLength(counter, KEY_LENGTH, CbcLength(|plaintext|), MAC_LENGTH)
  }

  /** encrypt_random_length */
  function EncryptRandomLength(st: State): nat {
    if st.sender.None? then 32 else 0
  }

  function WithSender(st: State, newKey: nat): (r: State)
    requires st.Valid()
    ensures r.Valid() && r.sender.Some?
  {
    if st.sender.Some? then st
    else
      var dh := SharedSecret(newKey, st.receivers[0].ratchetKey);
      st.(root := Root(st.root, dh), sender := Some(SenderChain(newKey, ChainKey(0, Chain(st.root, dh)))))
  }

  /** encrypt: the new state, and the message unless an argument check failed. */
  function Encrypted(st: State, plaintext: seq<byte>, newKey: nat, randomLength: nat, room: nat)
    : (r: (State, Option<Reader>))
    requires st.Valid()
    ensures r.0.Valid()
  {
    if randomLength < EncryptRandomLength(st) then (st.(lastError := NOT_ENOUGH_RANDOM), None)
    else if room < EncryptOutputLength(st, plaintext) then (st.(lastError := OUTPUT_BUFFER_TOO_SMALL), None)
    else
      var ready := WithSender(st, newKey);
      var SenderChain(ratchetKey, chain) := ready.sender.value;
      (ready.(sender := Some(SenderChain(ratchetKey, ChainKey(Wrap32(chain.index + 1), Next(chain.key))))),
       Some(MessageOf(ratchetKey, chain.index, ForMessage(chain.key), plaintext)))
  }

  /** The outcome of trying a key on a message. */
  datatype Attempt = Opened | Refused(error: Error) | BadMac

  function Try(key: Key, sealed: Sealed): Attempt {
    if sealed.key == key then Opened else BadMac
  }

  /** verify_mac_and_decrypt_for_existing_chain */
  function TryExisting(chain: ChainKey, counter: u32, sealed: Sealed): Attempt {
    if counter < chain.index then Refused(ALREADY_DECRYPTED_OR_KEYS_SKIPPED)
    else if counter - chain.index > MAX_MESSAGE_GAP then Refused(MAX_MESSAGE_GAP_EXCEEDED)
    else Try(ForMessage(Iterate(chain.key, counter - chain.index)), sealed)
  }

  /** verify_mac_and_decrypt_for_new_chain */
  function TryNew(st: State, ratchetKey: nat, counter: u32, sealed: Sealed): Attempt {
    if st.sender.None? then Refused(SENDER_CHAIN_NOT_ACKNOWLEDGED)
    else if counter > MAX_MESSAGE_GAP then Refused(MAX_MESSAGE_GAP_EXCEEDED)
    else
      var dh := SharedSecret(st.sender.value.ratchetKey, ratchetKey);
      TryExisting(ChainKey(0, Chain(st.root, dh)), counter, sealed)
  }

  /** The first receiver chain with this ratchet key, or the number of chains. */
  function FindChain(receivers: seq<ReceiverChain>, ratchetKey: nat): (i: nat)
    ensures i <= |receivers|
    ensures i < |receivers| ==> receivers[i].ratchetKey == ratchetKey
    ensures forall k :: 0 <= k < i ==> receivers[k].ratchetKey != ratchetKey
  {
    if receivers == [] || receivers[0].ratchetKey == ratchetKey then 0
    else 1 + FindChain(receivers[1..], ratchetKey)
  }

  predicate Fits(s: SkippedKey, ratchetKey: nat, counter: u32, sealed: Sealed) {
    s.index == counter && s.ratchetKey == ratchetKey && s.key == sealed.key
  }

  /** The first skipped key that is for this message and opens it, or the number of keys. */
  function FindSkipped(skipped: seq<SkippedKey>, ratchetKey: nat, counter: u32, sealed: Sealed): (i: nat)
    ensures i <= |skipped|
    ensures i < |skipped| ==> Fits(skipped[i], ratchetKey, counter, sealed)
    ensures forall k :: 0 <= k < i ==> !Fits(skipped[k], ratchetKey, counter, sealed)
  {
    if skipped == [] || Fits(skipped[0], ratchetKey, counter, sealed) then 0
    else 1 + FindSkipped(skipped[1..], ratchetKey, counter, sealed)
  }

  /** The skipped keys after the chain has moved n messages on without them. */
  function Store(skipped: seq<SkippedKey>, ratchetKey: nat, chain: ChainKey, n: nat): (r: seq<SkippedKey>)
    requires |skipped| <= MAX_SKIPPED_MESSAGE_KEYS && chain.index + n < TWO32
    ensures |r| <= MAX_SKIPPED_MESSAGE_KEYS
  {
    if n == 0 then skipped
    else Inserted(Store(skipped, ratchetKey, chain, n - 1), MAX_SKIPPED_MESSAGE_KEYS, 0,
                  SkippedKey(ratchetKey, chain.index + n - 1, ForMessage(Iterate(chain.key, n - 1))))
  }

  /** The state after a peer's new chain is accepted: their turn used up our sender chain. */
  function WithReceiver(st: State, ratchetKey: nat): (r: State)
    requires st.Valid() && st.sender.Some?
    ensures r.Valid() && r.receivers != [] && r.receivers[0].ratchetKey == ratchetKey
  {
    var dh := SharedSecret(st.sender.value.ratchetKey, ratchetKey);
    var chain := ReceiverChain(ratchetKey, ChainKey(0, Chain(st.root, dh)));
    st.(root := Root(st.root, dh), sender := None,
        receivers := Inserted(st.receivers, MAX_RECEIVER_CHAINS, 0, chain))
  }

  /** Move chain i just past the message, keeping the keys it passes over. */
  function PastMessage(st: State, i: nat, counter: u32): (r: State)
    requires st.Valid() && i < |st.receivers| && st.receivers[i].chain.index <= counter
    ensures r.Valid()
  {
    var ReceiverChain(ratchetKey, chain) := st.receivers[i];
    var n := counter - chain.index;
    st.(skipped := Store(st.skipped, ratchetKey, chain, n),
        receivers := st.receivers[i :=
          ReceiverChain(ratchetKey, ChainKey(Wrap32(counter + 1), Next(Iterate(chain.key, n))))])
  }

  function Failed(st: State, error: Error): (State, Option<seq<byte>>) {
    (st.(lastError := error), None)
  }

  /** A bad MAC does not overwrite an error that is already recorded. */
  function Rejected(st: State, attempt: Attempt): (State, Option<seq<byte>>)
    requires !attempt.Opened?
  {
    Failed(st, if attempt.Refused? then attempt.error
               else if st.lastError == SUCCESS then BAD_MESSAGE_MAC else st.lastError)
  }

  /** decrypt: the new state, and the plaintext on success. */
  function Decrypted(st: State, r: Reader, room: nat, sequential: bool): (out: (State, Option<seq<byte>>))
    requires st.Valid()
    ensures out.0.Valid()
    ensures out.1.None? ==> out.0 == st.(lastError := out.0.lastError)
  {
    if r.version != PROTOCOL_VERSION then Failed(st, BAD_MESSAGE_VERSION)
    else if r.counter.None? || r.ratchetKey.None? || r.ciphertext.None? then Failed(st, BAD_MESSAGE_FORMAT)
    else if room < CbcLength(|r.ciphertext.value.plaintext|) then Failed(st, OUTPUT_BUFFER_TOO_SMALL)
    else if r.ratchetKeyLength != KEY_LENGTH then Failed(st, BAD_MESSAGE_FORMAT)
    else DecryptedWellFormed(st, r.ratchetKey.value, r.counter.value, r.ciphertext.value, sequential)
  }

  function DecryptedWellFormed(st: State, ratchetKey: nat, counter: u32, sealed: Sealed, sequential: bool)
    : (out: (State, Option<seq<byte>>))
    requires st.Valid()
    ensures out.0.Valid()
    ensures out.1.None? ==> out.0 == st.(lastError := out.0.lastError)
  {
    var i := FindChain(st.receivers, ratchetKey);
    if i == |st.receivers| then
      var attempt := TryNew(st, ratchetKey, counter, sealed);
      if attempt.Opened? then (PastMessage(WithReceiver(st, ratchetKey), 0, counter), Some(sealed.plaintext))
      else Rejected(st, attempt)
    else if sequential && counter > st.receivers[i].chain.index then Failed(st, MESSAGE_OUT_OF_ORDER)
    else if st.receivers[i].chain.index > counter then
      var k := FindSkipped(st.skipped, ratchetKey, counter, sealed);
      if k < |st.skipped| then (st.(skipped := Erased(st.skipped, k)), Some(sealed.plaintext))
      else Failed(st, ALREADY_DECRYPTED_OR_KEYS_SKIPPED)
    else
      var attempt := TryExisting(st.receivers[i].chain, counter, sealed);
      if attempt.Opened? then (PastMessage(st, i, counter), Some(sealed.plaintext))
      else Rejected(st, attempt)
  }

  // ----- the ratchet object -----

  class Ratchet {
    var lastError: Error
    var rootKey: Key
    var senderChain: Option<SenderChain>
    var receiverChains: seq<ReceiverChain>
    var skippedMessageKeys: seq<SkippedKey>

    ghost function Value(): State
      reads this
    {
      State(rootKey, senderChain, receiverChains, skippedMessageKeys, lastError)
    }

    ghost predicate Valid()
      reads this
    {
      Value().Valid()
    }

    constructor InitialiseAsAlice(secret: seq<byte>, ratchetKey: nat)
      ensures Valid() && Value() == InitialAlice(secret, ratchetKey)
    {
      lastError := SUCCESS;
      receiverChains, skippedMessageKeys := [], [];
      rootKey := InitialRoot(secret);
      senderChain := Some(SenderChain(ratchetKey, ChainKey(0, InitialChain(secret))));
    }

    constructor InitialiseAsBob(secret: seq<byte>, theirRatchetKey: nat)
      ensures Valid() && Value() == InitialBob(secret, theirRatchetKey)
    {
      lastError := SUCCESS;
      senderChain, skippedMessageKeys := None, [];
      rootKey := InitialRoot(secret);
      receiverChains := [ReceiverChain(theirRatchetKey, ChainKey(0, InitialChain(secret)))];
    }

    method Encrypt(plaintext: seq<byte>, newKey: nat, randomLength: nat, room: nat) returns (message: Option<Reader>)
      requires Valid()
      modifies this
      ensures Valid() && (Value(), message) == Encrypted(old(Value()), plaintext, newKey, randomLength, room)
    {
      var counter := if senderChain.Some? then senderChain.value.chain.index else 0;
      var outputLength := NormalLength(counter, KEY_LENGTH, CbcLength(|plaintext|), MAC_LENGTH);
      if randomLength < (if senderChain.None? then 32 else 0) {
        lastError := NOT_ENOUGH_RANDOM;
        return None;
      }
      if room < outputLength {
        lastError := OUTPUT_BUFFER_TOO_SMALL;
        return None;
      }
      if senderChain.None? {
        var root', chain := CreateChainKey(rootKey, newKey, receiverChains[0].ratchetKey);
        rootKey := root';
        senderChain := Some(SenderChain(newKey, chain));
      }
      var SenderChain(ratchetKey, chain) := senderChain.value;
      var key := ForMessage(chain.key);
      var advanced := AdvanceChainKey(chain);
      senderChain := Some(SenderChain(ratchetKey, advanced));
      message := Some(MessageOf(ratchetKey, chain.index, key, plaintext));
    }

    static method CreateChainKey(root: Key, ours: nat, theirs: nat) returns (newRoot: Key, chain: ChainKey)
      ensures newRoot == Root(root, SharedSecret(ours, theirs))
      ensures chain == ChainKey(0, Chain(root, SharedSecret(ours, theirs)))
    {
      var secret := SharedSecret(ours, theirs);
      newRoot := Root(root, secret);
      chain := ChainKey(0, Chain(root, secret));
    }

    static method AdvanceChainKey(chain: ChainKey) returns (next: ChainKey)
      ensures next == ChainKey(Wrap32(chain.index + 1), Next(chain.key))
    {
      next := ChainKey(Wrap32(chain.index + 1), Next(chain.key));
    }

    /** verify_mac_and_decrypt_for_existing_chain: a copy of the chain is walked forward. */
    method TryExistingChain(chain: ChainKey, counter: u32, sealed: Sealed) returns (ok: bool)
      modifies this`lastError
      ensures var attempt := TryExisting(chain, counter, sealed);
              && (ok <==> attempt.Opened?)
              && (lastError == if attempt.Refused? then attempt.error else old(lastError))
    {
      if counter < chain.index {
        lastError := ALREADY_DECRYPTED_OR_KEYS_SKIPPED;
        return false;
      }
      if counter - chain.index > MAX_MESSAGE_GAP {
        lastError := MAX_MESSAGE_GAP_EXCEEDED;
        return false;
      }
      var newChain := chain;
      while newChain.index < counter
        invariant chain.index <= newChain.index <= counter
        invariant newChain.key == Iterate(chain.key, newChain.index - chain.index)
        invariant lastError == old(lastError)
        decreases counter - newChain.index
      {
        newChain := AdvanceChainKey(newChain);
      }
      ok := sealed.key == ForMessage(newChain.key);
    }

    /** verify_mac_and_decrypt_for_new_chain: the derived root key is thrown away. */
    method TryNewChain(ratchetKey: nat, counter: u32, sealed: Sealed) returns (ok: bool)
      modifies this`lastError
      ensures var attempt := TryNew(old(Value()), ratchetKey, counter, sealed);
              && (ok <==> attempt.Opened?)
              && (lastError == if attempt.Refused? then attempt.error else old(lastError))
    {
      if senderChain.None? {
        lastError := SENDER_CHAIN_NOT_ACKNOWLEDGED;
        return false;
      }
      if counter > MAX_MESSAGE_GAP {
        lastError := MAX_MESSAGE_GAP_EXCEEDED;
        return false;
      }
      var _, newChain := CreateChainKey(rootKey, senderChain.value.ratchetKey, ratchetKey);
      ok := TryExistingChain(newChain, counter, sealed);
    }

    /** The search loop of decrypt over the receiver chains. */
    method SearchChains(ratchetKey: nat) returns (i: nat)
      ensures i == FindChain(receiverChains, ratchetKey)
    {
      i := 0;
      while i < |receiverChains|
        invariant i <= |receiverChains|
        invariant i + FindChain(receiverChains[i..], ratchetKey) == FindChain(receiverChains, ratchetKey)
      {
        if receiverChains[i].ratchetKey == ratchetKey {
          return;
        }
        assert receiverChains[i..][1..] == receiverChains[i + 1..];
        i := i + 1;
      }
    }

    /** The search loop of decrypt over the skipped keys, trying each that is for this message. */
    method SearchSkipped(ratchetKey: nat, counter: u32, sealed: Sealed) returns (i: nat)
      ensures i == FindSkipped(skippedMessageKeys, ratchetKey, counter, sealed)
    {
      i := 0;
      while i < |skippedMessageKeys|
        invariant i <= |skippedMessageKeys|
        invariant i + FindSkipped(skippedMessageKeys[i..], ratchetKey, counter, sealed)
               == FindSkipped(skippedMessageKeys, ratchetKey, counter, sealed)
      {
        var skipped := skippedMessageKeys[i];
        if counter == skipped.index && skipped.ratchetKey == ratchetKey {
          if sealed.key == skipped.key {
            return;
          }
        }
        assert skippedMessageKeys[i..][1..] == skippedMessageKeys[i + 1..];
        i := i + 1;
      }
    }

    /** The closing loop of decrypt: store the keys passed over, then step past the message. */
    method MovePast(i: nat, counter: u32)
      requires Valid() && i < |receiverChains| && receiverChains[i].chain.index <= counter
      modifies this`receiverChains, this`skippedMessageKeys
      ensures Valid() && Value() == PastMessage(old(Value()), i, counter)
    {
      ghost var st := Value();
      ghost var ReceiverChain(ratchetKey, start) := receiverChains[i];
      while receiverChains[i].chain.index < counter
        invariant Valid() && |receiverChains| == |st.receivers|
        invariant start.index <= receiverChains[i].chain.index <= counter
        invariant var n := receiverChains[i].chain.index - start.index;
                  && receiverChains == st.receivers[i :=
                       ReceiverChain(ratchetKey, ChainKey(start.index + n, Iterate(start.key, n)))]
                  && skippedMessageKeys == Store(st.skipped, ratchetKey, start, n)
        decreases counter - receiverChains[i].chain.index
      {
        var chain := receiverChains[i];
        var key := SkippedKey(chain.ratchetKey, chain.chain.index, ForMessage(chain.chain.key));
        skippedMessageKeys := Inserted(skippedMessageKeys, MAX_SKIPPED_MESSAGE_KEYS, 0, key);
        var next := AdvanceChainKey(chain.chain);
        receiverChains := receiverChains[i := chain.(chain := next)];
      }
      var next := AdvanceChainKey(receiverChains[i].chain);
      receiverChains := receiverChains[i := receiverChains[i].(chain := next)];
    }

    method Decrypt(r: Reader, room: nat, sequential: bool) returns (plaintext: Option<seq<byte>>)
      requires Valid()
      modifies this
      ensures Valid() && (Value(), plaintext) == Decrypted(old(Value()), r, room, sequential)
    {
      plaintext := None;
      if r.version != PROTOCOL_VERSION {
        lastError := BAD_MESSAGE_VERSION;
        return;
      }
      if r.counter.None? || r.ratchetKey.None? || r.ciphertext.None? {
        lastError := BAD_MESSAGE_FORMAT;
        return;
      }
      var counter, ratchetKey, sealed := r.counter.value, r.ratchetKey.value, r.ciphertext.value;
      if room < CbcLength(|sealed.plaintext|) {
        lastError := OUTPUT_BUFFER_TOO_SMALL;
        return;
      }
      if r.ratchetKeyLength != KEY_LENGTH {
        lastError := BAD_MESSAGE_FORMAT;
        return;
      }
      var i := SearchChains(ratchetKey);
      var known := i < |receiverChains|;
      var ok := false;
      if !known {
        ok := TryNewChain(ratchetKey, counter, sealed);
      } else if sequential && counter > receiverChains[i].chain.index {
        lastError := MESSAGE_OUT_OF_ORDER;
        return;
      } else if receiverChains[i].chain.index > counter {
        var k := SearchSkipped(ratchetKey, counter, sealed);
        if k < |skippedMessageKeys| {
          skippedMessageKeys := Erased(skippedMessageKeys, k);
          return Some(sealed.plaintext);
        }
        lastError := ALREADY_DECRYPTED_OR_KEYS_SKIPPED;
      } else {
        ok := TryExistingChain(receiverChains[i].chain, counter, sealed);
      }
      if !ok {
        if lastError == SUCCESS {
          lastError := BAD_MESSAGE_MAC;
        }
        return;
      }
      if !known {
        var root', chain := CreateChainKey(rootKey, senderChain.value.ratchetKey, ratchetKey);
        receiverChains := Inserted(receiverChains, MAX_RECEIVER_CHAINS, 0, ReceiverChain(ratchetKey, chain));
        rootKey := root';
        senderChain := None;
        i := 0;
      }
      MovePast(i, counter);
      plaintext := Some(sealed.plaintext);
    }
  }
}
