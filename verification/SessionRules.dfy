/** When a session can be set up, what it writes, and what decides between the two kinds of message
 *  (src/session.cpp). */
module SessionRules {
  import opened Words
  import opened Message
  import opened MessageCodec
  import opened MessageFormats
  import opened Accounts
  import opened DoubleRatchet
  import opened RatchetRules
  import opened Session

  // ----- setup -----

  /** The outbound side: 64 random bytes and a good signature are all it takes. The keys are recorded in either case;
   *  the secret is the first four bytes, or three, of that of our identity and their one-time key. */
  lemma OutboundIff(w: Wire, s: SessionState, identity: KeyPair, theirIdentity: seq<byte>, prekey: seq<byte>,
                    signatureGood: bool, oneTimeKey: Option<seq<byte>>, base: nat, ratchetKey: nat, randomLength: nat)
    requires w.Valid()
    ensures var (after, ok) := NewOutbound(w, s, identity, theirIdentity, prekey, signatureGood, oneTimeKey, base,
                                           ratchetKey, randomLength);
      var otk, n := if oneTimeKey.Some? then oneTimeKey.value else prekey, if oneTimeKey.Some? then 4 else 3;
      && (ok <==> randomLength >= 64 && signatureGood)
      && (randomLength < 64 ==> after == s.(lastError := NOT_ENOUGH_RANDOM))
      && (randomLength >= 64 ==> !after.received && after.keys == Keys(identity.public, w.pub(base), otk, prekey))
      && (randomLength >= 64 && !signatureGood ==> after.ratchet == s.ratchet && after.lastError == BAD_SIGNATURE)
      && (ok ==> && after.lastError == s.lastError
                 && after.ratchet == Some(InitialAlice(w.Secret(identity.private, otk)[..n], ratchetKey)))
  {
    var otk := if oneTimeKey.Some? then oneTimeKey.value else prekey;
    var three := [w.Secret(identity.private, otk), w.Secret(base, theirIdentity), w.Secret(base, otk)];
    PrefixLength(three, 3);
    PrefixLength(three + [w.Secret(base, prekey)], 4);
    hide Prefix, InitialAlice, Wire.Secret;
  }

  /** The fields of a pre-key message that setup asks for. */
  predicate FieldsGood(slots: Slots, haveTheirIdentity: bool) {
    && (haveTheirIdentity || StrSlot(slots, 0x1A).Some?)
    && (StrSlot(slots, 0x1A).Some? ==> |StrSlot(slots, 0x1A).value| == 32)
    && StrSlot(slots, 0x22).Some?
    && StrSlot(slots, 0x12).Some? && |StrSlot(slots, 0x12).value| == 32
    && StrSlot(slots, 0x0A).Some? && |StrSlot(slots, 0x0A).value| == 32
  }

  lemma FieldsMean(slots: Slots, haveTheirIdentity: bool)
    ensures CheckFields(slots, haveTheirIdentity) <==> FieldsGood(slots, haveTheirIdentity)
  {
  }

  /** The inbound side, on arbitrary bytes: what has to be there, and which error comes first. */
  lemma InboundIff(w: Wire, s: SessionState, account: Account, theirIdentity: Option<seq<byte>>, message: seq<byte>)
    requires w.Valid() && (CheckFields(SlotsOf(message), theirIdentity.Some?) ==> Loadable(message))
    ensures var (after, ok) := NewInbound(w, s, account, theirIdentity, message);
      var slots := Read(PRE_KEY, message, 0).1;
      && after.received == s.received
      && (!ok ==> after.ratchet == s.ratchet)
      && (!FieldsGood(slots, theirIdentity.Some?) ==> !ok && after == s.(lastError := BAD_MESSAGE_FORMAT))
      && (FieldsGood(slots, theirIdentity.Some?) ==>
            var alice, body := StrSlot(slots, 0x1A).value, ReadBody(w, StrSlot(slots, 0x22).value);
            var base, otk, prekey := StrSlot(slots, 0x12).value, StrSlot(slots, 0x0A).value, StrSlot(slots, 0x2A).value;
            var expected := theirIdentity.None? || theirIdentity.value == alice;
            var ratchetKey := body.ratchetKey.Some? && body.ratchetKeyLength == 32;
            var ours := (LookupKey(account, otk).Some? || otk == prekey) && LookupPrekey(account, prekey).Some?;
            && (ok <==> expected && ratchetKey && ours)
            && (!expected ==> after == s.(lastError := BAD_MESSAGE_KEY_ID))
            && (expected ==> after.keys == Keys(alice, base, otk, prekey))
            && (ok ==> after.lastError == s.lastError)
            && (expected && !ratchetKey ==> after.lastError == BAD_MESSAGE_FORMAT)
            && (expected && ratchetKey && !ours ==> after.lastError == BAD_MESSAGE_KEY_ID))
  {
    FieldsMean(SlotsOf(message), theirIdentity.Some?);
    if CheckFields(SlotsOf(message), theirIdentity.Some?) {
      KeysAre(SlotsOf(message), theirIdentity.Some?);
    }
    hide Read, StrSlot, ReadBody, LookupKey, LookupPrekey, InboundSecret, CheckFields, KeysOf, InitialBob;
  }

  lemma KeysAre(slots: Slots, have: bool)
    requires CheckFields(slots, have) && StrSlot(slots, IDENTITY_KEY_TAG).Some? && StrSlot(slots, PREKEY_TAG).Some?
    ensures KeysOf(slots) == Keys(StrSlot(slots, 0x1A).value, StrSlot(slots, 0x12).value, StrSlot(slots, 0x0A).value,
                                  StrSlot(slots, 0x2A).value)
  {
    hide StrSlot;
  }

  // ----- one step -----

  ghost predicate Ready(s: SessionState) { s.ratchet.Some? && s.ratchet.value.Valid() }

  /** A decryption sets the flag just when a plaintext comes out, and a failure leaves all but the errors alone. */
  lemma DecryptSetsFlag(w: Wire, s: SessionState, preKey: bool, message: seq<byte>, room: nat, sequential: bool)
    requires Ready(s)
    ensures var (after, plaintext) := Decrypt(w, s, preKey, message, room, sequential);
      && Ready(after) && after.keys == s.keys
      && (plaintext.Some? ==> after.received && after.lastError == s.lastError)
      && (plaintext.None? ==>
            && after.received == s.received
            && after.ratchet.value == s.ratchet.value.(lastError := after.ratchet.value.lastError))
  {
    hide Decrypted, ReadBody, BodyOf;
  }

  /** What is decrypted is the body: of a pre-key message its fourth field, else the message itself. */
  lemma DecryptsBody(w: Wire, s: SessionState, preKey: bool, message: seq<byte>, room: nat, sequential: bool)
    requires Ready(s)
    ensures var (after, plaintext) := Decrypt(w, s, preKey, message, room, sequential);
      var field := StrSlot(Read(PRE_KEY, message, 0).1, 0x22);
      && (preKey && field.None? ==> plaintext.None? && after == s.(lastError := BAD_MESSAGE_FORMAT))
      && (preKey ==> field.Some? ==>
            plaintext == Decrypted(s.ratchet.value, ReadBody(w, field.value), room, sequential).1)
      && (!preKey ==> plaintext == Decrypted(s.ratchet.value, ReadBody(w, message), room, sequential).1)
      && (plaintext.None? && (preKey ==> field.Some?) ==>
            && after.ratchet.value.lastError == SUCCESS
            && after.lastError == Decrypted(s.ratchet.value, ReadBody(w, if preKey then field.value else message), room,
                                            sequential).0.lastError)
  {
    hide Decrypted, ReadBody, Read, StrSlot;
  }

  /** How long a message is: the body, and before anything was received the four keys of 32 bytes in front of it. */
  function Needed(s: SessionState, plaintext: seq<byte>): nat
    requires s.ratchet.Some?
  {
    var body := NormalLength(NextIndex(s.ratchet.value), 32, CbcLength(|plaintext|), 8);
    if s.received then body else PreKeyLength(32, 32, 32, 32, body)
  }

  /** An encryption succeeds just when there is room and, for a party without a chain, randomness; it leaves flag and
   *  keys alone. */
  lemma EncryptsIffRoom(w: Wire, s: SessionState, plaintext: seq<byte>, newKey: nat, randomLength: nat, room: nat)
    requires w.Valid() && Ready(s)
    ensures var (after, message) := Encrypt(w, s, plaintext, newKey, randomLength, room);
      var random := s.ratchet.value.sender.Some? || randomLength >= 32;
      && Ready(after) && after.keys == s.keys && after.received == s.received
      && (message.Some? <==> room >= Needed(s, plaintext) && random)
      && (message.Some? ==> after.lastError == s.lastError)
      && (room < Needed(s, plaintext) ==> after == s.(lastError := OUTPUT_BUFFER_TOO_SMALL))
      && (room >= Needed(s, plaintext) && !random ==>
            after == s.(ratchet := Some(s.ratchet.value.(lastError := SUCCESS)), lastError := NOT_ENOUGH_RANDOM))
  {
    OutputLengthIs(s.ratchet.value, plaintext);
    EncryptsIff(s.ratchet.value, plaintext, newKey, randomLength, EncryptOutputLength(s.ratchet.value, plaintext));
    hide Encrypted, EncryptOutputLength, NormalLength, CbcLength, PreKeyLength, Body, PreKeyBytes, Parts;
  }

  lemma OutputLengthIs(st: State, plaintext: seq<byte>)
    ensures EncryptOutputLength(st, plaintext) == NormalLength(NextIndex(st), 32, CbcLength(|plaintext|), 8)
  {
    hide NormalLength, CbcLength;
  }

  /** The body stands alone once something was received, and behind the keys before. */
  ghost predicate Written(s: SessionState, plaintext: seq<byte>, received: bool, message: seq<byte>)
    requires s.ratchet.Some?
  {
    exists body: seq<byte> ::
      && |body| == NormalLength(NextIndex(s.ratchet.value), 32, CbcLength(|plaintext|), 8)
      && message == if received then body
                    else PreKeyBytes(3, PreKeyParts(s.keys.bobPrekey, s.keys.bobOneTime, s.keys.aliceBase,
                                                    s.keys.aliceIdentity, body))
  }

  lemma EncryptWrites(w: Wire, s: SessionState, plaintext: seq<byte>, newKey: nat, randomLength: nat, room: nat)
    requires w.Valid() && Ready(s) && CbcLength(|plaintext|) < TWO64
    requires Encrypt(w, s, plaintext, newKey, randomLength, room).1.Some?
    ensures Written(s, plaintext, s.received, Encrypt(w, s, plaintext, newKey, randomLength, room).1.value)
  {
    OutputLengthIs(s.ratchet.value, plaintext);
    BodyFits(w, s.ratchet.value, plaintext, newKey, randomLength);
    hide Encrypted, EncryptOutputLength, NormalLength, CbcLength, PreKeyLength, Body, PreKeyBytes;
    var m := Encrypted(s.ratchet.value, plaintext, newKey, randomLength,
                       EncryptOutputLength(s.ratchet.value, plaintext)).1;
    assert |Body(w, m.value)| == NormalLength(NextIndex(s.ratchet.value), 32, CbcLength(|plaintext|), 8);
  }

  // ----- runs -----

  /** What a program does with a session once it is set up. */
  datatype Action =
    | Send(plaintext: seq<byte>, newKey: nat, randomLength: nat, room: nat)
    | Receive(preKey: bool, message: seq<byte>, room: nat, sequential: bool)

  function Act(w: Wire, s: SessionState, a: Action): (r: (SessionState, Option<seq<byte>>))
    requires w.Valid() && s.ratchet.Some? && s.ratchet.value.Valid()
    ensures r.0.ratchet.Some? && r.0.ratchet.value.Valid()
  {
    match a
    case Send(plaintext, newKey, randomLength, room) =>
      EncryptsIffRoom(w, s, plaintext, newKey, randomLength, room);
      Encrypt(w, s, plaintext, newKey, randomLength, room)
    case Receive(preKey, message, room, sequential) =>
      DecryptSetsFlag(w, s, preKey, message, room, sequential);
      Decrypt(w, s, preKey, message, room, sequential)
  }

  /** The session after all of the actions. */
  function After(w: Wire, s: SessionState, actions: seq<Action>): (r: SessionState)
    requires w.Valid() && s.ratchet.Some? && s.ratchet.value.Valid()
    ensures r.ratchet.Some? && r.ratchet.value.Valid()
    decreases |actions|
  {
    if actions == [] then s
    else Act(w, After(w, s, actions[..|actions| - 1]), actions[|actions| - 1]).0
  }

  /** One of the actions was a decryption that gave a plaintext. */
  ghost predicate HasReceived(w: Wire, s: SessionState, actions: seq<Action>)
    requires w.Valid() && s.ratchet.Some? && s.ratchet.value.Valid()
  {
    exists k :: 0 <= k < |actions| && actions[k].Receive? && Act(w, After(w, s, actions[..k]), actions[k]).1.Some?
  }

  /** Over any run: the flag is set just when something was received, and the keys never change. */
  lemma {:induction false} FlagIffReceived(w: Wire, s: SessionState, actions: seq<Action>)
    requires w.Valid() && Ready(s)
    ensures After(w, s, actions).received <==> s.received || HasReceived(w, s, actions)
    ensures After(w, s, actions).keys == s.keys
    decreases |actions|
  {
    if actions != [] {
      var n := |actions| - 1;
      var before, last := actions[..n], actions[n];
      FlagIffReceived(w, s, before);
      var t := After(w, s, before);
      match last {
        case Send(plaintext, newKey, randomLength, room) =>
          EncryptsIffRoom(w, t, plaintext, newKey, randomLength, room);
        case Receive(preKey, message, room, sequential) =>
          DecryptSetsFlag(w, t, preKey, message, room, sequential);
      }
      hide Encrypt, Decrypt;
      ReceivedSplit(w, s, actions);
    }
  }

  lemma ReceivedSplit(w: Wire, s: SessionState, actions: seq<Action>)
    requires w.Valid() && Ready(s) && actions != []
    ensures var n := |actions| - 1;
      HasReceived(w, s, actions)
      <==> || HasReceived(w, s, actions[..n])
           || (actions[n].Receive? && Act(w, After(w, s, actions[..n]), actions[n]).1.Some?)
  {
    hide Act, After;
    var n := |actions| - 1;
    forall k | 0 <= k < n
      ensures actions[..n][..k] == actions[..k]
    {
    }
    if HasReceived(w, s, actions) {
      var k :| 0 <= k < |actions| && actions[k].Receive? && Act(w, After(w, s, actions[..k]), actions[k]).1.Some?;
      assert k < n ==> actions[..n][k] == actions[k] && actions[..n][..k] == actions[..k];
    }
    if HasReceived(w, s, actions[..n]) {
      var k :| 0 <= k < n && actions[..n][k].Receive?
        && Act(w, After(w, s, actions[..n][..k]), actions[..n][k]).1.Some?;
      assert actions[..n][k] == actions[k] && actions[..n][..k] == actions[..k];
    }
  }

  /** Whatever a fresh session does: until it has decrypted a message everything it writes is a pre-key message with
   *  its keys, and from then on the body alone. */
  lemma EveryMessageWritten(w: Wire, s: SessionState, actions: seq<Action>, k: nat)
    requires w.Valid() && Ready(s) && !s.received
    requires k < |actions| && actions[k].Send? && CbcLength(|actions[k].plaintext|) < TWO64
    requires Act(w, After(w, s, actions[..k]), actions[k]).1.Some?
    ensures var t := After(w, s, actions[..k]);
      && t.keys == s.keys
      && Written(t, actions[k].plaintext, HasReceived(w, s, actions[..k]), Act(w, t, actions[k]).1.value)
  {
    var t := After(w, s, actions[..k]);
    FlagIffReceived(w, s, actions[..k]);
    var Send(plaintext, newKey, randomLength, room) := actions[k];
    EncryptWrites(w, t, plaintext, newKey, randomLength, room);
    hide Written, Encrypt, Decrypt, HasReceived, After, CbcLength;
  }
}
