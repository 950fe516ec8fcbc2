/** Sessions (src/session.cpp) on top of the ratchet, the message formats and the account. Messages
 *  are bytes; what the primitives make of them is a parameter. */
module Session {
  import opened Words
  import opened Message
  import opened MessageCodec
  import opened MessageFormats
  import opened BoundedList
  import opened Accounts
  import opened DoubleRatchet
  import opened Pickle

  // ----- the primitives as parameters -----

  /** A public key by its private key and back, the bytes of a shared secret, a ciphertext by what it
   *  seals and back, and the MAC of a message. Only the lengths are laws for all arguments: there are more
   *  private keys and plaintexts here than byte strings. The way back is asked for of the keys and
   *  ciphertexts that a statement is about. */
  datatype Wire = Wire(pub: nat -> seq<byte>, name: seq<byte> -> nat, shared: Dh -> seq<byte>,
                       seal: Sealed -> seq<byte>, open: seq<byte> -> Sealed, mac: Reader -> seq<byte>)
  {
    ghost predicate Valid() {
      && (forall k: nat :: |pub(k)| == KEY_LENGTH)
      && (forall d: Dh :: |shared(d)| == 32)
      && (forall s: Sealed :: |seal(s)| == CbcLength(|s.plaintext|))
      && (forall m: Reader :: |mac(m)| == MAC_LENGTH)
    }

    /** This private key is told from its public key. */
    ghost predicate Names(k: nat) { name(pub(k)) == k }

    /** This ciphertext opens to what was sealed. */
    ghost predicate Opens(s: Sealed) { open(seal(s)) == s }

    /** _olm_crypto_curve25519_shared_secret */
    function Secret(ours: nat, theirs: seq<byte>): seq<byte> {
      shared(SharedSecret(ours, name(theirs)))
    }
  }

  // ----- such primitives exist -----

  function PlaceOf(seals: seq<Sealed>, s: Sealed): (i: nat)
    ensures i <= |seals|
    ensures s in seals ==> i < |seals| && seals[i] == s
  {
    if seals == [] || seals[0] == s then 0 else 1 + PlaceOf(seals[1..], s)
  }

  function SealedAt(seals: seq<Sealed>, i: nat): Sealed {
    if i < |seals| then seals[i] else Sealed(InitialRoot([]), [])
  }

  /** Public keys that spell out the private key, ciphertexts that spell out a place in a list. */
  function WireFor(seals: seq<Sealed>): Wire {
    Wire((k: nat) => BigEndian(KEY_LENGTH, k), (b: seq<byte>) => FromBigEndian(b),
         (d: Dh) => BigEndian(32, d.low + d.high),
         (s: Sealed) => BigEndian(CbcLength(|s.plaintext|), PlaceOf(seals, s)),
         (b: seq<byte>) => SealedAt(seals, FromBigEndian(b)), (m: Reader) => BigEndian(MAC_LENGTH, 0))
  }

  lemma {:induction false} LimitGrows(m: nat, n: nat)
    requires m <= n
    ensures Limit(m) <= Limit(n)
  {
    if m < n {
      LimitGrows(m, n - 1);
    }
  }

  /** The laws of a Wire can all be met, for every 32-byte private key and any list of up to 2^128
   *  ciphertexts. */
  lemma WireExists(seals: seq<Sealed>)
    requires |seals| <= Limit(16)
    ensures WireFor(seals).Valid()
    ensures forall k: nat :: k < Limit(KEY_LENGTH) ==> WireFor(seals).Names(k)
    ensures forall s :: s in seals ==> WireFor(seals).Opens(s)
  {
    hide BigEndian, FromBigEndian, Limit;
    forall k: nat | k < Limit(KEY_LENGTH)
      ensures WireFor(seals).Names(k)
    {
      NumberRoundTrip(KEY_LENGTH, k);
    }
    forall s | s in seals
      ensures WireFor(seals).Opens(s)
    {
      LimitGrows(16, CbcLength(|s.plaintext|));
      NumberRoundTrip(CbcLength(|s.plaintext|), PlaceOf(seals, s));
    }
  }

  // ----- message bodies as bytes -----

  /** What ratchet.encrypt writes for a message. */
  function Body(w: Wire, m: Reader): seq<byte>
    requires m.counter.Some? && m.ratchetKey.Some? && m.ciphertext.Some?
  {
    NormalBytes(m.version, w.pub(m.ratchetKey.value), m.counter.value, w.seal(m.ciphertext.value)) + w.mac(m)
  }

  /** What decode_message makes of the bytes. */
  function ReadBody(w: Wire, body: seq<byte>): Reader {
    var (version, slots) := Read(NORMAL, body, MAC_LENGTH);
    var key := StrSlot(slots, RATCHET_KEY_TAG);
    Reader(version, NumSlot(slots, COUNTER_TAG), if key.Some? then Some(w.name(key.value)) else None,
           if key.Some? then |key.value| else 0,
           if StrSlot(slots, CIPHERTEXT_TAG).Some? then Some(w.open(StrSlot(slots, CIPHERTEXT_TAG).value)) else None)
  }

  function StrSlot(slots: Slots, tag: byte): Option<seq<byte>> {
    if tag in slots && slots[tag].Str? then Some(slots[tag].s) else None
  }

  function NumSlot(slots: Slots, tag: byte): Option<u32> {
    if tag in slots && slots[tag].Num? then Some(slots[tag].n) else None
  }

  lemma BodyRoundTrip(w: Wire, ratchetKey: nat, counter: u32, key: Key, plaintext: seq<byte>)
    requires w.Valid() && CbcLength(|plaintext|) < TWO64
    requires w.Names(ratchetKey) && w.Opens(Sealed(key, plaintext))
    ensures var m := MessageOf(ratchetKey, counter, key, plaintext);
      ReadBody(w, Body(w, m)) == m
  {
    var m := MessageOf(ratchetKey, counter, key, plaintext);
    NormalRoundTrip(PROTOCOL_VERSION, w.pub(ratchetKey), counter, w.seal(m.ciphertext.value), w.mac(m));
    hide NormalBytes, Read;
  }

  lemma BodyLength(w: Wire, ratchetKey: nat, counter: u32, key: Key, plaintext: seq<byte>)
    requires w.Valid() && CbcLength(|plaintext|) < TWO64
    ensures |Body(w, MessageOf(ratchetKey, counter, key, plaintext))|
         == NormalLength(counter, KEY_LENGTH, CbcLength(|plaintext|), MAC_LENGTH)
  {
    var m := MessageOf(ratchetKey, counter, key, plaintext);
    NormalLengthExact(PROTOCOL_VERSION, w.pub(ratchetKey), counter, w.seal(m.ciphertext.value), w.mac(m));
    hide NormalBytes, NormalLength;
  }

  // ----- a session -----

  /** The four keys a session remembers, named from Alice's and Bob's side. */
  datatype Keys = Keys(aliceIdentity: seq<byte>, aliceBase: seq<byte>, bobOneTime: seq<byte>, bobPrekey: seq<byte>)

  /** The ratchet is there once the session has been set up. */
  datatype SessionState = SessionState(received: bool, keys: Keys, ratchet: Option<State>, lastError: Error)

  function Failing(s: SessionState, error: Error): (SessionState, bool) { (s.(lastError := error), false) }

  // ----- new_outbound_session -----

  /** Three or four shared secrets end to end, of which the first `steps` bytes are used. */
  function Prefix(secrets: seq<seq<byte>>, steps: nat): seq<byte>
    requires |secrets| >= 3 && steps <= 4 && |secrets[0]| == 32
  {
    (secrets[0] + secrets[1] + secrets[2] + if |secrets| > 3 then secrets[3] else [])[..steps]
  }

  function OutboundSecret(w: Wire, identity: KeyPair, base: nat, theirIdentity: seq<byte>, prekey: seq<byte>,
                          oneTimeKey: Option<seq<byte>>): seq<byte>
    requires forall d: Dh :: |w.shared(d)| == 32
  {
    var otk := if oneTimeKey.Some? then oneTimeKey.value else prekey;
    var three := [w.Secret(identity.private, otk), w.Secret(base, theirIdentity), w.Secret(base, otk)];
    if oneTimeKey.Some? then Prefix(three + [w.Secret(base, prekey)], 4) else Prefix(three, 3)
  }

  /** base and ratchetKey are the private keys made from the random bytes. The keys stay recorded
   *  when the signature turns out to be bad. */
  function NewOutbound(w: Wire, s: SessionState, identity: KeyPair, theirIdentity: seq<byte>, prekey: seq<byte>,
                       signatureGood: bool, oneTimeKey: Option<seq<byte>>, base: nat, ratchetKey: nat,
                       randomLength: nat): (SessionState, bool)
    requires w.Valid()
  {
    if randomLength < 64 then Failing(s, NOT_ENOUGH_RANDOM)
    else
      var keys := Keys(identity.public, w.pub(base), if oneTimeKey.Some? then oneTimeKey.value else prekey, prekey);
      var s' := s.(received := false, keys := keys);
      if !signatureGood then Failing(s', BAD_SIGNATURE)
      else
        var secret := OutboundSecret(w, identity, base, theirIdentity, prekey, oneTimeKey);
        (s'.(ratchet := Some(InitialAlice(secret, ratchetKey))), true)
  }

  // ----- new_inbound_session -----

  function SlotsOf(message: seq<byte>): Slots { Read(PRE_KEY, message, 0).1 }

  function LengthOk(slot: Option<seq<byte>>): bool { slot.Some? && |slot.value| == KEY_LENGTH }

  /** check_message_fields */
  function CheckFields(slots: Slots, haveTheirIdentity: bool): bool {
    var identity := StrSlot(slots, IDENTITY_KEY_TAG);
    && (haveTheirIdentity || identity.Some?)
    && (identity.Some? ==> |identity.value| == KEY_LENGTH)
    && StrSlot(slots, MESSAGE_TAG).Some?
    && LengthOk(StrSlot(slots, BASE_KEY_TAG))
    && LengthOk(StrSlot(slots, ONE_TIME_KEY_TAG))
  }

  /** new_inbound_session copies these two keys without looking whether they are there. */
  ghost predicate Loadable(message: seq<byte>) {
    && LengthOk(StrSlot(SlotsOf(message), IDENTITY_KEY_TAG))
    && LengthOk(StrSlot(SlotsOf(message), PREKEY_TAG))
  }

  function KeysOf(slots: Slots): Keys
    requires CheckFields(slots, false) && StrSlot(slots, PREKEY_TAG).Some?
  {
    Keys(StrSlot(slots, IDENTITY_KEY_TAG).value, StrSlot(slots, BASE_KEY_TAG).value,
         StrSlot(slots, ONE_TIME_KEY_TAG).value, StrSlot(slots, PREKEY_TAG).value)
  }

  function InboundSecret(w: Wire, identity: KeyPair, oneTime: nat, prekey: nat, keys: Keys): seq<byte>
    requires forall d: Dh :: |w.shared(d)| == 32
  {
    var three := [w.Secret(oneTime, keys.aliceIdentity), w.Secret(identity.private, keys.aliceBase),
                  w.Secret(oneTime, keys.aliceBase)];
    if keys.bobPrekey == keys.bobOneTime then Prefix(three, 3)
    else Prefix(three + [w.Secret(prekey, keys.aliceBase)], 4)
  }

  function NewInbound(w: Wire, s: SessionState, account: Account, theirIdentity: Option<seq<byte>>,
                      message: seq<byte>): (SessionState, bool)
    requires w.Valid() && (CheckFields(SlotsOf(message), theirIdentity.Some?) ==> Loadable(message))
  {
    var slots := SlotsOf(message);
    if !CheckFields(slots, theirIdentity.Some?) then Failing(s, BAD_MESSAGE_FORMAT)
    else if theirIdentity.Some? && theirIdentity.value != StrSlot(slots, IDENTITY_KEY_TAG).value
      then Failing(s, BAD_MESSAGE_KEY_ID)
    else WithKeys(w, s.(keys := KeysOf(slots)), account, StrSlot(slots, MESSAGE_TAG).value)
  }

  /** The second half: the keys are recorded, the account's own keys are looked up. */
  function WithKeys(w: Wire, s: SessionState, account: Account, body: seq<byte>): (SessionState, bool)
    requires w.Valid()
  {
    var reader := ReadBody(w, body);
    var oneTime := LookupKey(account, s.keys.bobOneTime);
    var prekeyAsOneTime := s.keys.bobPrekey == s.keys.bobOneTime;
    var prekey := LookupPrekey(account, s.keys.bobPrekey);
    if reader.ratchetKey.None? || reader.ratchetKeyLength != KEY_LENGTH then Failing(s, BAD_MESSAGE_FORMAT)
    else if oneTime.None? && !prekeyAsOneTime then Failing(s, BAD_MESSAGE_KEY_ID)
    else if prekey.None? then Failing(s, BAD_MESSAGE_KEY_ID)
    else
      var ours := if prekeyAsOneTime then prekey.value.key.private else oneTime.value.key.private;
      var secret := InboundSecret(w, account.identity, ours, prekey.value.key.private, s.keys);
      (s.(ratchet := Some(InitialBob(secret, reader.ratchetKey.value))), true)
  }

  // ----- matches_inbound_session -----

  function Matches(s: SessionState, theirIdentity: Option<seq<byte>>, message: seq<byte>): bool {
    var slots := SlotsOf(message);
    var identity := StrSlot(slots, IDENTITY_KEY_TAG);
    && CheckFields(slots, theirIdentity.Some?)
    && (identity.Some? ==> identity.value == s.keys.aliceIdentity)
    && (theirIdentity.Some? ==> theirIdentity.value == s.keys.aliceIdentity)
    && StrSlot(slots, BASE_KEY_TAG).value == s.keys.aliceBase
    && StrSlot(slots, ONE_TIME_KEY_TAG).value == s.keys.bobOneTime
  }

  // ----- encrypt and decrypt -----

  function Parts(keys: Keys, body: seq<byte>): PreKeyParts {
    PreKeyParts(keys.bobPrekey, keys.bobOneTime, keys.aliceBase, keys.aliceIdentity, body)
  }

  /** encrypt_message_length */
  function MessageLength(s: SessionState, plaintext: seq<byte>): nat
    requires s.ratchet.Some?
  {
    var body := EncryptOutputLength(s.ratchet.value, plaintext);
    if s.received then body else PreKeyLength(KEY_LENGTH, KEY_LENGTH, KEY_LENGTH, KEY_LENGTH, body)
  }

  function Encrypt(w: Wire, s: SessionState, plaintext: seq<byte>, newKey: nat, randomLength: nat, room: nat)
    : (SessionState, Option<seq<byte>>)
    requires w.Valid() && s.ratchet.Some? && s.ratchet.value.Valid()
  {
    if room < MessageLength(s, plaintext) then (s.(lastError := OUTPUT_BUFFER_TOO_SMALL), None)
    else
      var (st, m) := Encrypted(s.ratchet.value, plaintext, newKey, randomLength,
                               EncryptOutputLength(s.ratchet.value, plaintext));
      if m.None? then (s.(ratchet := Some(st.(lastError := SUCCESS)), lastError := st.lastError), None)
      else
        var body := Body(w, m.value);
        (s.(ratchet := Some(st)), Some(if s.received then body else PreKeyBytes(PROTOCOL_VERSION, Parts(s.keys, body))))
  }

  /** The two kinds of message decrypt is told apart by its caller. */
  function BodyOf(preKey: bool, message: seq<byte>): Option<seq<byte>> {
    if preKey then StrSlot(SlotsOf(message), MESSAGE_TAG) else Some(message)
  }

  function Decrypt(w: Wire, s: SessionState, preKey: bool, message: seq<byte>, room: nat, sequential: bool)
    : (SessionState, Option<seq<byte>>)
    requires s.ratchet.Some? && s.ratchet.value.Valid()
  {
    var body := BodyOf(preKey, message);
    if body.None? then (s.(lastError := BAD_MESSAGE_FORMAT), None)
    else
      var (st, plaintext) := Decrypted(s.ratchet.value, ReadBody(w, body.value), room, sequential);
      if plaintext.None? then (s.(ratchet := Some(st.(lastError := SUCCESS)), lastError := st.lastError), None)
      else (s.(ratchet := Some(st), received := true), plaintext)
  }

  // ----- both sides derive the same secret -----

  /** Each side's own keys are proper, and the keys Alice was given for Bob are Bob's. */
  lemma SecretsMatch(w: Wire, ours: nat, theirs: nat)
    requires w.Names(ours) && w.Names(theirs)
    ensures w.Secret(ours, w.pub(theirs)) == w.Secret(theirs, w.pub(ours))
  {
  }

  /** The first secret alone decides, as only its first three or four bytes are used. */
  lemma PrefixLength(secrets: seq<seq<byte>>, steps: nat)
    requires |secrets| >= 3 && steps <= 4 && |secrets[0]| == 32
    ensures |Prefix(secrets, steps)| == steps && Prefix(secrets, steps) == secrets[0][..steps]
  {
  }

  /** Alice's and Bob's secrets are the same unless Alice was given the prekey as a one-time key. */
  lemma SecretsAgreeIff(w: Wire, a: nat, base: nat, i: nat, p: nat, oneTime: Option<nat>)
    requires w.Valid() && w.Names(a) && w.Names(base) && w.Names(i) && w.Names(p)
    requires oneTime.Some? ==> w.Names(oneTime.value)
    ensures
      var otk := if oneTime.Some? then oneTime.value else p;
      var keys := Keys(w.pub(a), w.pub(base), w.pub(otk), w.pub(p));
      var given := if oneTime.Some? then Some(w.pub(oneTime.value)) else None;
      OutboundSecret(w, KeyPair(w.pub(a), a), base, w.pub(i), w.pub(p), given)
        == InboundSecret(w, KeyPair(w.pub(i), i), otk, p, keys)
      <==> oneTime != Some(p)
  {
    var otk := if oneTime.Some? then oneTime.value else p;
    SecretsMatch(w, a, otk);
    assert w.pub(p) == w.pub(otk) <==> p == otk by {
      assert w.name(w.pub(p)) == p && w.name(w.pub(otk)) == otk;
    }
    var alice := [w.Secret(a, w.pub(otk)), w.Secret(base, w.pub(i)), w.Secret(base, w.pub(otk))];
    var bob := [w.Secret(otk, w.pub(a)), w.Secret(i, w.pub(base)), w.Secret(otk, w.pub(base))];
    PrefixLength(alice, 3);
    PrefixLength(bob, 3);
    PrefixLength(alice + [w.Secret(base, w.pub(p))], 4);
    PrefixLength(bob + [w.Secret(p, w.pub(base))], 4);
    hide Prefix;
  }

  // ----- pre-key messages carry the keys of the session -----

  ghost predicate KeysSized(keys: Keys) {
    && |keys.aliceIdentity| == KEY_LENGTH && |keys.aliceBase| == KEY_LENGTH
    && |keys.bobOneTime| == KEY_LENGTH && |keys.bobPrekey| == KEY_LENGTH
  }

  lemma SlotsOfPreKey(keys: Keys, body: seq<byte>)
    requires KeysSized(keys) && |body| < TWO64
    ensures var slots := SlotsOf(PreKeyBytes(PROTOCOL_VERSION, Parts(keys, body)));
      && StrSlot(slots, PREKEY_TAG) == Some(keys.bobPrekey) && StrSlot(slots, ONE_TIME_KEY_TAG) == Some(keys.bobOneTime)
      && StrSlot(slots, BASE_KEY_TAG) == Some(keys.aliceBase)
      && StrSlot(slots, IDENTITY_KEY_TAG) == Some(keys.aliceIdentity)
      && StrSlot(slots, MESSAGE_TAG) == Some(body)
  {
    PreKeyRoundTrip(PROTOCOL_VERSION, Parts(keys, body));
    hide PreKeyBytes, Read;
  }

  /** Whose message it is: the identity in it, or the one expected; none if the two are not the same. */
  function SenderOf(slots: Slots, theirIdentity: Option<seq<byte>>): Option<seq<byte>> {
    var identity := StrSlot(slots, IDENTITY_KEY_TAG);
    if identity.None? then theirIdentity
    else if theirIdentity.None? || theirIdentity == identity then identity
    else None
  }

  /** A session matches arbitrary bytes just when the fields are good, and sender, base key and one-time key
   *  are those of the session. */
  lemma MatchesIff(s: SessionState, theirIdentity: Option<seq<byte>>, message: seq<byte>)
    ensures var slots := SlotsOf(message);
      Matches(s, theirIdentity, message)
      <==> && CheckFields(slots, theirIdentity.Some?) && SenderOf(slots, theirIdentity) == Some(s.keys.aliceIdentity)
           && StrSlot(slots, BASE_KEY_TAG) == Some(s.keys.aliceBase)
           && StrSlot(slots, ONE_TIME_KEY_TAG) == Some(s.keys.bobOneTime)
  {
    hide SlotsOf, StrSlot;
  }

  /** Of the sessions there are, a message that one matches is matched by just those with the same identity,
   *  base and one-time key. The prekey plays no part. */
  lemma MatchesSame(s: SessionState, t: SessionState, theirIdentity: Option<seq<byte>>, message: seq<byte>)
    requires Matches(s, theirIdentity, message)
    ensures Matches(t, theirIdentity, message)
      <==> && t.keys.aliceIdentity == s.keys.aliceIdentity && t.keys.aliceBase == s.keys.aliceBase
           && t.keys.bobOneTime == s.keys.bobOneTime
  {
    MatchesIff(s, theirIdentity, message);
    MatchesIff(t, theirIdentity, message);
    hide Matches, SlotsOf, StrSlot;
  }

  /** So it is for the messages that sessions write. */
  lemma MatchesWritten(s: SessionState, theirIdentity: Option<seq<byte>>, keys: Keys, body: seq<byte>)
    requires KeysSized(keys) && |body| < TWO64
    ensures Matches(s, theirIdentity, PreKeyBytes(PROTOCOL_VERSION, Parts(keys, body)))
      <==> && keys.aliceIdentity == s.keys.aliceIdentity && keys.aliceBase == s.keys.aliceBase
           && keys.bobOneTime == s.keys.bobOneTime
           && (theirIdentity.Some? ==> theirIdentity.value == s.keys.aliceIdentity)
  {
    SlotsOfPreKey(keys, body);
    hide PreKeyBytes, SlotsOf, StrSlot;
  }

  /** Whatever else has happened to Alice's session, as long as it sends pre-key messages they match
   *  every session with the same keys. */
  lemma PreKeyMessagesMatch(w: Wire, alice: SessionState, bob: SessionState, theirIdentity: Option<seq<byte>>,
                            plaintext: seq<byte>, newKey: nat, randomLength: nat, room: nat)
    requires w.Valid() && alice.ratchet.Some? && alice.ratchet.value.Valid() && !alice.received
    requires KeysSized(alice.keys) && bob.keys == alice.keys && CbcLength(|plaintext|) + 0x1000 < TWO64
    requires theirIdentity.Some? ==> theirIdentity.value == alice.keys.aliceIdentity
    ensures var (alice', message) := Encrypt(w, alice, plaintext, newKey, randomLength, room);
      && alice'.keys == alice.keys && alice'.received == alice.received
      && (message.Some? ==> Matches(bob, theirIdentity, message.value))
  {
    hide Matches, PreKeyBytes, EncryptOutputLength, MessageLength, Parts, Body;
    var st := alice.ratchet.value;
    var m := Encrypted(st, plaintext, newKey, randomLength, EncryptOutputLength(st, plaintext)).1;
    EncryptedShape(st, plaintext, newKey, randomLength, EncryptOutputLength(st, plaintext));
    if m.Some? {
      BodySize(w, m.value.ratchetKey.value, m.value.counter.value, m.value.ciphertext.value.key, plaintext);
      MatchesWritten(bob, theirIdentity, alice.keys, Body(w, m.value));
    }
  }

  lemma EncryptedShape(st: State, plaintext: seq<byte>, newKey: nat, randomLength: nat, room: nat)
    requires st.Valid()
    ensures var m := Encrypted(st, plaintext, newKey, randomLength, room).1;
      m.Some? ==> && m.value.ratchetKey.Some? && m.value.counter.Some? && m.value.ciphertext.Some?
                  && m.value == MessageOf(m.value.ratchetKey.value, m.value.counter.value, m.value.ciphertext.value.key,
                                          plaintext)
  {
  }

  lemma BodySize(w: Wire, ratchetKey: nat, counter: u32, key: Key, plaintext: seq<byte>)
    requires w.Valid() && CbcLength(|plaintext|) + 0x1000 < TWO64
    ensures |Body(w, MessageOf(ratchetKey, counter, key, plaintext))| < TWO64
  {
    BodyLength(w, ratchetKey, counter, key, plaintext);
    VarintAtMost10(CbcLength(|plaintext|));
    VarintAtMost10(counter);
    VarintAtMost10(KEY_LENGTH);
    hide Body, VarintLength;
  }

  function Pow128(k: nat): nat { if k == 0 then 1 else 128 * Pow128(k - 1) }

  lemma {:induction false} VarintBelow(n: nat, k: nat)
    requires k > 0 && n < Pow128(k)
    ensures VarintLength(n) <= k
  {
    if n >= 128 && k > 1 {
      VarintBelow(n / 128, k - 1);
    } else {
      assert Pow128(1) == 128;
    }
  }

  lemma VarintAtMost10(n: nat)
    requires n < TWO64
    ensures VarintLength(n) <= 10
  {
    assert Pow128(3) == 0x20_0000;
    assert Pow128(6) == 0x400_0000_0000;
    assert Pow128(8) == 0x100_0000_0000_0000;
    assert Pow128(10) > TWO64;
    VarintBelow(n, 10);
  }

  // ----- the first message -----

  ghost predicate HoldsKeys(w: Wire, account: Account, i: nat, p: nat, oneTime: Option<nat>) {
    && account.identity == KeyPair(w.pub(i), i)
    && (LookupPrekey(account, w.pub(p)).Some? && LookupPrekey(account, w.pub(p)).value.key == KeyPair(w.pub(p), p))
    && (oneTime.Some? && oneTime != Some(p) ==> HoldsOneTime(account, KeyPair(w.pub(oneTime.value), oneTime.value)))
  }

  /** A one-time key that is the prekey itself need not be among the one-time keys. */
  ghost predicate HoldsOneTime(account: Account, pair: KeyPair) {
    LookupKey(account, pair.public).Some? && LookupKey(account, pair.public).value.key == pair
  }

  /** An account with a prekey and nothing else. */
  function PlainAccount(w: Wire, i: nat, p: nat): Account {
    var prekey := OneTimeKey(1, true, KeyPair(w.pub(p), p));
    Account(KeyPair(w.pub(i), i), [], 0, 0, prekey, prekey, 1, prekey, prekey, 1)
  }

  lemma PlainAccountHolds(w: Wire, i: nat, p: nat)
    ensures HoldsKeys(w, PlainAccount(w, i, p), i, p, None) && HoldsKeys(w, PlainAccount(w, i, p), i, p, Some(p))
  {
  }

  function Public(w: Wire, key: Option<nat>): Option<seq<byte>> {
    if key.Some? then Some(w.pub(key.value)) else None
  }

  /** Alice's session after new_outbound_session with Bob's keys i, p and, maybe, a one-time key. */
  function AliceSession(w: Wire, s: SessionState, a: nat, base: nat, ratchetKey: nat, i: nat, p: nat,
                        oneTime: Option<nat>)
    : SessionState
    requires w.Valid()
  {
    NewOutbound(w, s, KeyPair(w.pub(a), a), w.pub(i), w.pub(p), true, Public(w, oneTime), base, ratchetKey, 64).0
  }

  /** What Alice's first message is. */
  lemma FirstEncrypted(w: Wire, alice: SessionState, secret: seq<byte>, ratchetKey: nat, plaintext: seq<byte>,
                       newKey: nat, room: nat)
    requires w.Valid() && !alice.received && alice.ratchet == Some(InitialAlice(secret, ratchetKey))
    requires room >= MessageLength(alice, plaintext)
    ensures Encrypt(w, alice, plaintext, newKey, 0, room).1
         == Some(PreKeyBytes(PROTOCOL_VERSION,
                   Parts(alice.keys, Body(w, MessageOf(ratchetKey, 0, ForMessage(InitialChain(secret)), plaintext)))))
  {
    hide PreKeyBytes, Body, Parts, MessageLength, EncryptOutputLength;
  }

  /** What Bob's fresh ratchet makes of it. */
  lemma FirstDecrypted(ours: seq<byte>, theirs: seq<byte>, ratchetKey: nat, plaintext: seq<byte>, room: nat,
                       sequential: bool)
    requires room >= CbcLength(|plaintext|)
    ensures var out := Decrypted(InitialBob(ours, ratchetKey),
                                 MessageOf(ratchetKey, 0, ForMessage(InitialChain(theirs)), plaintext), room,
                                 sequential);
      if ours == theirs then out.1 == Some(plaintext) else out.1 == None && out.0.lastError == BAD_MESSAGE_MAC
  {
    var st := InitialBob(ours, ratchetKey);
    assert FindChain(st.receivers, ratchetKey) == 0;
    assert Iterate(InitialChain(ours), 0) == InitialChain(ours);
  }

  /** Bob's half of the setup succeeds on Alice's first message. */
  lemma InboundSucceeds(w: Wire, s: SessionState, account: Account, theirIdentity: Option<seq<byte>>, keys: Keys,
                        i: nat, p: nat, oneTime: Option<nat>, ratchetKey: nat, key: Key, plaintext: seq<byte>)
    requires w.Valid() && HoldsKeys(w, account, i, p, oneTime) && KeysSized(keys)
    requires w.Names(p) && (oneTime.Some? ==> w.Names(oneTime.value))
    requires w.Names(ratchetKey) && w.Opens(Sealed(key, plaintext))
    requires keys.bobPrekey == w.pub(p) && keys.bobOneTime == w.pub(if oneTime.Some? then oneTime.value else p)
    requires theirIdentity.Some? ==> theirIdentity.value == keys.aliceIdentity
    requires CbcLength(|plaintext|) + 0x1000 < TWO64
    ensures
      var body := Body(w, MessageOf(ratchetKey, 0, key, plaintext));
      var message := PreKeyBytes(PROTOCOL_VERSION, Parts(keys, body));
      var otk := if oneTime.Some? then oneTime.value else p;
      && Loadable(message)
      && NewInbound(w, s, account, theirIdentity, message)
           == (s.(keys := keys,
                  ratchet := Some(InitialBob(InboundSecret(w, account.identity, otk, p, keys), ratchetKey))), true)
  {
    var m := MessageOf(ratchetKey, 0, key, plaintext);
    var otk := if oneTime.Some? then oneTime.value else p;
    BodySize(w, ratchetKey, 0, key, plaintext);
    SlotsOfPreKey(keys, Body(w, m));
    BodyRoundTrip(w, ratchetKey, 0, key, plaintext);
    assert keys.bobPrekey == keys.bobOneTime <==> p == otk by {
      assert w.name(w.pub(p)) == p && w.name(w.pub(otk)) == otk;
    }
    hide Body, PreKeyBytes, ReadBody, InboundSecret, LookupKey, LookupPrekey, SlotsOf, StrSlot;
  }

  /** What Alice seals first. */
  function FirstSealed(w: Wire, a: nat, base: nat, i: nat, p: nat, oneTime: Option<nat>, plaintext: seq<byte>): Sealed
    requires forall d: Dh :: |w.shared(d)| == 32
  {
    var secret := OutboundSecret(w, KeyPair(w.pub(a), a), base, w.pub(i), w.pub(p), Public(w, oneTime));
    Sealed(ForMessage(InitialChain(secret)), plaintext)
  }

  /** What the first message asks of the primitives. */
  ghost predicate Serves(w: Wire, a: nat, base: nat, ratchetKey: nat, i: nat, p: nat, oneTime: Option<nat>,
                         plaintext: seq<byte>) {
    && w.Valid() && w.Names(a) && w.Names(base) && w.Names(ratchetKey) && w.Names(i) && w.Names(p)
    && (oneTime.Some? ==> w.Names(oneTime.value))
    && w.Opens(FirstSealed(w, a, base, i, p, oneTime, plaintext))
  }

  lemma SameSecret(v: Wire, w: Wire, a: nat, base: nat, i: nat, p: nat, oneTime: Option<nat>, plaintext: seq<byte>)
    requires v.Valid() && w.Valid() && v.pub == w.pub && v.name == w.name && v.shared == w.shared
    ensures FirstSealed(v, a, base, i, p, oneTime, plaintext) == FirstSealed(w, a, base, i, p, oneTime, plaintext)
  {
    hide Prefix, Wire.Valid;
  }

  /** There are primitives for every first message with keys of 32 bytes. */
  lemma FirstWire(a: nat, base: nat, ratchetKey: nat, i: nat, p: nat, oneTime: Option<nat>, plaintext: seq<byte>)
    returns (w: Wire)
    requires a < Limit(32) && base < Limit(32) && ratchetKey < Limit(32) && i < Limit(32) && p < Limit(32)
    requires oneTime.Some? ==> oneTime.value < Limit(32)
    ensures Serves(w, a, base, ratchetKey, i, p, oneTime, plaintext)
  {
    hide Limit, FirstSealed, WireFor, Wire.Valid, Wire.Names, Wire.Opens;
    WireExists([]);
    OneSeal();
    SharedSized(WireFor([]));
    var s := FirstSealed(WireFor([]), a, base, i, p, oneTime, plaintext);
    w := WireFor([s]);
    WireExists([s]);
    assert s in [s];
    SameWire([s], []);
    SameSecret(w, WireFor([]), a, base, i, p, oneTime, plaintext);
  }

  lemma OneSeal()
    ensures 1 <= Limit(16)
  {
    LimitGrows(0, 16);
    assert Limit(0) == 1;
    hide Limit;
  }

  lemma SharedSized(w: Wire)
    requires w.Valid()
    ensures forall d: Dh :: |w.shared(d)| == 32
  {
  }

  lemma SameWire(s: seq<Sealed>, t: seq<Sealed>)
    ensures WireFor(s).pub == WireFor(t).pub && WireFor(s).name == WireFor(t).name
    ensures WireFor(s).shared == WireFor(t).shared
  {
  }

  /** The whole way of the first message: Alice sets up with Bob's keys and encrypts, Bob sets up from
   *  the bytes and decrypts them. The roots agree and the plaintext comes out just when the one-time
   *  key, if any, is not the prekey itself. */
  lemma FirstMessage(w: Wire, s: SessionState, t: SessionState, account: Account, theirIdentity: Option<seq<byte>>,
                     a: nat, base: nat, ratchetKey: nat, i: nat, p: nat, oneTime: Option<nat>,
                     plaintext: seq<byte>, newKey: nat, room: nat, room': nat, sequential: bool)
    requires Serves(w, a, base, ratchetKey, i, p, oneTime, plaintext) && HoldsKeys(w, account, i, p, oneTime)
    requires theirIdentity.Some? ==> theirIdentity.value == w.pub(a)
    requires CbcLength(|plaintext|) + 0x1000 < TWO64
    requires room >= MessageLength(AliceSession(w, s, a, base, ratchetKey, i, p, oneTime), plaintext)
    requires room' >= CbcLength(|plaintext|)
    ensures
      var alice := AliceSession(w, s, a, base, ratchetKey, i, p, oneTime);
      var message := Encrypt(w, alice, plaintext, newKey, 0, room).1;
      && message.Some? && Loadable(message.value)
      && var (bob, ok) := NewInbound(w, t, account, theirIdentity, message.value);
      && ok && bob.keys == alice.keys && bob.ratchet.Some? && bob.ratchet.value.Valid()
      && Matches(bob, theirIdentity, message.value)
      && (bob.ratchet.value.root == alice.ratchet.value.root <==> oneTime != Some(p))
      && (Decrypt(w, bob, true, message.value, room', sequential).1 == Some(plaintext) <==> oneTime != Some(p))
  {
    var alice := AliceSession(w, s, a, base, ratchetKey, i, p, oneTime);
    var otk := if oneTime.Some? then oneTime.value else p;
    var ours := InboundSecret(w, account.identity, otk, p, alice.keys);
    var theirs := OutboundSecret(w, KeyPair(w.pub(a), a), base, w.pub(i), w.pub(p), Public(w, oneTime));
    var m := MessageOf(ratchetKey, 0, ForMessage(InitialChain(theirs)), plaintext);
    AliceKeys(w, s, a, base, ratchetKey, i, p, oneTime);
    SecretsAgreeIff(w, a, base, i, p, oneTime);
    hide AliceSession, OutboundSecret, InboundSecret, Body, PreKeyBytes, MessageLength, CbcLength, SlotsOf, StrSlot,
      Encrypt, NewInbound, Matches, Loadable, ReadBody;
    FirstEncrypted(w, alice, theirs, ratchetKey, plaintext, newKey, room);
    InboundSucceeds(w, t, account, theirIdentity, alice.keys, i, p, oneTime, ratchetKey,
                    ForMessage(InitialChain(theirs)), plaintext);
    BodySize(w, ratchetKey, 0, ForMessage(InitialChain(theirs)), plaintext);
    MatchesWritten(t.(keys := alice.keys, ratchet := Some(InitialBob(ours, ratchetKey))), theirIdentity, alice.keys,
               Body(w, m));
    SlotsOfPreKey(alice.keys, Body(w, m));
    BodyRoundTrip(w, ratchetKey, 0, ForMessage(InitialChain(theirs)), plaintext);
    FirstDecrypted(ours, theirs, ratchetKey, plaintext, room', sequential);
    hide Decrypted, MessageOf;
  }

  /** The case that fails, for every choice of keys: Bob holds his prekey alone, and Alice was given it as a
   *  one-time key too. */
  lemma PrekeyAsOneTime(w: Wire, s: SessionState, t: SessionState, a: nat, base: nat, ratchetKey: nat, i: nat, p: nat,
                        plaintext: seq<byte>, newKey: nat, sequential: bool)
    requires Serves(w, a, base, ratchetKey, i, p, Some(p), plaintext) && CbcLength(|plaintext|) + 0x1000 < TWO64
    ensures
      var alice := AliceSession(w, s, a, base, ratchetKey, i, p, Some(p));
      var message := Encrypt(w, alice, plaintext, newKey, 0, MessageLength(alice, plaintext)).1;
      && message.Some? && Loadable(message.value)
      && var (bob, ok) := NewInbound(w, t, PlainAccount(w, i, p), None, message.value);
      && ok && bob.ratchet.Some? && bob.ratchet.value.Valid()
      && bob.ratchet.value.root != alice.ratchet.value.root
      && Decrypt(w, bob, true, message.value, CbcLength(|plaintext|), sequential).1 != Some(plaintext)
  {
    PlainAccountHolds(w, i, p);
    AliceKeys(w, s, a, base, ratchetKey, i, p, Some(p));
    hide Serves, HoldsKeys, PlainAccount, AliceSession, Encrypt, Decrypt, NewInbound, MessageLength, Loadable, Matches;
    var alice := AliceSession(w, s, a, base, ratchetKey, i, p, Some(p));
    FirstMessage(w, s, t, PlainAccount(w, i, p), None, a, base, ratchetKey, i, p, Some(p), plaintext, newKey,
                 MessageLength(alice, plaintext), CbcLength(|plaintext|), sequential);
  }

  lemma AliceKeys(w: Wire, s: SessionState, a: nat, base: nat, ratchetKey: nat, i: nat, p: nat, oneTime: Option<nat>)
    requires w.Valid()
    ensures
      var alice := AliceSession(w, s, a, base, ratchetKey, i, p, oneTime);
      && alice.keys == Keys(w.pub(a), w.pub(base), w.pub(if oneTime.Some? then oneTime.value else p), w.pub(p))
      && KeysSized(alice.keys) && !alice.received
      && alice.ratchet == Some(InitialAlice(OutboundSecret(w, KeyPair(w.pub(a), a), base, w.pub(i), w.pub(p),
                                                           Public(w, oneTime)), ratchetKey))
  {
    hide OutboundSecret;
  }

  // ----- the object -----

  /** The bytes a reader field stands for. */
  function Cut(input: seq<byte>, slice: Slice): Option<seq<byte>>
    requires slice.At? ==> slice.start + slice.length <= |input|
  {
    match slice
    case Null => None
    case At(start, length) => Some(input[start..start + length])
  }

  /** check_message_fields, on the reader. */
  function CheckReader(r: PreKeyReader, haveTheirIdentity: bool): bool {
    && (haveTheirIdentity || r.identityKey.At?)
    && (r.identityKey.At? ==> r.identityKey.length == KEY_LENGTH)
    && r.message.At? && r.baseKey.At? && r.baseKey.length == KEY_LENGTH
    && r.oneTimeKey.At? && r.oneTimeKey.length == KEY_LENGTH
  }

  lemma ReaderIsSlots(input: seq<byte>, r: PreKeyReader)
    requires PreKeyHolds(r, input, SlotsOf(input))
    ensures forall slice :: slice in {r.prekey, r.oneTimeKey, r.baseKey, r.identityKey, r.message}
              ==> (slice.At? ==> slice.start + slice.length <= |input|)
    ensures var slots := SlotsOf(input);
      && Cut(input, r.prekey) == StrSlot(slots, PREKEY_TAG)
      && Cut(input, r.oneTimeKey) == StrSlot(slots, ONE_TIME_KEY_TAG)
      && Cut(input, r.baseKey) == StrSlot(slots, BASE_KEY_TAG)
      && Cut(input, r.identityKey) == StrSlot(slots, IDENTITY_KEY_TAG)
      && Cut(input, r.message) == StrSlot(slots, MESSAGE_TAG)
    ensures forall have :: CheckReader(r, have) <==> CheckFields(SlotsOf(input), have)
  {
    hide SlotsOf;
  }

  lemma FillFive(s: seq<byte>, at: PreKeyPlaces, p: PreKeyParts)
    requires GapsBelow(PreKeyGaps(at, p), |s|)
    ensures at.prekey + |p.prekey| <= |s| && at.oneTimeKey + |p.oneTimeKey| <= |s| && at.baseKey + |p.baseKey| <= |s|
    ensures at.identityKey + |p.identityKey| <= |s| && at.message + |p.message| <= |s|
    ensures Fill(s, PreKeyGaps(at, p))
      == Overwrite(Overwrite(Overwrite(Overwrite(Overwrite(s, at.prekey, p.prekey), at.oneTimeKey, p.oneTimeKey),
                                       at.baseKey, p.baseKey), at.identityKey, p.identityKey), at.message, p.message)
  {
    hide Overwrite, Fill;
    var g1, g2, g3, g4, g5 := Gap(at.prekey, p.prekey), Gap(at.oneTimeKey, p.oneTimeKey), Gap(at.baseKey, p.baseKey),
      Gap(at.identityKey, p.identityKey), Gap(at.message, p.message);
    assert g1 in PreKeyGaps(at, p) && g2 in PreKeyGaps(at, p) && g3 in PreKeyGaps(at, p);
    assert g4 in PreKeyGaps(at, p) && g5 in PreKeyGaps(at, p);
    FillNone(s);
    FillLast(s, [], g1);
    FillLast(s, [] + [g1], g2);
    FillLast(s, [] + [g1] + [g2], g3);
    FillLast(s, [] + [g1] + [g2] + [g3], g4);
    FillLast(s, [] + [g1] + [g2] + [g3] + [g4], g5);
  }

  lemma FillNone(s: seq<byte>)
    ensures Fill(s, []) == s
  {
  }

  lemma FillLast(s: seq<byte>, gaps: seq<Gap>, g: Gap)
    requires GapsBelow(gaps, |s|) && g.at + |g.value| <= |s|
    ensures GapsBelow(gaps + [g], |s|)
    ensures Fill(s, gaps + [g]) == Overwrite(Fill(s, gaps), g.at, g.value)
  {
    assert (gaps + [g])[..|gaps|] == gaps;
  }

  lemma BodyFits(w: Wire, st: State, plaintext: seq<byte>, newKey: nat, randomLength: nat)
    requires w.Valid() && st.Valid() && CbcLength(|plaintext|) < TWO64
    ensures var room := EncryptOutputLength(st, plaintext);
      var m := Encrypted(st, plaintext, newKey, randomLength, room).1;
      m.Some? ==> && m.value.ratchetKey.Some? && m.value.counter.Some? && m.value.ciphertext.Some?
                  && |Body(w, m.value)| == room
  {
    var room := EncryptOutputLength(st, plaintext);
    var m := Encrypted(st, plaintext, newKey, randomLength, room).1;
    EncryptedShape(st, plaintext, newKey, randomLength, room);
    if m.Some? {
      BodyLength(w, m.value.ratchetKey.value, m.value.counter.value, m.value.ciphertext.value.key, plaintext);
    }
    hide Body, NormalLength;
  }

  lemma OverwrittenFront(was: seq<byte>, value: seq<byte>)
    requires |value| <= |was|
    ensures Overwrite(was, 0, value)[..|value|] == value
  {
  }

  class SessionObject {
    var received: bool
    var keys: Keys
    var ratchet: Ratchet?
    var lastError: Error

    ghost function Value(): SessionState
      reads this, ratchet
    {
      SessionState(received, keys, if ratchet == null then None else Some(ratchet.Value()), lastError)
    }

    ghost predicate Valid()
      reads this, ratchet
    {
      ratchet != null ==> ratchet.Valid()
    }

    method NewOutboundSession(w: Wire, identity: KeyPair, theirIdentity: seq<byte>, prekey: seq<byte>,
                              signatureGood: bool,
                              oneTimeKey: Option<seq<byte>>, base: nat, ratchetKey: nat, randomLength: nat)
      returns (ok: bool)
      requires w.Valid() && Valid()
      modifies this
      ensures Valid()
      ensures (Value(), ok) == NewOutbound(w, old(Value()), identity, theirIdentity, prekey, signatureGood, oneTimeKey,
                                           base, ratchetKey, randomLength)
    {
      if randomLength < 64 {
        lastError := NOT_ENOUGH_RANDOM;
        return false;
      }
      received := false;
      keys := Keys(identity.public, w.pub(base), if oneTimeKey.Some? then oneTimeKey.value else prekey, prekey);
      if !signatureGood {
        lastError := BAD_SIGNATURE;
        return false;
      }
      var secrets := [w.Secret(identity.private, keys.bobOneTime)];
      secrets := secrets + [w.Secret(base, theirIdentity)];
      secrets := secrets + [w.Secret(base, keys.bobOneTime)];
      if oneTimeKey.Some? {
        secrets := secrets + [w.Secret(base, prekey)];
      }
      var steps := if oneTimeKey.Some? then 4 else 3;
      ratchet := new Ratchet.InitialiseAsAlice(Prefix(secrets, steps), ratchetKey);
      return true;
    }

    method NewInboundSession(w: Wire, account: AccountObject, theirIdentity: Option<seq<byte>>, message: seq<byte>)
      returns (ok: bool)
      requires w.Valid() && Valid()
      requires CheckFields(SlotsOf(message), theirIdentity.Some?) ==> Loadable(message)
      modifies this
      ensures Valid()
      ensures (Value(), ok) == NewInbound(w, old(Value()), old(account.Value()), theirIdentity, message)
    {
      var reader := DecodePreKey(message);
      ReaderIsSlots(message, reader);
      hide SlotsOf, StrSlot, PreKeyHolds;
      if !CheckReader(reader, theirIdentity.Some?) {
        lastError := BAD_MESSAGE_FORMAT;
        return false;
      }
      if reader.identityKey.At? && theirIdentity.Some? && theirIdentity != Cut(message, reader.identityKey) {
        lastError := BAD_MESSAGE_KEY_ID;
        return false;
      }
      keys := Keys(Cut(message, reader.identityKey).value, Cut(message, reader.baseKey).value,
                   Cut(message, reader.oneTimeKey).value, Cut(message, reader.prekey).value);
      ok := FromKeys(w, account, Cut(message, reader.message).value);
    }

    method FromKeys(w: Wire, account: AccountObject, body: seq<byte>) returns (ok: bool)
      requires w.Valid() && Valid()
      modifies this
      ensures Valid()
      ensures (Value(), ok) == WithKeys(w, old(Value()), old(account.Value()), body)
    {
      var reader := ReadBody(w, body);
      if reader.ratchetKey.None? || reader.ratchetKeyLength != KEY_LENGTH {
        lastError := BAD_MESSAGE_FORMAT;
        return false;
      }
      var ourOneTimeKey := account.Lookup(keys.bobOneTime);
      var usingPrekeyAsOtk := keys.bobPrekey == keys.bobOneTime;
      if ourOneTimeKey.None? && !usingPrekeyAsOtk {
        lastError := BAD_MESSAGE_KEY_ID;
        return false;
      }
      var ourPrekey := account.LookupPrekeyIn(keys.bobPrekey);
      if ourPrekey.None? {
        lastError := BAD_MESSAGE_KEY_ID;
        return false;
      }
      var prekey := ourPrekey.value.key.private;
      var oneTime := if usingPrekeyAsOtk then prekey else ourOneTimeKey.value.key.private;
      var secrets := [w.Secret(oneTime, keys.aliceIdentity)];
      secrets := secrets + [w.Secret(account.identity.private, keys.aliceBase)];
      secrets := secrets + [w.Secret(oneTime, keys.aliceBase)];
      if !usingPrekeyAsOtk {
        secrets := secrets + [w.Secret(prekey, keys.aliceBase)];
      }
      var steps := if usingPrekeyAsOtk then 3 else 4;
      ratchet := new Ratchet.InitialiseAsBob(Prefix(secrets, steps), reader.ratchetKey.value);
      return true;
    }

    method MatchesInboundSession(theirIdentity: Option<seq<byte>>, message: seq<byte>) returns (same: bool)
      ensures same == Matches(Value(), theirIdentity, message)
    {
      var reader := DecodePreKey(message);
      ReaderIsSlots(message, reader);
      hide SlotsOf, StrSlot, PreKeyHolds;
      if !CheckReader(reader, theirIdentity.Some?) {
        return false;
      }
      same := true;
      if reader.identityKey.At? {
        same := same && Cut(message, reader.identityKey).value == keys.aliceIdentity;
      }
      if theirIdentity.Some? {
        same := same && theirIdentity.value == keys.aliceIdentity;
      }
      same := same && Cut(message, reader.baseKey).value == keys.aliceBase;
      same := same && Cut(message, reader.oneTimeKey).value == keys.bobOneTime;
    }

    method EncryptMessage(w: Wire, plaintext: seq<byte>, newKey: nat, randomLength: nat, message: array<byte>)
      returns (result: Option<nat>)
      requires w.Valid() && Valid() && ratchet != null && KeysSized(keys)
      requires CbcLength(|plaintext|) + 0x1000 < TWO64
      modifies this, ratchet, message
      ensures Valid()
      ensures var (after, written) := Encrypt(w, old(Value()), plaintext, newKey, randomLength, message.Length);
        && Value() == after && (result.Some? <==> written.Some?)
        && (written.Some? ==> |written.value| <= message.Length && message[..|written.value|] == written.value)
    {
      hide PreKeyBytes, Body, Encrypted, EncryptOutputLength, PreKeyLength;
      ghost var st := ratchet.Value();
      var bodyLength := OutputLength(plaintext);
      if message.Length < (if received then bodyLength
                          else PreKeyLength(KEY_LENGTH, KEY_LENGTH, KEY_LENGTH, KEY_LENGTH, bodyLength)) {
        lastError := OUTPUT_BUFFER_TOO_SMALL;
        return None;
      }
      ghost var sealed := Encrypted(st, plaintext, newKey, randomLength, bodyLength).1;
      BodyFits(w, st, plaintext, newKey, randomLength);
      ghost var body := if sealed.Some? then Body(w, sealed.value) else seq(bodyLength, i => 0);
      ghost var was := message[..];
      var at := 0;
      if !received {
        at := StoreHeader(message, bodyLength, body);
      }
      var sent := ratchet.Encrypt(plaintext, newKey, randomLength, bodyLength);
      if sent.None? {
        lastError := ratchet.lastError;
        ratchet.lastError := SUCCESS;
        return None;
      }
      StoreAt(message, at, Body(w, sent.value));
      OverwrittenFront(was, if received then body else PreKeyBytes(PROTOCOL_VERSION, Parts(keys, body)));
      return Some(bodyLength);
    }

    /** The header of a pre-key message: lengths first, then the four keys. What is left to store is the
     *  body, at the place returned. */
    method StoreHeader(message: array<byte>, bodyLength: nat, ghost body: seq<byte>) returns (at: nat)
      requires KeysSized(keys) && |body| == bodyLength
      requires PreKeyLength(KEY_LENGTH, KEY_LENGTH, KEY_LENGTH, KEY_LENGTH, bodyLength) <= message.Length
      modifies message
      ensures at + bodyLength <= message.Length
      ensures |PreKeyBytes(PROTOCOL_VERSION, Parts(keys, body))| <= message.Length
      ensures Overwrite(message[..], at, body)
              == Overwrite(old(message[..]), 0, PreKeyBytes(PROTOCOL_VERSION, Parts(keys, body)))
    {
      hide PreKeyBytes, PreKeyLength, Overwrite;
      ghost var was, parts := message[..], Parts(keys, body);
      var places := EncodePreKey(message, 0, PROTOCOL_VERSION, KEY_LENGTH, KEY_LENGTH, KEY_LENGTH, KEY_LENGTH,
                                 bodyLength, parts);
      ghost var out := message[..];
      FillFive(out, places, parts);
      StoreAt(message, places.prekey, keys.bobPrekey);
      StoreAt(message, places.oneTimeKey, keys.bobOneTime);
      StoreAt(message, places.baseKey, keys.aliceBase);
      StoreAt(message, places.identityKey, keys.aliceIdentity);
      at := places.message;
    }

    /** store_array */
    static method StoreAt(message: array<byte>, at: nat, value: seq<byte>)
      requires at + |value| <= message.Length
      modifies message
      ensures message[..] == Overwrite(old(message[..]), at, value)
    {
      forall i | 0 <= i < |value| {
        message[at + i] := value[i];
      }
    }

    method OutputLength(plaintext: seq<byte>) returns (n: nat)
      requires ratchet != null
      ensures n == EncryptOutputLength(ratchet.Value(), plaintext)
    {
      var counter := if ratchet.senderChain.Some? then ratchet.senderChain.value.chain.index else 0;
      n := NormalLength(counter, KEY_LENGTH, CbcLength(|plaintext|), MAC_LENGTH);
    }

    method DecryptMessage(preKey: bool, message: seq<byte>, room: nat, sequential: bool, w: Wire)
      returns (plaintext: Option<seq<byte>>)
      requires Valid() && ratchet != null
      modifies this, ratchet
      ensures Valid()
      ensures (Value(), plaintext) == Decrypt(w, old(Value()), preKey, message, room, sequential)
    {
      hide Decrypted, ReadBody;
      var body := message;
      if preKey {
        var reader := DecodePreKey(message);
        ReaderIsSlots(message, reader);
        hide SlotsOf, StrSlot, PreKeyHolds;
        if !reader.message.At? {
          lastError := BAD_MESSAGE_FORMAT;
          return None;
        }
        body := Cut(message, reader.message).value;
      }
      plaintext := ratchet.Decrypt(ReadBody(w, body), room, sequential);
      if plaintext.None? {
        lastError := ratchet.lastError;
        ratchet.lastError := SUCCESS;
        return;
      }
      received := true;
    }
  }
}
