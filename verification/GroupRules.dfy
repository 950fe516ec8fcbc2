/** Which group messages are received and which are refused (src/inbound_group_session.c), on arbitrary bytes, and
 *  where everything stands in a message that is sent. */
module GroupRules {
  import opened Words
  import opened Message
  import opened MessageCodec
  import opened MessageFormats
  import opened CipherSuite
  import opened Megolm
  import opened GroupSession
  import opened GroupKeys
  import opened GroupMessages
  import Hkdf
  import Cbc
  import WireLayout

  // ----- keys -----

  /** A part is rehashed with HMAC-SHA-256 over one byte, the number of the part it gives. */
  lemma SeedIsPart(p: Primitives, part: Bytes, j: byte)
    ensures RatchetHmac(p)(part, j) == Hkdf.Hmac(p.transform, part, [j])
  {
    hide Hkdf.Hmac;
  }

  /** 80 bytes of HKDF from the four parts, without salt, for the purpose "MEGOLM_KEYS". */
  function Secrets(p: Primitives, m: State<Bytes>): (s: Bytes)
    requires |m.data| == 4
    ensures |s| == 80
  {
    Hkdf.Expand(p.transform, Hkdf.Hmac(p.transform, seq(32, i => 0), m.data[0] + m.data[1] + m.data[2] + m.data[3]),
                [0x4D, 0x45, 0x47, 0x4F, 0x4C, 0x4D, 0x5F, 0x4B, 0x45, 0x59, 0x53], 80)
  }

  function AesKey(p: Primitives, m: State<Bytes>): (k: Bytes)
    requires |m.data| == 4
    ensures |k| == 32
  {
    Secrets(p, m)[..32]
  }

  function InitialVector(p: Primitives, m: State<Bytes>): (iv: Bytes)
    requires |m.data| == 4
    ensures |iv| == 16
  {
    Secrets(p, m)[64..]
  }

  /** The first 8 bytes of the HMAC under the second 32 bytes. */
  function MacAt(p: Primitives, m: State<Bytes>, covered: Bytes): (mac: Bytes)
    requires |m.data| == 4
    ensures |mac| == 8
  {
    Hkdf.Hmac(p.transform, Secrets(p, m)[32..64], covered)[..8]
  }

  lemma KeysAre(p: Primitives, m: State<Bytes>, covered: Bytes)
    requires |m.data| == 4
    ensures var k := KeysAt(p, m);
      && k.aes == AesKey(p, m) && k.iv == InitialVector(p, m) && Mac(p, k, covered) == MacAt(p, m, covered)
  {
    KeysDerived(p, m);
    KeysAndMac(p, [0x4D, 0x45, 0x47, 0x4F, 0x4C, 0x4D, 0x5F, 0x4B, 0x45, 0x59, 0x53], DataOf(m), covered);
    hide Hkdf.Hmac, Hkdf.Expand, DerivedKeys, KeysAt, Mac;
    Cuts(KeysAt(p, m), Secrets(p, m));
  }

  lemma Cuts(k: Keys, s: Bytes)
    requires k.aes + k.mac + k.iv == s && |k.aes| == 32 && |k.mac| == 32 && |k.iv| == 16
    ensures k.aes == s[..32] && k.mac == s[32..64] && k.iv == s[64..]
  {
  }

  // ----- what is sent -----

  /** The message is its version and two fields, then 8 bytes of MAC over these, then 64 bytes of signature over all
   *  the rest. */
  lemma SentLayout(p: Primitives, s: Signer, m: State<Bytes>, plaintext: Bytes)
    requires p.Valid() && s.Valid() && |m.data| == 4
    ensures var message := Sent(p, s, m, plaintext);
      var n := |message|;
      var c := Cbc.Chained(p.cipher(AesKey(p, m)), InitialVector(p, m), Cbc.Padded(plaintext));
      && n > 72
      && message[..n - 72] == [3] + ([0x08] + EncodeVarint(m.counter)) + WireLayout.StringField(0x12, c)
      && message[n - 72..n - 64] == MacAt(p, m, message[..n - 72])
      && message[n - 64..] == s.sign(message[..n - 64])
  {
    hide Primitives.Valid, GroupMessages.KeysAt, Ciphertext, GroupBytes, Mac, Cbc.Chained, Cbc.Padded, Secrets,
      CbcLength, GroupLength, GroupMessages.Body, Authenticated, Sent;
    SentLength(p, s, m, plaintext);
    SentIs(p, s, m, plaintext);
    var body := GroupMessages.Body(p, m, plaintext);
    BodyIs(p, m, plaintext);
    KeysAre(p, m, body);
    Pieces(body, MacAt(p, m, body), s.sign(Authenticated(p, m, plaintext)));
  }

  lemma SentIs(p: Primitives, s: Signer, m: State<Bytes>, plaintext: Bytes)
    requires p.Valid() && s.Valid() && |m.data| == 4
    ensures var body := GroupMessages.Body(p, m, plaintext);
      var a := Authenticated(p, m, plaintext);
      && a == body + Mac(p, KeysAt(p, m), body)
      && Sent(p, s, m, plaintext) == a + s.sign(a) && |s.sign(a)| == 64
  {
    hide Primitives.Valid, GroupMessages.KeysAt, GroupMessages.Body, Mac;
  }

  lemma BodyIs(p: Primitives, m: State<Bytes>, plaintext: Bytes)
    requires p.Valid() && |m.data| == 4
    ensures var c := Cbc.Chained(p.cipher(AesKey(p, m)), InitialVector(p, m), Cbc.Padded(plaintext));
      GroupMessages.Body(p, m, plaintext)
        == [3] + ([0x08] + EncodeVarint(m.counter)) + WireLayout.StringField(0x12, c)
  {
    hide GroupMessages.KeysAt, GroupBytes, Cbc.Chained, Cbc.Padded, Secrets, EncodeVarint, WireLayout.StringField;
    KeysAre(p, m, []);
    WireLayout.GroupLayout(3, m.counter, Ciphertext(p, KeysAt(p, m), plaintext));
  }

  lemma Pieces(body: Bytes, mac: Bytes, signature: Bytes)
    requires |mac| == 8 && |signature| == 64
    ensures var message := body + mac + signature;
      var n := |message|;
      && message[..n - 72] == body && message[n - 72..n - 64] == mac && message[..n - 64] == body + mac
      && message[n - 64..] == signature
  {
    PartsOf(body, mac, signature);
  }

  // ----- what is received -----

  /** How far a request lies past a counter, modulo 2^32. */
  function Past(i: u32, counter: u32): nat { (i - counter) % 0x1_0000_0000 }

  /** An index is known just when it is less than 2^31 past the latest ratchet or past the earliest. */
  lemma KnownIff<K>(h: Hmac<K>, cache: Cache<K>, i: u32)
    requires cache.Valid()
    ensures var (after, at) := Lookup(h, cache, i);
      && (at.Some? <==> Past(i, cache.latest.counter) < 0x8000_0000 || Past(i, cache.initial.counter) < 0x8000_0000)
      && after.initial == cache.initial
      && (Past(i, cache.latest.counter) < 0x8000_0000 ==>
            at == Some(after.latest) && after.latest == Steps(h, cache.latest, Past(i, cache.latest.counter)))
      && (Past(i, cache.latest.counter) >= 0x8000_0000 ==> after == cache)
      && (Past(i, cache.latest.counter) >= 0x8000_0000 && at.Some? ==>
            at.value == Steps(h, cache.initial, Past(i, cache.initial.counter)))
  {
    hide Steps;
  }

  /** The fields of a message: version 3, an index and a ciphertext, in front of MAC and signature. */
  function IndexOf(message: Bytes): Option<u32> {
    var slots := Read({0x08, 0x12}, message, 72).1;
    if 0x08 in slots && slots[0x08].Num? then Some(slots[0x08].n) else None
  }

  function CiphertextOf(message: Bytes): Option<Bytes> {
    var slots := Read({0x08, 0x12}, message, 72).1;
    if 0x12 in slots && slots[0x12].Str? then Some(slots[0x12].s) else None
  }

  predicate FieldsGood(message: Bytes) {
    |message| > 72 && message[0] == 3 && IndexOf(message).Some? && CiphertextOf(message).Some?
  }

  /** What the ratchet for the index makes of a ciphertext of whole blocks: the last byte counts the padding. */
  predicate PaddingGood(p: Primitives, m: State<Bytes>, c: Bytes)
    requires p.Valid() && |m.data| == 4
  {
    && |c| > 0 && |c| % 16 == 0
    && Cbc.Unchained(p.cipher(AesKey(p, m)), InitialVector(p, m), c)[|c| - 1] <= |c|
  }

  /** On arbitrary bytes, with an arbitrary cache and any verification: what it takes to be received, and nothing is
   *  left of the message but the ciphertext without its padding. */
  lemma ReceivedIff(p: Primitives, verify: (Bytes, Bytes, Bytes) -> bool, signer: Bytes, cache: Cache<Bytes>,
                    message: Bytes, room: nat)
    requires p.Valid() && cache.Valid()
    ensures var (after, outcome) := Receive(p, verify, signer, cache, message, room);
      var n := |message|;
      && (outcome.Received? <==>
            && FieldsGood(message) && verify(signer, message[..n - 64], message[n - 64..])
            && var c := CiphertextOf(message).value;
               var at := Lookup(RatchetHmac(p), cache, IndexOf(message).value).1;
            && room >= |c| && at.Some?
            && message[n - 72..n - 64] == MacAt(p, at.value, message[..n - 72])
            && PaddingGood(p, at.value, c))
      && (outcome.Received? ==>
            var c := CiphertextOf(message).value;
            var at := Lookup(RatchetHmac(p), cache, IndexOf(message).value).1.value;
            var padded := Cbc.Unchained(p.cipher(AesKey(p, at)), InitialVector(p, at), c);
            outcome.plaintext == padded[..|c| - padded[|c| - 1]])
  {
    hide Primitives.Valid, Read, Lookup, OpenedBy, MacAt, PaddingGood, Cbc.Unchained, GroupMessages.KeysAt;
    var n := |message|;
    if n > 72 {
      PartsAre(message);
    }
    FieldsAre(message);
    hide SignedPart, SignaturePart, CoveredPart, MacPart, GroupIndex, GroupCiphertext, IndexOf, CiphertextOf;
    if FieldsGood(message) {
      var at := Lookup(RatchetHmac(p), cache, IndexOf(message).value).1;
      if at.Some? {
        OpenedByIff(p, at.value, message[..n - 72], message[n - 72..n - 64], CiphertextOf(message).value);
      }
    }
  }

  lemma FieldsAre(message: Bytes)
    ensures var (version, slots) := Read(GROUP, message, MAC_LENGTH + SIGNATURE_LENGTH);
      && GroupIndex(slots) == IndexOf(message) && GroupCiphertext(slots) == CiphertextOf(message)
      && version == if |message| > 72 then message[0] else 0
  {
    hide ParseAll;
  }

  lemma PartsAre(message: Bytes)
    requires |message| > 72
    ensures var n := |message|;
      && SignedPart(message) == message[..n - 64] && SignaturePart(message) == message[n - 64..]
      && CoveredPart(message) == message[..n - 72] && MacPart(message) == message[n - 72..n - 64]
  {
  }

  lemma OpenedByIff(p: Primitives, m: State<Bytes>, covered: Bytes, mac: Bytes, c: Bytes)
    requires p.Valid() && |m.data| == 4
    ensures var outcome := OpenedBy(p, KeysAt(p, m), covered, mac, c);
      && (outcome.Received? <==> mac == MacAt(p, m, covered) && PaddingGood(p, m, c))
      && (outcome.Received? ==>
            var padded := Cbc.Unchained(p.cipher(AesKey(p, m)), InitialVector(p, m), c);
            outcome.plaintext == padded[..|c| - padded[|c| - 1]])
  {
    hide MacAt, Mac, AesKey, InitialVector, GroupMessages.KeysAt, Cbc.Unchained, Primitives.Valid;
    KeysAre(p, m, covered);
  }

  /** The errors, in the order of the checks; the cache moves only once the signature is good and there is room. */
  lemma RefusedAs(p: Primitives, verify: (Bytes, Bytes, Bytes) -> bool, signer: Bytes, cache: Cache<Bytes>,
                  message: Bytes, room: nat)
    requires p.Valid() && cache.Valid()
    ensures var (after, outcome) := Receive(p, verify, signer, cache, message, room);
      var n := |message|;
      && (n <= 72 || message[0] != 3 ==> (after, outcome) == (cache, Refused(BAD_MESSAGE_VERSION)))
      && (n > 72 && message[0] == 3 && !FieldsGood(message) ==>
            (after, outcome) == (cache, Refused(BAD_MESSAGE_FORMAT)))
      && (FieldsGood(message) && !verify(signer, message[..n - 64], message[n - 64..]) ==>
            (after, outcome) == (cache, Refused(BAD_SIGNATURE)))
      && (FieldsGood(message) && verify(signer, message[..n - 64], message[n - 64..]) ==>
            var c := CiphertextOf(message).value;
            var (moved, at) := Lookup(RatchetHmac(p), cache, IndexOf(message).value);
            if room < |c| then (after, outcome) == (cache, Refused(OUTPUT_BUFFER_TOO_SMALL))
            else && after == moved
                 && (at.None? ==> outcome == Refused(UNKNOWN_MESSAGE_INDEX))
                 && (at.Some? && outcome.Refused? ==> outcome.error == BAD_MESSAGE_MAC)
                 && (outcome == PastEnd <==>
                       && at.Some? && message[n - 72..n - 64] == MacAt(p, at.value, message[..n - 72])
                       && (|c| == 0 || |c| % 16 != 0)))
  {
    hide Primitives.Valid, Read, Lookup, OpenedBy, MacAt, GroupMessages.KeysAt;
    if |message| > 72 {
      PartsAre(message);
    }
    FieldsAre(message);
    hide SignedPart, SignaturePart, CoveredPart, MacPart, GroupIndex, GroupCiphertext, IndexOf, CiphertextOf;
    if FieldsGood(message) {
      var n := |message|;
      var at := Lookup(RatchetHmac(p), cache, IndexOf(message).value).1;
      if at.Some? {
        OpenedOtherwise(p, at.value, message[..n - 72], message[n - 72..n - 64], CiphertextOf(message).value);
      }
    }
  }

  lemma OpenedOtherwise(p: Primitives, m: State<Bytes>, covered: Bytes, mac: Bytes, c: Bytes)
    requires p.Valid() && |m.data| == 4
    ensures var outcome := OpenedBy(p, KeysAt(p, m), covered, mac, c);
      && (outcome.Refused? ==> outcome.error == BAD_MESSAGE_MAC)
      && (outcome == PastEnd <==> mac == MacAt(p, m, covered) && (|c| == 0 || |c| % 16 != 0))
  {
    hide MacAt, Mac, AesKey, InitialVector, GroupMessages.KeysAt, Plaintext, Primitives.Valid;
    KeysAre(p, m, covered);
  }

  /** A caller is told the index just when version and fields are good, also when the message is refused later. */
  lemma ToldIff(message: Bytes)
    ensures IndexTold(message) == if FieldsGood(message) then IndexOf(message) else None
  {
  }

  // ----- the messages of the session objects -----

  /** The same of the terms that stand for messages: signed by the sender, at a known index, under its ratchet. */
  lemma JudgedIff<K>(h: Hmac<K>, s: Cache<K>, signer: PublicKey, msg: GroupMessage<K>, room: nat)
    requires s.Valid()
    ensures var verdict := Judge(h, s, signer, msg, room);
      var fields := msg.version == 3 && msg.index.Some? && msg.ciphertext.Some?;
      && (verdict.error == SUCCESS <==>
            && fields && msg.signer == signer && room >= CbcLength(|msg.ciphertext.value.plaintext|)
            && var at := Lookup(h, s, msg.index.value).1;
               at.Some? && at.value.data == msg.ciphertext.value.key)
      && (verdict.error == SUCCESS ==> verdict.plaintext == msg.ciphertext.value.plaintext)
      && (msg.version != 3 ==> verdict == Verdict(s, BAD_MESSAGE_VERSION, []))
      && (msg.version == 3 && !fields ==> verdict == Verdict(s, BAD_MESSAGE_FORMAT, []))
      && (fields && msg.signer != signer ==> verdict == Verdict(s, BAD_SIGNATURE, []))
      && (fields && msg.signer == signer ==>
            var (moved, at) := Lookup(h, s, msg.index.value);
            if room < CbcLength(|msg.ciphertext.value.plaintext|)
            then verdict == Verdict(s, OUTPUT_BUFFER_TOO_SMALL, [])
            else && verdict.cache == moved
                 && (at.None? ==> verdict.error == UNKNOWN_MESSAGE_INDEX)
                 && (at.Some? && verdict.error != SUCCESS ==> verdict.error == BAD_MESSAGE_MAC))
  {
    hide Lookup, CbcLength;
  }
}
