/** Group messages as bytes (src/outbound_group_session.c, src/inbound_group_session.c): the message, its
 *  MAC and its signature in one buffer, from the sender's plaintext to the receiver's. */
module GroupMessages {
  import opened Words
  import opened Message
  import opened MessageCodec
  import opened MessageFormats
  import opened CipherSuite
  import opened Megolm
  import opened GroupSession
  import opened GroupKeys
  import Hkdf
  import Cbc
  import Base64
  import PickleEncoding

  /** "MEGOLM_KEYS" */
  const GROUP_INFO: Bytes := [0x4D, 0x45, 0x47, 0x4F, 0x4C, 0x4D, 0x5F, 0x4B, 0x45, 0x59, 0x53]
  const SIGNATURE_LENGTH := 64

  /** The Ed25519 pair of the sender, and verification under any public key. */
  datatype Signer = Signer(public: Bytes, sign: Bytes -> Bytes, verify: (Bytes, Bytes, Bytes) -> bool)
  {
    ghost predicate Valid() {
      && |public| == 32
      && forall m: Bytes :: |sign(m)| == SIGNATURE_LENGTH && verify(public, m, sign(m))
    }
  }

  /** rehash_part: the seed of a part is its number, one byte. */
  function RatchetHmac(p: Primitives): Hmac<Bytes> {
    (part: Bytes, seed: nat) => Hkdf.Hmac(p.transform, part, [seed % 256])
  }

  function KeysAt(p: Primitives, m: State<Bytes>): (k: Keys)
    requires |m.data| == PARTS
    ensures |k.aes| == 32 && |k.mac| == 32 && |k.iv| == 16
  {
    DerivedKeys(p, GROUP_INFO, DataOf(m))
  }

  // ----- the sender's bytes -----

  function Body(p: Primitives, m: State<Bytes>, plaintext: Bytes): Bytes
    requires p.Valid() && |m.data| == PARTS
  {
    GroupBytes(PROTOCOL_VERSION, m.counter, Ciphertext(p, KeysAt(p, m), plaintext))
  }

  function Authenticated(p: Primitives, m: State<Bytes>, plaintext: Bytes): Bytes
    requires p.Valid() && |m.data| == PARTS
  {
    Body(p, m, plaintext) + Mac(p, KeysAt(p, m), Body(p, m, plaintext))
  }

  function Sent(p: Primitives, s: Signer, m: State<Bytes>, plaintext: Bytes): Bytes
    requires p.Valid() && |m.data| == PARTS
  {
    Authenticated(p, m, plaintext) + s.sign(Authenticated(p, m, plaintext))
  }

  // ----- what the receiver makes of bytes -----

  /** PastEnd: the MAC is right, but the ciphertext is not one of whole blocks, and the block loop would
   *  leave the buffer. */
  datatype Outcome = Received(plaintext: Bytes) | Refused(error: Error) | PastEnd

  /** The last step, with the ratchet for the index. */
  function OpenedBy(p: Primitives, k: Keys, covered: Bytes, mac: Bytes, c: Bytes): Outcome
    requires p.Valid() && |k.aes| == 32 && |k.iv| == 16
  {
    if mac != Mac(p, k, covered) then Refused(BAD_MESSAGE_MAC)
    else if |c| == 0 || |c| % 16 != 0 then PastEnd
    else Opening(p, k, c)
  }

  function GroupIndex(slots: Slots): Option<u32> {
    if INDEX_TAG in slots && slots[INDEX_TAG].Num? then Some(slots[INDEX_TAG].n) else None
  }

  function GroupCiphertext(slots: Slots): Option<Bytes> {
    if GROUP_CIPHERTEXT_TAG in slots && slots[GROUP_CIPHERTEXT_TAG].Str?
    then Some(slots[GROUP_CIPHERTEXT_TAG].s)
    else None
  }

  /** _decrypt */
  function Receive(p: Primitives, verify: (Bytes, Bytes, Bytes) -> bool, signer: Bytes, cache: Cache<Bytes>,
                   message: Bytes, room: nat): (r: (Cache<Bytes>, Outcome))
    requires p.Valid() && cache.Valid()
    ensures r.0.Valid()
  {
    var (version, slots) := Read(GROUP, message, MAC_LENGTH + SIGNATURE_LENGTH);
    var index, c := GroupIndex(slots), GroupCiphertext(slots);
    if version != PROTOCOL_VERSION then (cache, Refused(BAD_MESSAGE_VERSION))
    else if index.None? || c.None? then (cache, Refused(BAD_MESSAGE_FORMAT))
    else if !verify(signer, SignedPart(message), SignaturePart(message)) then (cache, Refused(BAD_SIGNATURE))
    else if room < |c.value| then (cache, Refused(OUTPUT_BUFFER_TOO_SMALL))
    else
      var (moved, at) := Lookup(RatchetHmac(p), cache, index.value);
      if at.None? then (moved, Refused(UNKNOWN_MESSAGE_INDEX))
      else (moved, OpenedBy(p, KeysAt(p, at.value), CoveredPart(message), MacPart(message), c.value))
  }

  /** The index that a caller is told of: as soon as it is read, whatever becomes of the message afterwards. */
  function IndexTold(message: Bytes): Option<u32> {
    var (version, slots) := Read(GROUP, message, MAC_LENGTH + SIGNATURE_LENGTH);
    if version == PROTOCOL_VERSION && GroupCiphertext(slots).Some? then GroupIndex(slots) else None
  }

  /** The parts of a message that is long enough to have them. */
  function SignedPart(message: Bytes): Bytes {
    if |message| < SIGNATURE_LENGTH then [] else message[..|message| - SIGNATURE_LENGTH]
  }

  function SignaturePart(message: Bytes): Bytes {
    if |message| < SIGNATURE_LENGTH then [] else message[|message| - SIGNATURE_LENGTH..]
  }

  function CoveredPart(message: Bytes): Bytes {
    if |message| < MAC_LENGTH + SIGNATURE_LENGTH then [] else message[..|message| - SIGNATURE_LENGTH - MAC_LENGTH]
  }

  function MacPart(message: Bytes): Bytes {
    if |message| < MAC_LENGTH + SIGNATURE_LENGTH then []
    else message[|message| - SIGNATURE_LENGTH - MAC_LENGTH..|message| - SIGNATURE_LENGTH]
  }

  lemma PartsOf(body: Bytes, mac: Bytes, signature: Bytes)
    requires |mac| == MAC_LENGTH && |signature| == SIGNATURE_LENGTH
    ensures var message := body + mac + signature;
      && SignedPart(message) == body + mac && SignaturePart(message) == signature
      && CoveredPart(message) == body && MacPart(message) == mac
  {
    var message := body + mac + signature;
    assert message[..|message| - SIGNATURE_LENGTH] == body + mac;
    assert message[|message| - SIGNATURE_LENGTH..] == signature;
    assert message[..|message| - SIGNATURE_LENGTH - MAC_LENGTH] == body;
    assert message[|message| - SIGNATURE_LENGTH - MAC_LENGTH..|message| - SIGNATURE_LENGTH] == mac;
  }

  lemma SentReads(p: Primitives, s: Signer, m: State<Bytes>, plaintext: Bytes)
    requires p.Valid() && s.Valid() && |m.data| == PARTS && CbcLength(|plaintext|) < TWO64
    ensures var message := Sent(p, s, m, plaintext);
      var (version, slots) := Read(GROUP, message, MAC_LENGTH + SIGNATURE_LENGTH);
      && version == PROTOCOL_VERSION && GroupIndex(slots) == Some(m.counter)
      && GroupCiphertext(slots) == Some(Ciphertext(p, KeysAt(p, m), plaintext))
      && |Ciphertext(p, KeysAt(p, m), plaintext)| == CbcLength(|plaintext|)
  {
    hide Primitives.Valid, Signer.Valid, KeysAt, Ciphertext, GroupBytes, Read, Mac, CbcLength, GroupIndex,
      GroupCiphertext, Body, Authenticated, Sent;
    var k := KeysAt(p, m);
    CiphertextIs(p, k, plaintext);
    var c := Ciphertext(p, k, plaintext);
    var trailer := TrailerOf(p, s, m, plaintext);
    GroupRoundTrip(PROTOCOL_VERSION, m.counter, c, trailer);
    TwoSlots(m.counter, c);
  }

  /** The MAC and the signature stand behind the body. */
  lemma TrailerOf(p: Primitives, s: Signer, m: State<Bytes>, plaintext: Bytes) returns (trailer: Bytes)
    requires p.Valid() && s.Valid() && |m.data| == PARTS
    ensures |trailer| == MAC_LENGTH + SIGNATURE_LENGTH
    ensures Sent(p, s, m, plaintext)
         == GroupBytes(PROTOCOL_VERSION, m.counter, Ciphertext(p, KeysAt(p, m), plaintext)) + trailer
  {
    hide Primitives.Valid, KeysAt, Ciphertext, GroupBytes, Mac;
    var body := Body(p, m, plaintext);
    var mac, signature := Mac(p, KeysAt(p, m), body), s.sign(Authenticated(p, m, plaintext));
    trailer := mac + signature;
    assert body + mac + signature == body + (mac + signature);
  }

  lemma TwoSlots(index: u32, c: Bytes)
    ensures var slots: Slots := map[INDEX_TAG := Num(index), GROUP_CIPHERTEXT_TAG := Str(c)];
      GroupIndex(slots) == Some(index) && GroupCiphertext(slots) == Some(c)
  {
  }

  lemma SentOpens(p: Primitives, s: Signer, m: State<Bytes>, plaintext: Bytes)
    requires p.Valid() && s.Valid() && |m.data| == PARTS
    ensures var message := Sent(p, s, m, plaintext);
      && s.verify(s.public, SignedPart(message), SignaturePart(message))
      && OpenedBy(p, KeysAt(p, m), CoveredPart(message), MacPart(message), Ciphertext(p, KeysAt(p, m), plaintext))
           == Received(plaintext)
  {
    hide Primitives.Valid, KeysAt, Ciphertext, Plaintext, Mac;
    var k := KeysAt(p, m);
    PlaintextOfCiphertext(p, k, plaintext);
    PartsOf(Body(p, m, plaintext), Mac(p, k, Body(p, m, plaintext)), s.sign(Authenticated(p, m, plaintext)));
    hide SignedPart, SignaturePart, CoveredPart, MacPart, Body;
  }

  /** The sender's ratchet started at start; the receiver was given it at step e and has since served any
   *  requests at all within range. The bytes of the sender's message number k, up to 2^31 - 1 past the
   *  shared point, then give the receiver the plaintext. */
  lemma EveryMessageArrives(p: Primitives, s: Signer, start: State<Bytes>, e: nat, k: nat, requests: seq<u32>,
                            plaintext: Bytes, room: nat)
    requires p.Valid() && s.Valid() && start.Valid() && e <= k < e + TWO31
    requires Near(Steps(RatchetHmac(p), start, e).counter, requests)
    requires CbcLength(|plaintext|) <= room && CbcLength(|plaintext|) < TWO64
    ensures var h := RatchetHmac(p);
      var shared := Steps(h, start, e);
      var cache := LookupAll(h, Cache(shared, shared), requests);
      var message := Sent(p, s, Steps(h, start, k), plaintext);
      && Base64.Decoded(Base64.Encoded(message)) == Some(message)
      && Receive(p, s.verify, s.public, cache, message, room).1 == Received(plaintext)
  {
    hide Primitives.Valid, Signer.Valid, RatchetHmac, Steps, LookupAll, Lookup, Wrap32, Sent, OpenedBy, KeysAt, Read,
      Ciphertext, Base64.Encoded, Base64.Decoded, Near;
    var h := RatchetHmac(p);
    var m, shared := Steps(h, start, k), Steps(h, start, e);
    SentReads(p, s, m, plaintext);
    SentOpens(p, s, m, plaintext);
    Base64.RoundTrip(Sent(p, s, m, plaintext));
    SenderFound(h, start, e, k, requests);
  }

  // ----- the code: sending -----

  /** The message stands where it is built once the ciphertext has filled its gap. */
  lemma GapFilled(was: Bytes, mem: Bytes, at: nat, body: Bytes, gap: nat, c: Bytes)
    requires Writing(mem, was, at, body, [Gap(gap, c)])
    ensures gap + |c| <= |mem| && Overwrite(mem, gap, c) == Overwrite(was, at, body)
  {
    hide Overwrite;
    var g := Gap(gap, c);
    assert g in [g];
    assert [g][..0] == [];
    assert Fill(mem, []) == mem;
  }

  /** What lies outside the message is as it was. */
  lemma OutsideKept(was: Bytes, mem: Bytes, at: nat, body: Bytes, gap: nat, c: Bytes, p: nat, n: nat)
    requires |mem| == |was| && at + |body| <= |was| && at <= gap && gap + |c| == at + |body|
    requires Overwrite(mem, gap, c) == Overwrite(was, at, body)
    requires p + n <= |was| && (p + n <= at || at + |body| <= p)
    ensures mem[p..p + n] == was[p..p + n]
  {
    forall k | p <= k < p + n
      ensures mem[k] == was[k]
    {
      assert Overwrite(mem, gap, c)[k] == mem[k] && Overwrite(was, at, body)[k] == was[k];
    }
  }

  /** The ciphertext in its gap and the MAC behind the body. */
  lemma MacFollows(p: Primitives, k: Keys, was: Bytes, mem1: Bytes, mem: Bytes, m: Bytes, at: nat, body: Bytes,
                   gap: nat)
    requires p.Valid() && |k.aes| == 32 && |k.iv| == 16 && gap + CbcLength(|m|) <= |mem1|
    requires at + |body| + MAC_LENGTH <= |was| == |mem1|
    requires Overwrite(mem1, gap, Ciphertext(p, k, m)) == Overwrite(was, at, body)
    requires EncryptedMemory(p, k, mem1, mem, m, gap, at, |body| + MAC_LENGTH)
    ensures PickleEncoding.Stands(mem, at, body + Mac(p, k, body))
  {
    hide Primitives.Valid, Ciphertext, Mac, Overwrite, CbcLength;
    PickleEncoding.TwoOverwrites(was, at, body, Mac(p, k, body));
  }

  lemma SentLength(p: Primitives, s: Signer, m: State<Bytes>, plaintext: Bytes)
    requires p.Valid() && s.Valid() && |m.data| == PARTS
    ensures |Body(p, m, plaintext)| == GroupLength(m.counter, CbcLength(|plaintext|))
    ensures |Authenticated(p, m, plaintext)| == |Body(p, m, plaintext)| + MAC_LENGTH
    ensures |Sent(p, s, m, plaintext)| == |Body(p, m, plaintext)| + MAC_LENGTH + SIGNATURE_LENGTH
    ensures |Ciphertext(p, KeysAt(p, m), plaintext)| == CbcLength(|plaintext|)
  {
    hide Primitives.Valid, KeysAt, Ciphertext, GroupBytes, CbcLength, GroupLength, Mac;
    CiphertextIs(p, KeysAt(p, m), plaintext);
    GroupPieces(PROTOCOL_VERSION, m.counter, Ciphertext(p, KeysAt(p, m), plaintext));
  }

  /** raw_message_length */
  function RawLength(counter: u32, n: nat): nat {
    GroupLength(counter, CbcLength(n)) + MAC_LENGTH + SIGNATURE_LENGTH
  }

  /** _encrypt: the message, its MAC and its signature are put together at one place. */
  method EncryptAt(p: Primitives, s: Signer, ratchet: Ratchet<Bytes>, mem: array<byte>, plaintext: nat, n: nat, at: nat)
    requires p.Valid() && s.Valid() && RatchetReady(p, ratchet)
    requires RawLength(ratchet.counter, n) < TWO32 && at + RawLength(ratchet.counter, n) <= mem.Length
    requires plaintext + n <= mem.Length
    requires plaintext + n <= at || at + RawLength(ratchet.counter, n) <= plaintext
    modifies mem, ratchet`counter, ratchet.data
    ensures RatchetReady(p, ratchet) && ratchet.Value() == Step(ratchet.hmac, old(ratchet.Value()))
    ensures PickleEncoding.Stands(mem[..], at, Sent(p, s, old(ratchet.Value()), old(mem[plaintext..plaintext + n])))
  {
    hide Primitives.Valid, Signer.Valid, KeysAt, Ciphertext, GroupBytes, CbcLength, GroupLength, Mac, DerivedKeys,
      PickleEncoding.Stands, Body, Authenticated, Step, DataOf;
    ghost var m, text := ratchet.Value(), mem[plaintext..plaintext + n];
    SentLength(p, s, m, text);
    BodyAuthenticated(p, m, text);
    KeyLength(m);
    KeysDerived(p, m);
    PartsKept(p, m);
    var key := ratchet.data[0] + ratchet.data[1] + ratchet.data[2] + ratchet.data[3];
    var length := SealBody(p, key, ratchet.counter, mem, plaintext, n, at, text, KeysAt(p, m), Body(p, m, text));
    ratchet.Advance();
    Sign(s, mem, at, length + MAC_LENGTH, Authenticated(p, m, text));
  }

  /** The message structure, the plaintext encrypted into it, and the MAC. */
  method SealBody(p: Primitives, key: Bytes, counter: u32, mem: array<byte>, plaintext: nat, n: nat, at: nat,
                  ghost text: Bytes, ghost k: Keys, ghost body: Bytes) returns (length: nat)
    requires p.Valid() && |key| < TWO32 && k == DerivedKeys(p, GROUP_INFO, key)
    requires body == GroupBytes(PROTOCOL_VERSION, counter, Ciphertext(p, k, text))
    requires |body| == GroupLength(counter, CbcLength(n)) && |body| + MAC_LENGTH < TWO32
    requires plaintext + n <= mem.Length && mem[plaintext..plaintext + n] == text
    requires at + |body| + MAC_LENGTH <= mem.Length && (plaintext + n <= at || at + |body| <= plaintext)
    modifies mem
    ensures length == |body| && PickleEncoding.Stands(mem[..], at, body + Mac(p, k, body))
  {
    hide Primitives.Valid, Ciphertext, GroupBytes, CbcLength, GroupLength, Mac, Writing, EncryptedMemory, DerivedKeys,
      PickleEncoding.Stands, Overwrite;
    ghost var was, c := mem[..], Ciphertext(p, k, text);
    var ciphertextLength := CbcLength(n);
    var gap;
    length, gap := EncodeGroup(mem, at, PROTOCOL_VERSION, counter, ciphertextLength, c);
    GapFilled(was, mem[..], at, body, gap, c);
    StartsBefore(counter, ciphertextLength);
    OutsideKept(was, mem[..], at, body, gap, c, plaintext, n);
    InPlace(mem, plaintext, n);
    ghost var mem1 := mem[..];
    var ok := CipherEncrypt(p, GROUP_INFO, key, mem, plaintext, n, gap, ciphertextLength, at, length + MAC_LENGTH);
    MacFollows(p, k, was, mem1, mem[..], text, at, body, gap);
  }

  lemma InPlace(mem: array<byte>, at: nat, n: nat)
    requires at + n <= mem.Length
    ensures mem[at..at + n] == mem[..][at..at + n]
  {
  }

  lemma KeysDerived(p: Primitives, m: State<Bytes>)
    requires |m.data| == PARTS
    ensures KeysAt(p, m) == DerivedKeys(p, GROUP_INFO, DataOf(m))
  {
    hide DerivedKeys, DataOf;
  }

  lemma BodyAuthenticated(p: Primitives, m: State<Bytes>, plaintext: Bytes)
    requires p.Valid() && |m.data| == PARTS
    ensures Body(p, m, plaintext) == GroupBytes(PROTOCOL_VERSION, m.counter, Ciphertext(p, KeysAt(p, m), plaintext))
    ensures Authenticated(p, m, plaintext) == Body(p, m, plaintext) + Mac(p, KeysAt(p, m), Body(p, m, plaintext))
  {
    hide Primitives.Valid, KeysAt, Ciphertext, GroupBytes, Mac;
  }

  lemma StartsBefore(counter: u32, n: nat)
    ensures n <= GroupLength(counter, n)
  {
  }

  /** A ratchet of four 32-byte parts, rehashed with HMAC-SHA-256. */
  ghost predicate RatchetReady(p: Primitives, ratchet: Ratchet<Bytes>)
    reads ratchet, ratchet.data
  {
    ratchet.Valid() && ratchet.hmac == RatchetHmac(p) && Parts32(ratchet.Value())
  }

  lemma PartsKept(p: Primitives, m: State<Bytes>)
    requires Parts32(m)
    ensures Parts32(Step(RatchetHmac(p), m))
  {
    hide Hkdf.Hmac, Level;
    assert Level(Wrap32(m.counter + 1)) <= 3 by { LevelBelow(Wrap32(m.counter + 1)); }
  }

  lemma LevelBelow(c: u32)
    ensures Level(c) <= 3
  {
  }

  lemma KeyLength(m: State<Bytes>)
    requires Parts32(m)
    ensures DataOf(m) == m.data[0] + m.data[1] + m.data[2] + m.data[3] && |DataOf(m)| == 128
  {
  }

  method Sign(s: Signer, mem: array<byte>, at: nat, n: nat, ghost covered: Bytes)
    requires s.Valid() && |covered| == n && PickleEncoding.Stands(mem[..], at, covered)
    requires at + n + SIGNATURE_LENGTH <= mem.Length
    modifies mem
    ensures PickleEncoding.Stands(mem[..], at, covered + s.sign(covered))
  {
    hide Overwrite;
    ghost var was := mem[..];
    var signature := s.sign(mem[at..at + n]);
    assert mem[at..at + n] == was[at..at + n];
    StoreBytes(mem, at + n, signature);
    Appended(was, at, covered, signature);
  }

  lemma Appended(was: Bytes, at: nat, a: Bytes, b: Bytes)
    requires PickleEncoding.Stands(was, at, a) && at + |a| + |b| <= |was|
    ensures PickleEncoding.Stands(Overwrite(was, at + |a|, b), at, a + b)
  {
    var now := Overwrite(was, at + |a|, b);
    assert was[at..at + |a|] == now[at..at + |a|];
  }

  /** olm_group_encrypt: the message is built at the end of its buffer, and base64 runs over it. The
   *  plaintext lies elsewhere. */
  method GroupEncrypt(p: Primitives, s: Signer, ratchet: Ratchet<Bytes>, mem: array<byte>, plaintext: nat, n: nat,
                      message: nat, room: nat) returns (length: Option<nat>)
    requires p.Valid() && s.Valid() && RatchetReady(p, ratchet) && RawLength(ratchet.counter, n) < TWO32
    requires plaintext + n <= mem.Length && message + room <= mem.Length
    requires plaintext + n <= message || message + room <= plaintext
    modifies mem, ratchet`counter, ratchet.data
    ensures RatchetReady(p, ratchet)
    ensures length == if room < Base64.EncodedLength(RawLength(old(ratchet.counter), n)) then None
                      else Some(Base64.EncodedLength(RawLength(old(ratchet.counter), n)))
    ensures length.None? ==> mem[..] == old(mem[..]) && ratchet.Value() == old(ratchet.Value())
    ensures length.Some? ==>
      && ratchet.Value() == Step(ratchet.hmac, old(ratchet.Value()))
      && PickleEncoding.Stands(mem[..], message,
           Base64.Encoded(Sent(p, s, old(ratchet.Value()), old(mem[plaintext..plaintext + n]))))
  {
    hide Primitives.Valid, Signer.Valid, Base64.Encoded, Base64.EncodedLength, Base64.EncodeOverlap,
      PickleEncoding.Stands, Sent, RawLength, Step;
    ghost var m, text := ratchet.Value(), mem[plaintext..plaintext + n];
    var rawLength := RawLength(ratchet.counter, n);
    var encoded := Base64.EncodedLength(rawLength);
    if room < encoded {
      return None;
    }
    Base64.PromisedOverlaps(rawLength, message);
    var at := message + encoded - rawLength;
    EncryptAt(p, s, ratchet, mem, plaintext, n, at);
    WholeLength(p, s, m, text);
    PickleEncoding.EncodeAt(mem, at, rawLength, message, Sent(p, s, m, text));
    length := Some(encoded);
  }

  lemma WholeLength(p: Primitives, s: Signer, m: State<Bytes>, plaintext: Bytes)
    requires p.Valid() && s.Valid() && |m.data| == PARTS
    ensures |Sent(p, s, m, plaintext)| == RawLength(m.counter, |plaintext|)
  {
    hide Primitives.Valid, Signer.Valid, Body, Authenticated, Sent, GroupLength, CbcLength;
    SentLength(p, s, m, plaintext);
  }

  // ----- the code: receiving -----

  /** The ratchets of a receiver, of 32-byte parts. */
  ghost predicate SessionReady(p: Primitives, session: Inbound<Bytes>)
    reads session, session.initial, session.latest, session.initial.data, session.latest.data
  {
    && session.Valid() && session.latest.hmac == RatchetHmac(p)
    && CacheReady(session.Value())
  }

  ghost predicate CacheReady(cache: Cache<Bytes>) {
    Parts32(cache.initial) && Parts32(cache.latest)
  }

  lemma {:induction false} StepsKeepParts(p: Primitives, m: State<Bytes>, n: nat)
    requires Parts32(m)
    ensures Parts32(Steps(RatchetHmac(p), m, n))
  {
    hide Step, RatchetHmac;
    if n > 0 {
      StepsKeepParts(p, m, n - 1);
      PartsKept(p, Steps(RatchetHmac(p), m, n - 1));
    }
  }

  lemma LookupKeepsParts(p: Primitives, cache: Cache<Bytes>, i: u32)
    requires CacheReady(cache)
    ensures var r := Lookup(RatchetHmac(p), cache, i);
      CacheReady(r.0) && (r.1.Some? ==> Parts32(r.1.value))
  {
    hide Steps, Wrap32, RatchetHmac;
    StepsKeepParts(p, cache.latest, Wrap32(i - cache.latest.counter));
    StepsKeepParts(p, cache.initial, Wrap32(i - cache.initial.counter));
    hide Parts32;
  }

  lemma AuthenticParts(p: Primitives, k: Keys, mem: Bytes, at: nat, raw: Bytes)
    requires PickleEncoding.Stands(mem, at, raw) && |raw| >= MAC_LENGTH + SIGNATURE_LENGTH
    ensures Authentic(p, k, mem, at, |raw| - SIGNATURE_LENGTH) <==> MacPart(raw) == Mac(p, k, CoveredPart(raw))
  {
    hide Mac;
    var end := at + |raw| - SIGNATURE_LENGTH - MAC_LENGTH;
    assert mem[at..end] == CoveredPart(raw);
    forall i | 0 <= i < MAC_LENGTH
      ensures mem[end..end + MAC_LENGTH][i] == MacPart(raw)[i]
    {
      assert mem[at..at + |raw|][end - at + i] == raw[end - at + i];
    }
  }

  ghost predicate OpensTo(p: Primitives, at: State<Bytes>, raw: Bytes, start: nat, length: nat, outcome: Outcome) {
    && p.Valid() && |at.data| == PARTS && start + length <= |raw| && outcome != PastEnd
    && outcome == OpenedBy(p, KeysAt(p, at), CoveredPart(raw), MacPart(raw), raw[start..start + length])
  }

  /** The outcome, by whether the MAC in memory is right. */
  lemma OpensEither(p: Primitives, at: State<Bytes>, raw: Bytes, start: nat, length: nat, outcome: Outcome,
                    mem: Bytes, message: nat)
    requires OpensTo(p, at, raw, start, length, outcome)
    requires PickleEncoding.Stands(mem, message, raw) && |raw| >= MAC_LENGTH + SIGNATURE_LENGTH
    ensures var k, c := KeysAt(p, at), raw[start..start + length];
      && (Authentic(p, k, mem, message, |raw| - SIGNATURE_LENGTH) ==>
            |c| > 0 && |c| % 16 == 0 && outcome == Opening(p, k, c))
      && (!Authentic(p, k, mem, message, |raw| - SIGNATURE_LENGTH) ==> outcome == Refused(BAD_MESSAGE_MAC))
    ensures p.Valid() && |at.data| == PARTS
  {
    hide Primitives.Valid, KeysAt, Mac, Authentic, CoveredPart, MacPart, Opening, PickleEncoding.Stands;
    AuthenticParts(p, KeysAt(p, at), mem, message, raw);
  }

  /** The last step of _decrypt, over the message where it stands. */
  method OpenAt(p: Primitives, at: State<Bytes>, mem: array<byte>, message: nat, n: nat, start: nat, length: nat,
                plaintext: nat, room: nat, ghost raw: Bytes, ghost outcome: Outcome) returns (result: Option<nat>)
    requires Parts32(at) && MAC_LENGTH + SIGNATURE_LENGTH <= n < TWO32 && OpensTo(p, at, raw, start, length, outcome)
    requires |raw| == n && PickleEncoding.Stands(mem[..], message, raw) && start + length <= n && length <= room
    requires plaintext + room <= mem.Length && (plaintext + room <= message || message + n <= plaintext)
    modifies mem
    ensures OpenedIn(mem[..], plaintext, outcome, result)
  {
    hide OpensTo, Primitives.Valid, DerivedKeys, KeysAt, Authentic, DataOf, PickleEncoding.Stands, OpenedIn, Opening,
      Cbc.Overlap;
    OpensEither(p, at, raw, start, length, outcome, mem[..], message);
    KeyLength(at);
    KeysDerived(p, at);
    PartStands(mem, message, raw, start, length);
    Apart(message + start, length, plaintext);
    var key := at.data[0] + at.data[1] + at.data[2] + at.data[3];
    result := OpenWith(p, key, mem, message, n - SIGNATURE_LENGTH, message + start, length, plaintext, room,
                       KeysAt(p, at),
                       raw[start..start + length]);
    NothingOpened(mem[..], plaintext);
  }

  lemma Apart(at: nat, n: nat, plaintext: nat)
    requires plaintext <= at || at + n <= plaintext
    ensures Cbc.Overlap(at, n, plaintext)
  {
  }

  /** What an outcome leaves in memory and returns. */
  ghost predicate OpenedIn(mem: Bytes, at: nat, outcome: Outcome, result: Option<nat>) {
    match outcome
    case Received(text) => result == Some(|text|) && PickleEncoding.Stands(mem, at, text)
    case Refused(_) => result == None
    case PastEnd => true
  }

  lemma NothingOpened(mem: Bytes, at: nat)
    ensures OpenedIn(mem, at, Refused(BAD_MESSAGE_MAC), None)
  {
  }

  lemma PartStands(mem: array<byte>, at: nat, raw: Bytes, start: nat, length: nat)
    requires PickleEncoding.Stands(mem[..], at, raw) && start + length <= |raw|
    ensures at + |raw| <= mem.Length && mem[at + start..at + start + length] == raw[start..start + length]
  {
    SubSlice(mem[..], at, at + |raw|, at + start, at + start + length);
  }

  function Opening(p: Primitives, k: Keys, c: Bytes): Outcome
    requires p.Valid() && |k.aes| == 32 && |k.iv| == 16 && |c| > 0 && |c| % 16 == 0
  {
    var plaintext := Plaintext(p, k, c);
    if plaintext.None? then Refused(BAD_MESSAGE_MAC) else Received(plaintext.value)
  }

  method OpenWith(p: Primitives, key: Bytes, mem: array<byte>, input: nat, inputLength: nat, start: nat, length: nat,
                  plaintext: nat, room: nat, ghost k: Keys, ghost c: Bytes) returns (result: Option<nat>)
    requires p.Valid() && |key| < TWO32 && k == DerivedKeys(p, GROUP_INFO, key) && inputLength < TWO32
    requires input + inputLength <= mem.Length && start + length <= mem.Length && mem[start..start + length] == c
    requires plaintext + room <= mem.Length && length <= room && Cbc.Overlap(start, length, plaintext)
    requires Authentic(p, k, mem[..], input, inputLength) ==> |c| > 0 && |c| % 16 == 0
    modifies mem
    ensures Authentic(p, k, old(mem[..]), input, inputLength) ==> OpenedIn(mem[..], plaintext, Opening(p, k, c), result)
    ensures !Authentic(p, k, old(mem[..]), input, inputLength) ==> result == None
  {
    hide Primitives.Valid, DerivedKeys, Authentic, DecryptedMemory, Opening, Cbc.Overlap, OpenedIn;
    ghost var was := mem[..];
    result := CipherDecrypt(p, GROUP_INFO, key, mem, input, inputLength, start, length, plaintext, room);
    if Authentic(p, k, was, input, inputLength) {
      OpenedMemory(p, k, c, was, mem[..], plaintext, result);
    }
  }

  lemma OpenedMemory(p: Primitives, k: Keys, c: Bytes, was: Bytes, mem: Bytes, at: nat, result: Option<nat>)
    requires DecryptedMemory(p, k, c, was, mem, at, result)
    ensures p.Valid() && |k.aes| == 32 && |k.iv| == 16 && |c| > 0 && |c| % 16 == 0
    ensures OpenedIn(mem, at, Opening(p, k, c), result)
  {
    hide Primitives.Valid, Plaintext, Cbc.SameBut;
  }

  /** The state of a session after a call, and what the caller gets, for an outcome. */
  ghost predicate Settled(outcome: Outcome, verified: bool, wasVerified: bool, lastError: Error, wasError: Error,
                          result: Option<nat>) {
    if outcome.Refused? then result == None && lastError == outcome.error && verified == wasVerified
    else result.Some? && verified && lastError == wasError
  }

  /** _decrypt */
  method DecryptRaw(p: Primitives, verify: (Bytes, Bytes, Bytes) -> bool, session: Inbound<Bytes>, mem: array<byte>,
                    message: nat, n: nat, plaintext: nat, room: nat, ghost raw: Bytes)
    returns (result: Option<nat>, messageIndex: Option<u32>)
    requires p.Valid() && SessionReady(p, session) && n < TWO32
    requires |raw| == n && PickleEncoding.Stands(mem[..], message, raw)
    requires plaintext + room <= mem.Length && (plaintext + room <= message || message + n <= plaintext)
    requires Receive(p, verify, session.signer, session.Value(), raw, room).1 != PastEnd
    modifies mem, session`lastError, session`verified, session.latest`counter, session.latest.data
    ensures SessionReady(p, session)
    ensures var (cache, outcome) := Receive(p, verify, session.signer, old(session.Value()), raw, room);
      && session.Value() == cache && OpenedIn(mem[..], plaintext, outcome, result)
      && Settled(outcome, session.verified, old(session.verified), session.lastError, old(session.lastError), result)
    ensures messageIndex == IndexTold(raw)
    ensures session.verified == (old(session.verified) || result.Some?)
    ensures var outcome := Receive(p, verify, session.signer, old(session.Value()), raw, room).1;
      && result == (if outcome.Received? then Some(|outcome.plaintext|) else None)
      && (outcome.Received? ==> PickleEncoding.Stands(mem[..], plaintext, outcome.plaintext))
  {
    hide Primitives.Valid, KeysAt, Read, OpenedBy, Lookup, Parts32, CoveredPart, MacPart, RatchetHmac,
      PickleEncoding.Stands;
    InWholeArray(mem, message, raw);
    var input := mem[message..message + n];
    var reader := DecodeGroup(input, MAC_LENGTH, SIGNATURE_LENGTH);
    ReaderIsSlots(input, reader);
    hide GroupIndex, GroupCiphertext, GroupHolds;
    messageIndex := None;
    if reader.version != PROTOCOL_VERSION {
      session.lastError := BAD_MESSAGE_VERSION;
      return None, messageIndex;
    }
    if !reader.hasIndex || reader.ciphertext.Null? {
      session.lastError := BAD_MESSAGE_FORMAT;
      return None, messageIndex;
    }
    messageIndex := Some(reader.index);
    var signed := n - SIGNATURE_LENGTH;
    if !verify(session.signer, input[..signed], input[signed..]) {
      session.lastError := BAD_SIGNATURE;
      return None, messageIndex;
    }
    if room < reader.ciphertext.length {
      session.lastError := OUTPUT_BUFFER_TOO_SMALL;
      return None, messageIndex;
    }
    LookupKeepsParts(p, session.Value(), reader.index);
    var at := session.GetMegolm(reader.index);
    if at.None? {
      return None, messageIndex;
    }
    ghost var c := input[reader.ciphertext.start..reader.ciphertext.start + reader.ciphertext.length];
    ghost var outcome := OpenedBy(p, KeysAt(p, at.value), CoveredPart(raw), MacPart(raw), c);
    RefusedIsBadMac(p, KeysAt(p, at.value), CoveredPart(raw), MacPart(raw), c);
    result := OpenAt(p, at.value, mem, message, n, reader.ciphertext.start, reader.ciphertext.length, plaintext, room,
                     raw,
                     outcome);
    if result.None? {
      session.lastError := BAD_MESSAGE_MAC;
      return;
    }
    session.verified := true;
  }

  lemma RefusedIsBadMac(p: Primitives, k: Keys, covered: Bytes, mac: Bytes, c: Bytes)
    requires p.Valid() && |k.aes| == 32 && |k.iv| == 16
    ensures var r := OpenedBy(p, k, covered, mac, c);
      r.Refused? ==> r.error == BAD_MESSAGE_MAC
  {
    hide Primitives.Valid, Mac, Plaintext;
  }

  /** What the characters of a message come to. */
  ghost function Judgement(p: Primitives, verify: (Bytes, Bytes, Bytes) -> bool, signer: Bytes, cache: Cache<Bytes>,
                           chars: Bytes, room: nat): (r: (Cache<Bytes>, Outcome))
    requires p.Valid() && cache.Valid()
    ensures r.0.Valid()
  {
    var raw := Base64.Decoded(chars);
    if raw.None? then (cache, Refused(INVALID_BASE64)) else Receive(p, verify, signer, cache, raw.value, room)
  }

  /** olm_group_decrypt: the message is decoded where it stands. The plaintext goes elsewhere. */
  method GroupDecrypt(p: Primitives, verify: (Bytes, Bytes, Bytes) -> bool, session: Inbound<Bytes>, mem: array<byte>,
                      message: nat, n: nat, plaintext: nat, room: nat, ghost chars: Bytes)
    returns (result: Option<nat>, messageIndex: Option<u32>)
    requires p.Valid() && SessionReady(p, session) && n < TWO32
    requires |chars| == n && PickleEncoding.Stands(mem[..], message, chars)
    requires plaintext + room <= mem.Length && (plaintext + room <= message || message + n <= plaintext)
    requires Judgement(p, verify, session.signer, session.Value(), chars, room).1 != PastEnd
    modifies mem, session`lastError, session`verified, session.latest`counter, session.latest.data
    ensures SessionReady(p, session)
    ensures var (cache, outcome) := Judgement(p, verify, session.signer, old(session.Value()), chars, room);
      && session.Value() == cache && OpenedIn(mem[..], plaintext, outcome, result)
      && Settled(outcome, session.verified, old(session.verified), session.lastError, old(session.lastError), result)
    ensures session.verified == (old(session.verified) || result.Some?)
    ensures var outcome := Judgement(p, verify, session.signer, old(session.Value()), chars, room).1;
      && result == (if outcome.Received? then Some(|outcome.plaintext|) else None)
      && (outcome.Received? ==> PickleEncoding.Stands(mem[..], plaintext, outcome.plaintext))
    ensures messageIndex == (var raw := Base64.Decoded(chars); if raw.None? then None else IndexTold(raw.value))
  {
    hide Primitives.Valid, Receive, IndexTold, Base64.Decoded, PickleEncoding.Stands, RatchetHmac, Parts32;
    var length := PickleEncoding.DecodeAt(mem, message, n, chars);
    if length.None? {
      session.lastError := INVALID_BASE64;
      return None, None;
    }
    result, messageIndex :=
      DecryptRaw(p, verify, session, mem, message, length.value, plaintext, room, Base64.Decoded(chars).value);
  }

  /** What the sender wrote, the receiver reads: EveryMessageArrives in terms of what the two calls return. */
  lemma SentIsJudgedReceived(p: Primitives, s: Signer, start: State<Bytes>, e: nat, k: nat, requests: seq<u32>,
                             plaintext: Bytes, room: nat)
    requires p.Valid() && s.Valid() && start.Valid() && e <= k < e + TWO31
    requires Near(Steps(RatchetHmac(p), start, e).counter, requests)
    requires CbcLength(|plaintext|) <= room && CbcLength(|plaintext|) < TWO64
    ensures var h := RatchetHmac(p);
      var shared := Steps(h, start, e);
      var cache := LookupAll(h, Cache(shared, shared), requests);
      var chars := Base64.Encoded(Sent(p, s, Steps(h, start, k), plaintext));
      Judgement(p, s.verify, s.public, cache, chars, room).1 == Received(plaintext)
  {
    hide Primitives.Valid, Signer.Valid, Receive, Base64.Decoded, Base64.Encoded, RatchetHmac, Steps, LookupAll, Sent,
      Near;
    EveryMessageArrives(p, s, start, e, k, requests, plaintext, room);
  }

  lemma InWholeArray(mem: array<byte>, at: nat, s: Bytes)
    requires PickleEncoding.Stands(mem[..], at, s)
    ensures at + |s| <= mem.Length && mem[at..at + |s|] == s
  {
    PickleEncoding.InArray(mem, at, s);
  }

  lemma ReaderIsSlots(input: Bytes, r: GroupReader)
    requires var (version, slots) := Read(GROUP, input, MAC_LENGTH + SIGNATURE_LENGTH);
      r.version == version && GroupHolds(r, input, EndOf(input, MAC_LENGTH + SIGNATURE_LENGTH), slots)
    ensures var slots := Read(GROUP, input, MAC_LENGTH + SIGNATURE_LENGTH).1;
      && GroupIndex(slots) == (if r.hasIndex then Some(r.index) else None)
      && (r.ciphertext.Null? ==> GroupCiphertext(slots) == None)
      && (r.ciphertext.At? ==>
            && r.ciphertext.start + r.ciphertext.length <= |input|
            && GroupCiphertext(slots) == Some(input[r.ciphertext.start..r.ciphertext.start + r.ciphertext.length]))
    ensures r.version == PROTOCOL_VERSION ==> |input| > MAC_LENGTH + SIGNATURE_LENGTH
  {
    assert |input| <= MAC_LENGTH + SIGNATURE_LENGTH ==> r.version == 0;
    hide ParseAll;
  }
}
