/** The pickles of ratchets, sessions, accounts and group sessions (src/ratchet.cpp, src/session.cpp,
 *  src/account.cpp, src/megolm.c, src/inbound_group_session.c, src/outbound_group_session.c). */
module PickleFormats {
  import opened Words
  import opened Pickle
  import opened PickleEncoding
  import opened CipherSuite
  import Base64

  type Bytes = seq<byte>

  // ----- the double ratchet -----

  datatype Sender = Sender(public: Bytes, private: Bytes, chainKey: Bytes, index: nat)
  datatype Receiver = Receiver(ratchetKey: Bytes, chainKey: Bytes, index: nat)
  datatype Skipped = Skipped(ratchetKey: Bytes, messageKey: Bytes, index: nat)
  datatype RatchetRecord = RatchetRecord(root: Bytes, senders: seq<Sender>, receivers: seq<Receiver>,
                                         skipped: seq<Skipped>)

  function KeyIndex(): Codec<(Bytes, nat)> { Pair(Raw(32), Number(4)) }

  function ToSender(x: ((Bytes, Bytes), (Bytes, nat))): Sender { Sender(x.0.0, x.0.1, x.1.0, x.1.1) }
  function OfSender(v: Sender): ((Bytes, Bytes), (Bytes, nat)) { ((v.public, v.private), (v.chainKey, v.index)) }
  function SenderCodec(): Codec<Sender> { Mapped(Pair(Pair(Raw(32), Raw(32)), KeyIndex()), ToSender, OfSender) }

  function ToReceiver(x: (Bytes, (Bytes, nat))): Receiver { Receiver(x.0, x.1.0, x.1.1) }
  function OfReceiver(v: Receiver): (Bytes, (Bytes, nat)) { (v.ratchetKey, (v.chainKey, v.index)) }
  function ReceiverCodec(): Codec<Receiver> { Mapped(Pair(Raw(32), KeyIndex()), ToReceiver, OfReceiver) }

  function ToSkipped(x: (Bytes, (Bytes, nat))): Skipped { Skipped(x.0, x.1.0, x.1.1) }
  function OfSkipped(v: Skipped): (Bytes, (Bytes, nat)) { (v.ratchetKey, (v.messageKey, v.index)) }
  function SkippedCodec(): Codec<Skipped> { Mapped(Pair(Raw(32), KeyIndex()), ToSkipped, OfSkipped) }

  function ToRatchet(x: (Bytes, (seq<Sender>, (seq<Receiver>, seq<Skipped>)))): RatchetRecord {
    RatchetRecord(x.0, x.1.0, x.1.1.0, x.1.1.1)
  }
  function OfRatchet(v: RatchetRecord): (Bytes, (seq<Sender>, (seq<Receiver>, seq<Skipped>))) {
    (v.root, (v.senders, (v.receivers, v.skipped)))
  }
  function RatchetCodec(): Codec<RatchetRecord> {
    Mapped(Pair(Raw(32), Pair(ListOf(SenderCodec(), 1), Pair(ListOf(ReceiverCodec(), 5), ListOf(SkippedCodec(), 40)))),
           ToRatchet, OfRatchet)
  }

  lemma KeyIndexLawful()
    ensures Lawful(Raw(32)) && Lawful(KeyIndex())
  {
    RawLawful(32);
    NumberLawful(4);
    PairLawful(Raw(32), Number(4));
    hide Lawful;
  }

  lemma ChainsLawful()
    ensures Lawful(SenderCodec()) && Lawful(ReceiverCodec()) && Lawful(SkippedCodec())
  {
    hide Lawful, KeyIndex;
    KeyIndexLawful();
    PairLawful(Raw(32), Raw(32));
    PairLawful(Pair(Raw(32), Raw(32)), KeyIndex());
    MappedLawful(Pair(Pair(Raw(32), Raw(32)), KeyIndex()), ToSender, OfSender);
    PairLawful(Raw(32), KeyIndex());
    MappedLawful(Pair(Raw(32), KeyIndex()), ToReceiver, OfReceiver);
    MappedLawful(Pair(Raw(32), KeyIndex()), ToSkipped, OfSkipped);
  }

  lemma RatchetLawful()
    ensures Lawful(RatchetCodec())
  {
    hide Lawful, SenderCodec, ReceiverCodec, SkippedCodec;
    KeyIndexLawful();
    ChainsLawful();
    var senders, receivers, skipped := ListOf(SenderCodec(), 1), ListOf(ReceiverCodec(), 5), ListOf(SkippedCodec(), 40);
    ListLawful(SenderCodec(), 1);
    ListLawful(ReceiverCodec(), 5);
    ListLawful(SkippedCodec(), 40);
    PairLawful(receivers, skipped);
    PairLawful(senders, Pair(receivers, skipped));
    PairLawful(Raw(32), Pair(senders, Pair(receivers, skipped)));
    MappedLawful(Pair(Raw(32), Pair(senders, Pair(receivers, skipped))), ToRatchet, OfRatchet);
  }

  // ----- sessions -----

  datatype SessionRecord = SessionRecord(received: bool, aliceIdentity: Bytes, aliceBase: Bytes, bobOneTime: Bytes,
                                         bobPrekey: Bytes, ratchet: RatchetRecord)

  function ToSession(x: (bool, (((Bytes, Bytes), (Bytes, Bytes)), RatchetRecord))): SessionRecord {
    SessionRecord(x.0, x.1.0.0.0, x.1.0.0.1, x.1.0.1.0, x.1.0.1.1, x.1.1)
  }
  function OfSession(v: SessionRecord): (bool, (((Bytes, Bytes), (Bytes, Bytes)), RatchetRecord)) {
    (v.received, (((v.aliceIdentity, v.aliceBase), (v.bobOneTime, v.bobPrekey)), v.ratchet))
  }
  function FourKeys(): Codec<((Bytes, Bytes), (Bytes, Bytes))> { Pair(Pair(Raw(32), Raw(32)), Pair(Raw(32), Raw(32))) }

  /** Everything after the version. */
  function SessionBody(): Codec<SessionRecord> {
    Mapped(Pair(Flag(), Pair(FourKeys(), RatchetCodec())), ToSession, OfSession)
  }

  lemma SessionBodyLawful()
    ensures Lawful(SessionBody())
  {
    hide Lawful, RatchetCodec;
    RawLawful(32);
    FlagLawful();
    RatchetLawful();
    PairLawful(Raw(32), Raw(32));
    PairLawful(Pair(Raw(32), Raw(32)), Pair(Raw(32), Raw(32)));
    PairLawful(FourKeys(), RatchetCodec());
    PairLawful(Flag(), Pair(FourKeys(), RatchetCodec()));
    MappedLawful(Pair(Flag(), Pair(FourKeys(), RatchetCodec())), ToSession, OfSession);
  }

  // ----- what a caller learns from unpickling -----

  datatype Unpickled<T> = Ok(value: T) | UnknownVersion | BadLegacy | OlderLayout | Corrupted | ExtraData

  /** The checks that follow every unpickle: a null position, and bytes left over. */
  function Finished<T>(r: Option<(T, nat)>, s: Bytes): Unpickled<T> {
    if r.None? then Corrupted else if r.value.1 != |s| then ExtraData else Ok(r.value.0)
  }

  /** Reading what was written gives it back and uses up every byte; a byte more is noticed. */
  lemma FinishedReads<T(!new)>(c: Codec<T>, v: T, s: Bytes, pos: nat, extra: Bytes)
    requires Lawful(c) && c.ok(v) && pos <= |s| && s[pos..] == c.put(v) + extra
    ensures Finished(c.get(s, pos), s) == if extra == [] then Ok(v) else ExtraData
  {
    assert s[pos..pos + |c.put(v)|] == s[pos..][..|c.put(v)|] == c.put(v);
    assert Holds(s, pos, c.put(v));
    assert Reads(c, v, s, pos);
  }

  const SESSION_VERSION := 1
  const LOGGING_VERSION := 0x8000_0001

  function PutSession(v: SessionRecord): Bytes { BigEndian(4, SESSION_VERSION) + SessionBody().put(v) }

  /** Version 0x80000001 has one number more at the end, which is dropped. */
  function WithDummy(r: Option<(SessionRecord, nat)>, s: Bytes): Option<(SessionRecord, nat)> {
    if r.None? then None
    else
      var dummy := NumberAt(4, s, r.value.1);
      if dummy.None? then None else Some((r.value.0, dummy.value.1))
  }

  /** olm_unpickle_session, after decryption. */
  function GetSession(s: Bytes): Unpickled<SessionRecord> {
    var version := NumberAt(4, s, 0);
    if version.None? then Corrupted
    else if version.value.0 == SESSION_VERSION then Finished(SessionBody().get(s, 4), s)
    else if version.value.0 == LOGGING_VERSION then Finished(WithDummy(SessionBody().get(s, 4), s), s)
    else UnknownVersion
  }

  lemma VersionRead(version: nat, rest: Bytes)
    requires version < TWO32
    ensures var s := BigEndian(4, version) + rest;
      NumberAt(4, s, 0) == Some((version, 4)) && s[4..] == rest
  {
    var s := BigEndian(4, version) + rest;
    assert s[0..0 + 4] == BigEndian(4, version);
    FourBytes(version);
    NumberRoundTrip(4, version);
  }

  lemma SessionRoundTrip(v: SessionRecord, extra: Bytes)
    requires SessionBody().ok(v)
    ensures GetSession(PutSession(v) + extra) == if extra == [] then Ok(v) else ExtraData
  {
    hide BigEndian, SessionBody, NumberAt, Finished;
    SessionBodyLawful();
    var body := SessionBody().put(v);
    assert PutSession(v) + extra == BigEndian(4, SESSION_VERSION) + (body + extra);
    VersionRead(SESSION_VERSION, body + extra);
    FinishedReads(SessionBody(), v, PutSession(v) + extra, 4, extra);
  }

  /** A pickle of the other branch, with any number in the place of its chain index, reads the same. */
  lemma LoggingSessionRead(v: SessionRecord, dummy: nat)
    requires SessionBody().ok(v) && dummy < TWO32
    ensures GetSession(BigEndian(4, LOGGING_VERSION) + SessionBody().put(v) + BigEndian(4, dummy)) == Ok(v)
  {
    hide BigEndian, SessionBody;
    SessionBodyLawful();
    var body, last := SessionBody().put(v), BigEndian(4, dummy);
    var s := BigEndian(4, LOGGING_VERSION) + body + last;
    assert s == BigEndian(4, LOGGING_VERSION) + (body + last);
    VersionRead(LOGGING_VERSION, body + last);
    assert s[4..4 + |body|] == s[4..][..|body|] == body;
    assert Holds(s, 4, body);
    assert Reads(SessionBody(), v, s, 4);
    assert s[4 + |body|..4 + |body| + 4] == s[4..][|body|..] == last;
    FourBytes(dummy);
    NumberRoundTrip(4, dummy);
  }

  /** A session that was pickled under a key unpickles under that key to the same session. */
  lemma SessionPickle(p: Primitives, key: Bytes, v: SessionRecord)
    requires p.Valid() && SessionBody().ok(v)
    ensures var k := DerivedKeys(p, INFO, key);
      var s := Base64.Decoded(Base64.Encoded(Closed(p, k, PutSession(v))));
      && s.Some? && WholeBlocks(p, k, s.value) && Opened(p, k, s.value).Some?
      && GetSession(Opened(p, k, s.value).value) == Ok(v)
  {
    hide DerivedKeys, Closed, Opened, Base64.Decoded, Base64.Encoded, WholeBlocks, PutSession, GetSession, SessionBody,
      Primitives.Valid;
    PickleRoundTrip(p, key, PutSession(v));
    SessionRoundTrip(v, []);
    assert PutSession(v) + [] == PutSession(v);
  }

  // ----- accounts -----

  datatype PrekeyRecord = PrekeyRecord(id: nat, published: bool, public: Bytes, private: Bytes, signature: Bytes)
  datatype OneTimeRecord = OneTimeRecord(id: nat, published: bool, public: Bytes, private: Bytes)

  /** Prekeys and fallback keys are as many as their counts say, the current one first. */
  datatype AccountRecord = AccountRecord(edPublic: Bytes, edPrivate: Bytes, public: Bytes, private: Bytes,
                                         prekeys: seq<PrekeyRecord>, nextPrekeyId: nat, lastPublishTime: nat,
                                         oneTimeKeys: seq<OneTimeRecord>, fallbackKeys: seq<OneTimeRecord>,
                                         nextOneTimeKeyId: nat)

  function ToOneTime(x: ((nat, bool), (Bytes, Bytes))): OneTimeRecord { OneTimeRecord(x.0.0, x.0.1, x.1.0, x.1.1) }
  function OfOneTime(v: OneTimeRecord): ((nat, bool), (Bytes, Bytes)) { ((v.id, v.published), (v.public, v.private)) }
  function IdFlagPair(): Codec<((nat, bool), (Bytes, Bytes))> { Pair(Pair(Number(4), Flag()), Pair(Raw(32), Raw(32))) }
  function OneTimeCodec(): Codec<OneTimeRecord> { Mapped(IdFlagPair(), ToOneTime, OfOneTime) }

  function ToPrekey(x: (((nat, bool), (Bytes, Bytes)), Bytes)): PrekeyRecord {
    PrekeyRecord(x.0.0.0, x.0.0.1, x.0.1.0, x.0.1.1, x.1)
  }
  function OfPrekey(v: PrekeyRecord): (((nat, bool), (Bytes, Bytes)), Bytes) {
    (((v.id, v.published), (v.public, v.private)), v.signature)
  }
  function PrekeyCodec(): Codec<PrekeyRecord> { Mapped(Pair(IdFlagPair(), Raw(64)), ToPrekey, OfPrekey) }

  type AccountParts = (((Bytes, Bytes), (Bytes, Bytes)),
                       ((seq<PrekeyRecord>, (nat, nat)), (seq<OneTimeRecord>, (seq<OneTimeRecord>, nat))))

  function ToAccount(x: AccountParts): AccountRecord {
    AccountRecord(x.0.0.0, x.0.0.1, x.0.1.0, x.0.1.1, x.1.0.0, x.1.0.1.0, x.1.0.1.1, x.1.1.0, x.1.1.1.0, x.1.1.1.1)
  }
  function OfAccount(v: AccountRecord): AccountParts {
    (((v.edPublic, v.edPrivate), (v.public, v.private)),
     ((v.prekeys, (v.nextPrekeyId, v.lastPublishTime)), (v.oneTimeKeys, (v.fallbackKeys, v.nextOneTimeKeyId))))
  }

  function Identities(): Codec<((Bytes, Bytes), (Bytes, Bytes))> {
    Pair(Pair(Raw(32), Raw(64)), Pair(Raw(32), Raw(32)))
  }
  function Prekeys(): Codec<(seq<PrekeyRecord>, (nat, nat))> {
    Pair(Counted(PrekeyCodec()), Pair(Number(4), Number(8)))
  }
  function OneTimes(): Codec<(seq<OneTimeRecord>, (seq<OneTimeRecord>, nat))> {
    Pair(ListOf(OneTimeCodec(), 100), Pair(Counted(OneTimeCodec()), Number(4)))
  }

  function AccountBody(): Codec<AccountRecord> {
    Mapped(Pair(Identities(), Pair(Prekeys(), OneTimes())), ToAccount, OfAccount)
  }

  lemma KeyRecordsLawful()
    ensures Lawful(OneTimeCodec()) && Lawful(PrekeyCodec())
  {
    hide Lawful;
    NumberLawful(4);
    FlagLawful();
    RawLawful(32);
    RawLawful(64);
    PairLawful(Number(4), Flag());
    PairLawful(Raw(32), Raw(32));
    PairLawful(Pair(Number(4), Flag()), Pair(Raw(32), Raw(32)));
    MappedLawful(IdFlagPair(), ToOneTime, OfOneTime);
    PairLawful(IdFlagPair(), Raw(64));
    MappedLawful(Pair(IdFlagPair(), Raw(64)), ToPrekey, OfPrekey);
  }

  lemma AccountPartsLawful()
    ensures Lawful(Identities()) && Lawful(Prekeys()) && Lawful(OneTimes())
  {
    hide Lawful, OneTimeCodec, PrekeyCodec;
    RawLawful(32);
    RawLawful(64);
    NumberLawful(4);
    NumberLawful(8);
    KeyRecordsLawful();
    PairLawful(Raw(32), Raw(64));
    PairLawful(Raw(32), Raw(32));
    PairLawful(Pair(Raw(32), Raw(64)), Pair(Raw(32), Raw(32)));
    CountedLawful(PrekeyCodec());
    PairLawful(Number(4), Number(8));
    PairLawful(Counted(PrekeyCodec()), Pair(Number(4), Number(8)));
    ListLawful(OneTimeCodec(), 100);
    CountedLawful(OneTimeCodec());
    PairLawful(Counted(OneTimeCodec()), Number(4));
    PairLawful(ListOf(OneTimeCodec(), 100), Pair(Counted(OneTimeCodec()), Number(4)));
  }

  lemma AccountBodyLawful()
    ensures Lawful(AccountBody())
  {
    hide Lawful, Identities, Prekeys, OneTimes;
    AccountPartsLawful();
    PairLawful(Prekeys(), OneTimes());
    PairLawful(Identities(), Pair(Prekeys(), OneTimes()));
    MappedLawful(Pair(Identities(), Pair(Prekeys(), OneTimes())), ToAccount, OfAccount);
  }

  const ACCOUNT_VERSION := 10005

  function PutAccount(v: AccountRecord): Bytes { BigEndian(4, ACCOUNT_VERSION) + AccountBody().put(v) }

  /** olm_unpickle_account, after decryption. */
  function GetAccount(s: Bytes): Unpickled<AccountRecord> {
    var version := NumberAt(4, s, 0);
    if version.None? then Corrupted
    else if version.value.0 == ACCOUNT_VERSION then Finished(AccountBody().get(s, 4), s)
    else if version.value.0 in {2, 3, 4} then OlderLayout
    else if version.value.0 == 1 then BadLegacy
    else UnknownVersion
  }

  lemma AccountRoundTrip(v: AccountRecord, extra: Bytes)
    requires AccountBody().ok(v)
    ensures GetAccount(PutAccount(v) + extra) == if extra == [] then Ok(v) else ExtraData
  {
    hide BigEndian, AccountBody, NumberAt, Finished;
    AccountBodyLawful();
    var body := AccountBody().put(v);
    assert PutAccount(v) + extra == BigEndian(4, ACCOUNT_VERSION) + (body + extra);
    VersionRead(ACCOUNT_VERSION, body + extra);
    FinishedReads(AccountBody(), v, PutAccount(v) + extra, 4, extra);
  }

  lemma AccountPickle(p: Primitives, key: Bytes, v: AccountRecord)
    requires p.Valid() && AccountBody().ok(v)
    ensures var k := DerivedKeys(p, INFO, key);
      var s := Base64.Decoded(Base64.Encoded(Closed(p, k, PutAccount(v))));
      && s.Some? && WholeBlocks(p, k, s.value) && Opened(p, k, s.value).Some?
      && GetAccount(Opened(p, k, s.value).value) == Ok(v)
  {
    hide DerivedKeys, Closed, Opened, Base64.Decoded, Base64.Encoded, WholeBlocks, PutAccount, GetAccount, AccountBody,
      Primitives.Valid;
    PickleRoundTrip(p, key, PutAccount(v));
    AccountRoundTrip(v, []);
    assert PutAccount(v) + [] == PutAccount(v);
  }

  // ----- group sessions -----

  datatype MegolmRecord = MegolmRecord(data: Bytes, counter: nat)
  datatype InboundRecord = InboundRecord(initial: MegolmRecord, latest: MegolmRecord, signingKey: Bytes, verified: bool)
  datatype OutboundRecord = OutboundRecord(ratchet: MegolmRecord, signingPublic: Bytes, signingPrivate: Bytes)

  function ToMegolm(x: (Bytes, nat)): MegolmRecord { MegolmRecord(x.0, x.1) }
  function OfMegolm(v: MegolmRecord): (Bytes, nat) { (v.data, v.counter) }
  function MegolmCodec(): Codec<MegolmRecord> { Mapped(Pair(Raw(128), Number(4)), ToMegolm, OfMegolm) }

  function ToInbound(x: ((MegolmRecord, MegolmRecord), (Bytes, bool))): InboundRecord {
    InboundRecord(x.0.0, x.0.1, x.1.0, x.1.1)
  }
  function OfInbound(v: InboundRecord): ((MegolmRecord, MegolmRecord), (Bytes, bool)) {
    ((v.initial, v.latest), (v.signingKey, v.verified))
  }
  function InboundBody(): Codec<InboundRecord> {
    Mapped(Pair(Pair(MegolmCodec(), MegolmCodec()), Pair(Raw(32), Flag())), ToInbound, OfInbound)
  }

  /** Version 1 says nothing of verification, which is then taken to have happened. */
  function ToVerified(x: ((MegolmRecord, MegolmRecord), Bytes)): InboundRecord {
    InboundRecord(x.0.0, x.0.1, x.1, true)
  }
  function FirstInboundBody(s: Bytes, pos: nat): Option<(InboundRecord, nat)> {
    var r := Pair(Pair(MegolmCodec(), MegolmCodec()), Raw(32)).get(s, pos);
    if r.None? then None else Some((ToVerified(r.value.0), r.value.1))
  }

  function ToOutbound(x: (MegolmRecord, (Bytes, Bytes))): OutboundRecord { OutboundRecord(x.0, x.1.0, x.1.1) }
  function OfOutbound(v: OutboundRecord): (MegolmRecord, (Bytes, Bytes)) {
    (v.ratchet, (v.signingPublic, v.signingPrivate))
  }
  function OutboundBody(): Codec<OutboundRecord> {
    Mapped(Pair(MegolmCodec(), Pair(Raw(32), Raw(64))), ToOutbound, OfOutbound)
  }

  lemma GroupLawful()
    ensures Lawful(InboundBody()) && Lawful(OutboundBody())
  {
    hide Lawful;
    RawLawful(128);
    RawLawful(64);
    RawLawful(32);
    NumberLawful(4);
    FlagLawful();
    PairLawful(Raw(128), Number(4));
    MappedLawful(Pair(Raw(128), Number(4)), ToMegolm, OfMegolm);
    hide MegolmCodec;
    PairLawful(MegolmCodec(), MegolmCodec());
    PairLawful(Raw(32), Flag());
    PairLawful(Pair(MegolmCodec(), MegolmCodec()), Pair(Raw(32), Flag()));
    MappedLawful(Pair(Pair(MegolmCodec(), MegolmCodec()), Pair(Raw(32), Flag())), ToInbound, OfInbound);
    PairLawful(Raw(32), Raw(64));
    PairLawful(MegolmCodec(), Pair(Raw(32), Raw(64)));
    MappedLawful(Pair(MegolmCodec(), Pair(Raw(32), Raw(64))), ToOutbound, OfOutbound);
  }

  function PutInbound(v: InboundRecord): Bytes { BigEndian(4, 2) + InboundBody().put(v) }
  function PutOutbound(v: OutboundRecord): Bytes { BigEndian(4, 1) + OutboundBody().put(v) }

  function GetInbound(s: Bytes): Unpickled<InboundRecord> {
    var version := NumberAt(4, s, 0);
    if version.None? then Corrupted
    else if version.value.0 == 2 then Finished(InboundBody().get(s, 4), s)
    else if version.value.0 == 1 then Finished(FirstInboundBody(s, 4), s)
    else UnknownVersion
  }

  function GetOutbound(s: Bytes): Unpickled<OutboundRecord> {
    var version := NumberAt(4, s, 0);
    if version.None? then Corrupted
    else if version.value.0 == 1 then Finished(OutboundBody().get(s, 4), s)
    else UnknownVersion
  }

  lemma InboundRoundTrip(v: InboundRecord, extra: Bytes)
    requires InboundBody().ok(v)
    ensures GetInbound(PutInbound(v) + extra) == if extra == [] then Ok(v) else ExtraData
  {
    hide BigEndian, InboundBody, NumberAt, Finished;
    GroupLawful();
    var body := InboundBody().put(v);
    assert PutInbound(v) + extra == BigEndian(4, 2) + (body + extra);
    VersionRead(2, body + extra);
    FinishedReads(InboundBody(), v, PutInbound(v) + extra, 4, extra);
  }

  lemma OutboundRoundTrip(v: OutboundRecord, extra: Bytes)
    requires OutboundBody().ok(v)
    ensures GetOutbound(PutOutbound(v) + extra) == if extra == [] then Ok(v) else ExtraData
  {
    hide BigEndian, OutboundBody, NumberAt, Finished;
    GroupLawful();
    var body := OutboundBody().put(v);
    assert PutOutbound(v) + extra == BigEndian(4, 1) + (body + extra);
    VersionRead(1, body + extra);
    FinishedReads(OutboundBody(), v, PutOutbound(v) + extra, 4, extra);
  }

  // ----- lengths -----

  /** Every value that can be written takes n bytes. */
  ghost predicate Sized<T(!new)>(c: Codec<T>, n: nat) {
    forall x: T :: c.ok(x) ==> |c.put(x)| == n
  }

  lemma PairSized<A(!new), B(!new)>(a: Codec<A>, b: Codec<B>, n: nat, m: nat)
    requires Sized(a, n) && Sized(b, m)
    ensures Sized(Pair(a, b), n + m)
  {
    var c := Pair(a, b);
    forall x: (A, B) | c.ok(x)
      ensures |c.put(x)| == n + m
    {
      assert a.ok(x.0) && b.ok(x.1);
      assert c.put(x) == a.put(x.0) + b.put(x.1);
    }
  }

  lemma MappedSized<A(!new), B(!new)>(a: Codec<A>, to: A -> B, from: B -> A, n: nat)
    requires Sized(a, n)
    ensures Sized(Mapped(a, to, from), n)
  {
    var c := Mapped(a, to, from);
    forall x: B | c.ok(x)
      ensures |c.put(x)| == n
    {
      assert a.ok(from(x)) && c.put(x) == a.put(from(x));
    }
  }

  lemma {:induction false} PutAllLength<T(!new)>(c: Codec<T>, v: seq<T>, n: nat)
    requires Items(c, v) && Sized(c, n)
    ensures |PutAll(c, v)| == n * |v|
  {
    if v != [] {
      PutAllLength(c, v[1..], n);
      assert n * |v| == n + n * |v[1..]|;
    }
  }

  lemma ChainsSized()
    ensures Sized(SenderCodec(), 100) && Sized(ReceiverCodec(), 68) && Sized(SkippedCodec(), 68)
  {
    assert Sized(Raw(32), 32) && Sized(Number(4), 4);
    hide Sized;
    PairSized(Raw(32), Number(4), 32, 4);
    PairSized(Raw(32), Raw(32), 32, 32);
    PairSized(Pair(Raw(32), Raw(32)), KeyIndex(), 64, 36);
    PairSized(Raw(32), KeyIndex(), 32, 36);
    MappedSized(Pair(Pair(Raw(32), Raw(32)), KeyIndex()), ToSender, OfSender, 100);
    MappedSized(Pair(Raw(32), KeyIndex()), ToReceiver, OfReceiver, 68);
    MappedSized(Pair(Raw(32), KeyIndex()), ToSkipped, OfSkipped, 68);
  }

  function RatchetLength(v: RatchetRecord): nat {
    32 + (4 + 100 * |v.senders|) + (4 + 68 * |v.receivers|) + (4 + 68 * |v.skipped|)
  }

  lemma RatchetOk(v: RatchetRecord)
    requires RatchetCodec().ok(v)
    ensures |v.root| == 32 && Items(SenderCodec(), v.senders) && Items(ReceiverCodec(), v.receivers)
    ensures Items(SkippedCodec(), v.skipped)
    ensures RatchetCodec().put(v)
      == v.root + ((BigEndian(4, |v.senders|) + PutAll(SenderCodec(), v.senders))
                   + ((BigEndian(4, |v.receivers|) + PutAll(ReceiverCodec(), v.receivers))
                      + (BigEndian(4, |v.skipped|) + PutAll(SkippedCodec(), v.skipped))))
  {
    hide SenderCodec, ReceiverCodec, SkippedCodec, BigEndian, PutAll, Items;
    var senders, receivers, skipped := ListOf(SenderCodec(), 1), ListOf(ReceiverCodec(), 5), ListOf(SkippedCodec(), 40);
    var last := Pair(receivers, skipped);
    assert Pair(Raw(32), Pair(senders, last)).ok(OfRatchet(v));
    assert Raw(32).ok(v.root) && Pair(senders, last).ok((v.senders, (v.receivers, v.skipped)));
    assert senders.ok(v.senders) && last.ok((v.receivers, v.skipped));
    assert receivers.ok(v.receivers) && skipped.ok(v.skipped);
  }

  lemma RatchetSize(v: RatchetRecord)
    requires RatchetCodec().ok(v)
    ensures |RatchetCodec().put(v)| == RatchetLength(v)
  {
    RatchetOk(v);
    ChainsSized();
    hide SenderCodec, ReceiverCodec, SkippedCodec, Sized, BigEndian, PutAll, Items, RatchetCodec;
    PutAllLength(SenderCodec(), v.senders, 100);
    PutAllLength(ReceiverCodec(), v.receivers, 68);
    PutAllLength(SkippedCodec(), v.skipped, 68);
  }

  lemma FourKeysSized()
    ensures Sized(FourKeys(), 128)
  {
    assert Sized(Raw(32), 32);
    hide Sized;
    PairSized(Raw(32), Raw(32), 32, 32);
    PairSized(Pair(Raw(32), Raw(32)), Pair(Raw(32), Raw(32)), 64, 64);
  }

  /** pickle_length of a session is exact. */
  lemma SessionLength(v: SessionRecord)
    requires SessionBody().ok(v)
    ensures |PutSession(v)| == 4 + 1 + 4 * 32 + RatchetLength(v.ratchet)
  {
    FourKeysSized();
    hide RatchetCodec, BigEndian, FourKeys;
    var keys := ((v.aliceIdentity, v.aliceBase), (v.bobOneTime, v.bobPrekey));
    var rest := Pair(FourKeys(), RatchetCodec());
    assert Pair(Flag(), rest).ok(OfSession(v));
    assert rest.ok((keys, v.ratchet));
    assert FourKeys().ok(keys) && RatchetCodec().ok(v.ratchet);
    assert SessionBody().put(v)
        == [if v.received then 1 else 0] + (FourKeys().put(keys) + RatchetCodec().put(v.ratchet));
    RatchetSize(v.ratchet);
    hide RatchetLength;
  }

  lemma KeyRecordsSized()
    ensures Sized(OneTimeCodec(), 69) && Sized(PrekeyCodec(), 133) && Sized(Identities(), 160)
  {
    assert Sized(Raw(32), 32) && Sized(Raw(64), 64) && Sized(Number(4), 4) && Sized(Flag(), 1);
    hide Sized;
    PairSized(Number(4), Flag(), 4, 1);
    PairSized(Raw(32), Raw(32), 32, 32);
    PairSized(Raw(32), Raw(64), 32, 64);
    PairSized(Pair(Number(4), Flag()), Pair(Raw(32), Raw(32)), 5, 64);
    PairSized(IdFlagPair(), Raw(64), 69, 64);
    PairSized(Pair(Raw(32), Raw(64)), Pair(Raw(32), Raw(32)), 96, 64);
    MappedSized(IdFlagPair(), ToOneTime, OfOneTime, 69);
    MappedSized(Pair(IdFlagPair(), Raw(64)), ToPrekey, OfPrekey, 133);
  }

  lemma AccountPut(v: AccountRecord)
    requires AccountBody().ok(v)
    ensures Items(PrekeyCodec(), v.prekeys) && Items(OneTimeCodec(), v.oneTimeKeys)
    ensures Items(OneTimeCodec(), v.fallbackKeys)
    ensures Identities().ok(((v.edPublic, v.edPrivate), (v.public, v.private)))
    ensures AccountBody().put(v)
      == Identities().put(((v.edPublic, v.edPrivate), (v.public, v.private)))
         + (([U8(|v.prekeys|)] + PutAll(PrekeyCodec(), v.prekeys)
             + (BigEndian(4, v.nextPrekeyId) + BigEndian(8, v.lastPublishTime)))
            + (BigEndian(4, |v.oneTimeKeys|) + PutAll(OneTimeCodec(), v.oneTimeKeys)
               + ([U8(|v.fallbackKeys|)] + PutAll(OneTimeCodec(), v.fallbackKeys) + BigEndian(4, v.nextOneTimeKeyId))))
  {
    hide OneTimeCodec, PrekeyCodec, PutAll, Items, Identities, BigEndian;
    var identities := ((v.edPublic, v.edPrivate), (v.public, v.private));
    var prekeys := (v.prekeys, (v.nextPrekeyId, v.lastPublishTime));
    var fallbacks := (v.fallbackKeys, v.nextOneTimeKeyId);
    assert Pair(Identities(), Pair(Prekeys(), OneTimes())).ok(OfAccount(v));
    assert Pair(Prekeys(), OneTimes()).ok((prekeys, (v.oneTimeKeys, fallbacks)));
    assert Prekeys().ok(prekeys) && OneTimes().ok((v.oneTimeKeys, fallbacks));
    assert Counted(PrekeyCodec()).ok(v.prekeys) && ListOf(OneTimeCodec(), 100).ok(v.oneTimeKeys);
    assert Pair(Counted(OneTimeCodec()), Number(4)).ok(fallbacks);
    assert Counted(OneTimeCodec()).ok(v.fallbackKeys);
  }

  /** pickle_length of an account is exact. */
  lemma AccountLength(v: AccountRecord)
    requires AccountBody().ok(v)
    ensures |PutAccount(v)| == 4 + 160 + (1 + 133 * |v.prekeys| + 4 + 8) + (4 + 69 * |v.oneTimeKeys|)
                               + (1 + 69 * |v.fallbackKeys|) + 4
  {
    AccountPut(v);
    KeyRecordsSized();
    var identities := ((v.edPublic, v.edPrivate), (v.public, v.private));
    assert |Identities().put(identities)| == 160;
    hide OneTimeCodec, PrekeyCodec, Sized, PutAll, Items, Identities, BigEndian, AccountBody;
    PutAllLength(PrekeyCodec(), v.prekeys, 133);
    PutAllLength(OneTimeCodec(), v.oneTimeKeys, 69);
    PutAllLength(OneTimeCodec(), v.fallbackKeys, 69);
  }

  /** So are those of the group sessions. */
  lemma GroupLength(v: InboundRecord, u: OutboundRecord)
    requires InboundBody().ok(v) && OutboundBody().ok(u)
    ensures |PutInbound(v)| == 4 + 2 * (128 + 4) + 32 + 1
    ensures |PutOutbound(u)| == 4 + (128 + 4) + 32 + 64
  {
    assert Sized(Raw(32), 32) && Sized(Raw(64), 64) && Sized(Raw(128), 128) && Sized(Number(4), 4) && Sized(Flag(), 1);
    GroupSized();
    hide InboundBody, OutboundBody, BigEndian;
  }

  lemma GroupSized()
    requires Sized(Raw(32), 32) && Sized(Raw(64), 64) && Sized(Raw(128), 128) && Sized(Number(4), 4) && Sized(Flag(), 1)
    ensures Sized(InboundBody(), 297) && Sized(OutboundBody(), 228)
  {
    hide Sized;
    PairSized(Raw(128), Number(4), 128, 4);
    MappedSized(Pair(Raw(128), Number(4)), ToMegolm, OfMegolm, 132);
    hide MegolmCodec;
    PairSized(MegolmCodec(), MegolmCodec(), 132, 132);
    PairSized(Raw(32), Flag(), 32, 1);
    PairSized(Pair(MegolmCodec(), MegolmCodec()), Pair(Raw(32), Flag()), 264, 33);
    MappedSized(Pair(Pair(MegolmCodec(), MegolmCodec()), Pair(Raw(32), Flag())), ToInbound, OfInbound, 297);
    PairSized(Raw(32), Raw(64), 32, 64);
    PairSized(MegolmCodec(), Pair(Raw(32), Raw(64)), 132, 96);
    MappedSized(Pair(MegolmCodec(), Pair(Raw(32), Raw(64))), ToOutbound, OfOutbound, 228);
  }
}
