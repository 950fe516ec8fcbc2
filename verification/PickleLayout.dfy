/** The bytes of every pickle, field by field (src/ratchet.cpp, src/session.cpp, src/account.cpp, src/pickle.cpp,
 *  src/inbound_group_session.c, src/outbound_group_session.c), and what is made of other versions. */
module PickleLayout {
  import opened Words
  import opened Pickle
  import opened PickleFormats

  function Byte(b: bool): Bytes { [if b then 1 else 0] }
  function Word(x: nat): Bytes { BigEndian(4, x) }

  // ----- items -----

  lemma PairPut<A(!new), B(!new)>(a: Codec<A>, b: Codec<B>, x: A, y: B)
    ensures Pair(a, b).put((x, y)) == a.put(x) + b.put(y)
  {
  }

  lemma MappedPut<A(!new), B(!new)>(a: Codec<A>, to: A -> B, from: B -> A, v: B)
    ensures Mapped(a, to, from).put(v) == a.put(from(v))
  {
  }

  lemma BasePut(b: Bytes, n: nat, x: nat, f: bool)
    ensures Raw(n).put(b) == b && Number(n).put(x) == BigEndian(n, x) && Flag().put(f) == Byte(f)
  {
    hide BigEndian;
  }

  lemma KeyIndexPut(b: Bytes, x: nat)
    ensures KeyIndex().put((b, x)) == b + Word(x)
  {
    hide Pair, BigEndian, Raw, Number;
    PairPut(Raw(32), Number(4), b, x);
    BasePut(b, 32, x, false);
    BasePut(b, 4, x, false);
  }

  lemma KeyPairPut(n: nat, m: nat, a: Bytes, b: Bytes)
    ensures Pair(Raw(n), Raw(m)).put((a, b)) == a + b
  {
    hide Pair, Raw;
    PairPut(Raw(n), Raw(m), a, b);
    BasePut(a, n, 0, false);
    BasePut(b, m, 0, false);
  }

  lemma Append(a: Bytes, b: Bytes, c: Bytes)
    ensures a + (b + c) == a + b + c
  {
  }

  lemma SenderLayout(x: Sender)
    ensures SenderCodec().put(x) == x.public + x.private + x.chainKey + Word(x.index)
  {
    hide Pair, Mapped, Raw, KeyIndex, Word;
    MappedPut(Pair(Pair(Raw(32), Raw(32)), KeyIndex()), ToSender, OfSender, x);
    PairPut(Pair(Raw(32), Raw(32)), KeyIndex(), (x.public, x.private), (x.chainKey, x.index));
    KeyPairPut(32, 32, x.public, x.private);
    KeyIndexPut(x.chainKey, x.index);
    Append(x.public + x.private, x.chainKey, Word(x.index));
  }

  lemma ReceiverLayout(x: Receiver)
    ensures ReceiverCodec().put(x) == x.ratchetKey + x.chainKey + Word(x.index)
  {
    hide Pair, Mapped, Raw, KeyIndex, Word;
    MappedPut(Pair(Raw(32), KeyIndex()), ToReceiver, OfReceiver, x);
    PairPut(Raw(32), KeyIndex(), x.ratchetKey, (x.chainKey, x.index));
    BasePut(x.ratchetKey, 32, 0, false);
    KeyIndexPut(x.chainKey, x.index);
    Append(x.ratchetKey, x.chainKey, Word(x.index));
  }

  lemma SkippedLayout(x: Skipped)
    ensures SkippedCodec().put(x) == x.ratchetKey + x.messageKey + Word(x.index)
  {
    hide Pair, Mapped, Raw, KeyIndex, Word;
    MappedPut(Pair(Raw(32), KeyIndex()), ToSkipped, OfSkipped, x);
    PairPut(Raw(32), KeyIndex(), x.ratchetKey, (x.messageKey, x.index));
    BasePut(x.ratchetKey, 32, 0, false);
    KeyIndexPut(x.messageKey, x.index);
    Append(x.ratchetKey, x.messageKey, Word(x.index));
  }

  lemma IdFlagPut(id: nat, published: bool, public: Bytes, private: Bytes)
    ensures IdFlagPair().put(((id, published), (public, private))) == Word(id) + Byte(published) + public + private
  {
    hide Pair, Raw, Number, Flag, Word, Byte;
    PairPut(Pair(Number(4), Flag()), Pair(Raw(32), Raw(32)), (id, published), (public, private));
    PairPut(Number(4), Flag(), id, published);
    BasePut([], 4, id, published);
    WordIs(id);
    KeyPairPut(32, 32, public, private);
    Append(Word(id) + Byte(published), public, private);
  }

  lemma WordIs(x: nat)
    ensures Word(x) == BigEndian(4, x)
  {
  }

  lemma OneTimeLayout(x: OneTimeRecord)
    ensures OneTimeCodec().put(x) == Word(x.id) + Byte(x.published) + x.public + x.private
  {
    hide Mapped, IdFlagPair, Word, Byte;
    MappedPut(IdFlagPair(), ToOneTime, OfOneTime, x);
    IdFlagPut(x.id, x.published, x.public, x.private);
  }

  lemma PrekeyLayout(x: PrekeyRecord)
    ensures PrekeyCodec().put(x) == Word(x.id) + Byte(x.published) + x.public + x.private + x.signature
  {
    hide Pair, Mapped, IdFlagPair, Raw, Word, Byte;
    MappedPut(Pair(IdFlagPair(), Raw(64)), ToPrekey, OfPrekey, x);
    PairPut(IdFlagPair(), Raw(64), ((x.id, x.published), (x.public, x.private)), x.signature);
    IdFlagPut(x.id, x.published, x.public, x.private);
    BasePut(x.signature, 64, 0, false);
  }

  lemma MegolmLayout(x: MegolmRecord)
    ensures MegolmCodec().put(x) == x.data + Word(x.counter)
  {
    hide Pair, Mapped, Raw, Number, Word;
    MappedPut(Pair(Raw(128), Number(4)), ToMegolm, OfMegolm, x);
    PairPut(Raw(128), Number(4), x.data, x.counter);
    BasePut(x.data, 128, 0, false);
    BasePut([], 4, x.counter, false);
    WordIs(x.counter);
  }

  /** A list: how many, and then one after the other. */
  lemma ListLayout<T(!new)>(c: Codec<T>, max: nat, v: seq<T>)
    ensures ListOf(c, max).put(v) == Word(|v|) + PutAll(c, v)
    ensures PutAll(c, v) == if v == [] then [] else c.put(v[0]) + PutAll(c, v[1..])
  {
    hide BigEndian;
  }

  /** One or two keys that may be missing: how many in one byte, and then one after the other. */
  lemma CountedLayout<T(!new)>(c: Codec<T>, v: seq<T>)
    requires |v| <= 2
    ensures Counted(c).put(v) == [|v| as byte] + PutAll(c, v)
  {
  }

  /** A count of three or more is refused, whatever follows. */
  lemma CountedAtMostTwo<T(!new)>(c: Codec<T>, s: Bytes, pos: nat)
    requires pos < |s| && s[pos] > 2
    ensures Counted(c).get(s, pos) == None
  {
  }

  /** Any byte but zero reads as true. */
  lemma FlagRead(s: Bytes, pos: nat)
    requires pos < |s|
    ensures Flag().get(s, pos) == Some((s[pos] > 0, pos + 1))
  {
  }

  // ----- whole pickles -----

  lemma RatchetLayout(v: RatchetRecord)
    requires RatchetCodec().ok(v)
    ensures RatchetCodec().put(v)
         == v.root + Word(|v.senders|) + PutAll(SenderCodec(), v.senders)
            + Word(|v.receivers|) + PutAll(ReceiverCodec(), v.receivers)
            + Word(|v.skipped|) + PutAll(SkippedCodec(), v.skipped)
  {
    RatchetOk(v);
    hide BigEndian, PutAll, SenderCodec, ReceiverCodec, SkippedCodec, RatchetCodec, Items;
    var s, r, k := PutAll(SenderCodec(), v.senders), PutAll(ReceiverCodec(), v.receivers),
      PutAll(SkippedCodec(), v.skipped);
    Append(v.root, Word(|v.senders|) + s, Word(|v.receivers|) + r + (Word(|v.skipped|) + k));
    Append(v.root, Word(|v.senders|), s);
    var sent := v.root + Word(|v.senders|) + s;
    Append(sent, Word(|v.receivers|) + r, Word(|v.skipped|) + k);
    Append(sent, Word(|v.receivers|), r);
    Append(sent + Word(|v.receivers|) + r, Word(|v.skipped|), k);
  }

  lemma SessionLayout(v: SessionRecord)
    requires SessionBody().ok(v)
    ensures PutSession(v)
         == Word(1) + Byte(v.received) + v.aliceIdentity + v.aliceBase + v.bobOneTime + v.bobPrekey
            + RatchetCodec().put(v.ratchet)
  {
    hide BigEndian, Byte, Pair, Mapped, Raw, Flag, RatchetCodec;
    var a, b, c, d := v.aliceIdentity, v.aliceBase, v.bobOneTime, v.bobPrekey;
    var keys := ((a, b), (c, d));
    var rest := Pair(FourKeys(), RatchetCodec());
    MappedPut(Pair(Flag(), rest), ToSession, OfSession, v);
    PairPut(Flag(), rest, v.received, (keys, v.ratchet));
    PairPut(FourKeys(), RatchetCodec(), keys, v.ratchet);
    PairPut(Pair(Raw(32), Raw(32)), Pair(Raw(32), Raw(32)), (a, b), (c, d));
    KeyPairPut(32, 32, a, b);
    KeyPairPut(32, 32, c, d);
    BasePut([], 4, 1, v.received);
    var head := Word(1) + Byte(v.received);
    var r := RatchetCodec().put(v.ratchet);
    Append(Word(1), Byte(v.received), a + b + (c + d) + r);
    Append(head, a + b + (c + d), r);
    Append(head, a + b, c + d);
    Append(head, a, b);
    Append(head + a + b, c, d);
  }

  lemma AccountLayout(v: AccountRecord)
    requires AccountBody().ok(v)
    ensures |v.prekeys| <= 2 && |v.fallbackKeys| <= 2
    ensures PutAccount(v)
         == Word(10005) + v.edPublic + v.edPrivate + v.public + v.private
            + [|v.prekeys| as byte] + PutAll(PrekeyCodec(), v.prekeys) + Word(v.nextPrekeyId)
            + BigEndian(8, v.lastPublishTime)
            + Word(|v.oneTimeKeys|) + PutAll(OneTimeCodec(), v.oneTimeKeys)
            + [|v.fallbackKeys| as byte] + PutAll(OneTimeCodec(), v.fallbackKeys) + Word(v.nextOneTimeKeyId)
  {
    AccountPut(v);
    AtMostTwo(v);
    IdentitiesPut(v);
    hide BigEndian, PutAll, PrekeyCodec, OneTimeCodec, AccountBody, Identities, Items, U8;
    var id := v.edPublic + v.edPrivate + v.public + v.private;
    var np, nf, no, last := [|v.prekeys| as byte], [|v.fallbackKeys| as byte], Word(|v.oneTimeKeys|),
      Word(v.nextOneTimeKeyId);
    var p, o, f := PutAll(PrekeyCodec(), v.prekeys), PutAll(OneTimeCodec(), v.oneTimeKeys),
      PutAll(OneTimeCodec(), v.fallbackKeys);
    var t, u := Word(v.nextPrekeyId), BigEndian(8, v.lastPublishTime);
    AccountHead(Word(10005), v.edPublic, v.edPrivate, v.public, v.private,
                np + p + (t + u) + (no + o + (nf + f + last)));
    AccountAppend(Word(10005) + v.edPublic + v.edPrivate + v.public + v.private, np, p, t, u, no, o, nf, f, last);
  }

  lemma AccountHead(w: Bytes, a: Bytes, b: Bytes, c: Bytes, d: Bytes, rest: Bytes)
    ensures w + (a + b + c + d + rest) == w + a + b + c + d + rest
  {
    Append(w, a + b + c + d, rest);
    Append(w, a + b + c, d);
    Append(w, a + b, c);
    Append(w, a, b);
  }

  lemma AccountAppend(h: Bytes, np: Bytes, p: Bytes, t: Bytes, u: Bytes, no: Bytes, o: Bytes, nf: Bytes, f: Bytes,
                      last: Bytes)
    ensures h + (np + p + (t + u) + (no + o + (nf + f + last))) == h + np + p + t + u + no + o + nf + f + last
  {
    Append(h, np + p + (t + u), no + o + (nf + f + last));
    Append(h, np + p, t + u);
    Append(h, np, p);
    Append(h + np + p, t, u);
    var g := h + np + p + t + u;
    Append(g, no + o, nf + f + last);
    Append(g, no, o);
    Append(g + no + o, nf + f, last);
    Append(g + no + o, nf, f);
  }

  lemma AtMostTwo(v: AccountRecord)
    requires AccountBody().ok(v)
    ensures |v.prekeys| <= 2 && |v.fallbackKeys| <= 2
    ensures U8(|v.prekeys|) == |v.prekeys| as byte && U8(|v.fallbackKeys|) == |v.fallbackKeys| as byte
  {
    hide OneTimeCodec, PrekeyCodec, PutAll, Items, Identities, BigEndian;
    var prekeys := (v.prekeys, (v.nextPrekeyId, v.lastPublishTime));
    var fallbacks := (v.fallbackKeys, v.nextOneTimeKeyId);
    assert Pair(Identities(), Pair(Prekeys(), OneTimes())).ok(OfAccount(v));
    assert Pair(Prekeys(), OneTimes()).ok((prekeys, (v.oneTimeKeys, fallbacks)));
    assert Prekeys().ok(prekeys) && OneTimes().ok((v.oneTimeKeys, fallbacks));
    assert Counted(PrekeyCodec()).ok(v.prekeys);
    assert Pair(Counted(OneTimeCodec()), Number(4)).ok(fallbacks);
    assert Counted(OneTimeCodec()).ok(v.fallbackKeys);
  }

  lemma IdentitiesPut(v: AccountRecord)
    ensures Identities().put(((v.edPublic, v.edPrivate), (v.public, v.private)))
         == v.edPublic + v.edPrivate + v.public + v.private
  {
    hide Pair, Raw;
    PairPut(Pair(Raw(32), Raw(64)), Pair(Raw(32), Raw(32)), (v.edPublic, v.edPrivate), (v.public, v.private));
    KeyPairPut(32, 64, v.edPublic, v.edPrivate);
    KeyPairPut(32, 32, v.public, v.private);
    Append(v.edPublic + v.edPrivate, v.public, v.private);
  }

  lemma InboundLayout(v: InboundRecord)
    ensures PutInbound(v)
         == Word(2) + v.initial.data + Word(v.initial.counter) + v.latest.data + Word(v.latest.counter)
            + v.signingKey + Byte(v.verified)
  {
    MegolmLayout(v.initial);
    MegolmLayout(v.latest);
    hide BigEndian, Byte, Pair, Mapped, Raw, Flag, MegolmCodec;
    var m := MegolmCodec();
    var c, d := Pair(m, m), Pair(Raw(32), Flag());
    MappedPut(Pair(c, d), ToInbound, OfInbound, v);
    PairPut(c, d, (v.initial, v.latest), (v.signingKey, v.verified));
    PairPut(m, m, v.initial, v.latest);
    PairPut(Raw(32), Flag(), v.signingKey, v.verified);
    BasePut(v.signingKey, 32, 0, v.verified);
    InboundAppend(Word(2), v.initial.data, Word(v.initial.counter), v.latest.data, Word(v.latest.counter),
                  v.signingKey, Byte(v.verified));
  }

  lemma InboundAppend(w: Bytes, a: Bytes, b: Bytes, c: Bytes, d: Bytes, e: Bytes, f: Bytes)
    ensures w + (a + b + (c + d) + (e + f)) == w + a + b + c + d + e + f
  {
    Append(w, a + b + (c + d), e + f);
    Append(w, a + b, c + d);
    Append(w, a, b);
    Append(w + a + b, c, d);
    Append(w + a + b + c + d, e, f);
  }

  lemma OutboundLayout(u: OutboundRecord)
    ensures PutOutbound(u) == Word(1) + u.ratchet.data + Word(u.ratchet.counter) + u.signingPublic + u.signingPrivate
  {
    MegolmLayout(u.ratchet);
    hide BigEndian, Pair, Mapped, Raw, MegolmCodec;
    var m := MegolmCodec();
    MappedPut(Pair(m, Pair(Raw(32), Raw(64))), ToOutbound, OfOutbound, u);
    PairPut(m, Pair(Raw(32), Raw(64)), u.ratchet, (u.signingPublic, u.signingPrivate));
    KeyPairPut(32, 64, u.signingPublic, u.signingPrivate);
    Append(Word(1), u.ratchet.data, Word(u.ratchet.counter));
    Append(Word(1), u.ratchet.data + Word(u.ratchet.counter), u.signingPublic + u.signingPrivate);
    Append(Word(1) + u.ratchet.data + Word(u.ratchet.counter), u.signingPublic, u.signingPrivate);
  }

  // ----- versions -----

  /** Any other version of a session is refused as unknown, whatever follows it. */
  lemma SessionVersions(version: nat, rest: Bytes)
    requires version < TWO32 && version != 1 && version != 0x8000_0001
    ensures GetSession(Word(version) + rest) == UnknownVersion
  {
    VersionRead(version, rest);
    hide BigEndian, NumberAt;
  }

  /** Account pickles: 10005 is read, 2, 3 and 4 have an older layout, 1 has unsafe keys, others are unknown. */
  lemma AccountVersions(version: nat, rest: Bytes)
    requires version < TWO32
    ensures version == 1 ==> GetAccount(Word(version) + rest) == BadLegacy
    ensures version == 2 || version == 3 || version == 4 ==> GetAccount(Word(version) + rest) == OlderLayout
    ensures (version > 4 && version != 10005) || version == 0 ==> GetAccount(Word(version) + rest) == UnknownVersion
  {
    VersionRead(version, rest);
    hide BigEndian, NumberAt, AccountBody;
  }

  lemma GroupVersions(version: nat, rest: Bytes)
    requires version < TWO32
    ensures version != 1 && version != 2 ==> GetInbound(Word(version) + rest) == UnknownVersion
    ensures version != 1 ==> GetOutbound(Word(version) + rest) == UnknownVersion
  {
    VersionRead(version, rest);
    hide BigEndian, NumberAt, InboundBody, OutboundBody, FirstInboundBody;
  }

  /** An inbound group session of version 1 ends with the key; it is taken to be verified. */
  lemma FirstInbound(v: InboundRecord)
    requires InboundBody().ok(v)
    ensures GetInbound(Word(1) + v.initial.data + Word(v.initial.counter) + v.latest.data + Word(v.latest.counter)
                       + v.signingKey)
         == Ok(v.(verified := true))
  {
    var c := Pair(Pair(MegolmCodec(), MegolmCodec()), Raw(32));
    var x := ((v.initial, v.latest), v.signingKey);
    FirstLawful();
    FirstOk(v);
    MegolmLayout(v.initial);
    MegolmLayout(v.latest);
    var body := c.put(x);
    var s := Word(1) + body;
    assert body == (v.initial.data + Word(v.initial.counter)) + (v.latest.data + Word(v.latest.counter)) + v.signingKey;
    assert s == Word(1) + v.initial.data + Word(v.initial.counter) + v.latest.data + Word(v.latest.counter)
                + v.signingKey;
    VersionRead(1, body);
    hide BigEndian, MegolmCodec, NumberAt;
    assert s[4..4 + |body|] == s[4..] == body;
    assert Holds(s, 4, body);
    assert Reads(c, x, s, 4);
  }

  lemma FirstOk(v: InboundRecord)
    requires InboundBody().ok(v)
    ensures Pair(Pair(MegolmCodec(), MegolmCodec()), Raw(32)).ok(((v.initial, v.latest), v.signingKey))
  {
    hide MegolmCodec;
    assert Pair(Pair(MegolmCodec(), MegolmCodec()), Pair(Raw(32), Flag())).ok(OfInbound(v));
    assert Pair(MegolmCodec(), MegolmCodec()).ok((v.initial, v.latest));
    assert Pair(Raw(32), Flag()).ok((v.signingKey, v.verified));
  }

  lemma FirstLawful()
    ensures Lawful(Pair(Pair(MegolmCodec(), MegolmCodec()), Raw(32)))
  {
    hide Lawful;
    RawLawful(128);
    RawLawful(32);
    NumberLawful(4);
    PairLawful(Raw(128), Number(4));
    MappedLawful(Pair(Raw(128), Number(4)), ToMegolm, OfMegolm);
    hide MegolmCodec;
    PairLawful(MegolmCodec(), MegolmCodec());
    PairLawful(Pair(MegolmCodec(), MegolmCodec()), Raw(32));
  }
}
