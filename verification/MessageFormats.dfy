/** The normal, pre-key and group message formats of src/message.cpp. */
module MessageFormats {
  import opened Words
  import opened Message
  import opened MessageCodec

  // tags of a normal message
  const RATCHET_KEY_TAG: byte := 0x0A
  const COUNTER_TAG: byte := 0x10
  const CIPHERTEXT_TAG: byte := 0x22
  const NORMAL := {RATCHET_KEY_TAG, COUNTER_TAG, CIPHERTEXT_TAG}

  // tags of a pre-key message
  const ONE_TIME_KEY_TAG: byte := 0x0A
  const PREKEY_TAG: byte := 0x2A
  const BASE_KEY_TAG: byte := 0x12
  const IDENTITY_KEY_TAG: byte := 0x1A
  const MESSAGE_TAG: byte := 0x22
  const PRE_KEY := {ONE_TIME_KEY_TAG, PREKEY_TAG, BASE_KEY_TAG, IDENTITY_KEY_TAG, MESSAGE_TAG}

  // tags of a group message
  const INDEX_TAG: byte := 0x08
  const GROUP_CIPHERTEXT_TAG: byte := 0x12
  const GROUP := {INDEX_TAG, GROUP_CIPHERTEXT_TAG}

  // ----- what a message means -----

  /** A message read from input whose last `trailer` bytes are MAC and signature: its version
   *  byte (0 when there is none) and the slots of its known fields. */
  function Read(known: set<byte>, input: seq<byte>, trailer: nat): (byte, Slots) {
    if |input| <= trailer then (0, map[])
    else (input[0], ParseAll(known, input[1..|input| - trailer], map[]))
  }

  /** Where the fields end and the trailer begins. */
  function EndOf(input: seq<byte>, trailer: nat): nat {
    if |input| <= trailer then 0 else |input| - trailer
  }

  function Written(version: byte, fields: seq<Field>): seq<byte> {
    [version] + Concat(fields)
  }

  /** Reading any well-formed message: the version and the last value of every known field. */
  lemma ReadWritten(known: set<byte>, version: byte, fields: seq<Field>, trailer: seq<byte>)
    requires KnownTags(known) && forall f :: f in fields ==> f.Valid()
    ensures Read(known, Written(version, fields) + trailer, |trailer|)
         == (version, KeepAll(known, map[], fields))
  {
    var input := Written(version, fields) + trailer;
    assert input[1..|input| - |trailer|] == Concat(fields);
    ParseFields(known, fields, map[]);
  }

  /** A well-formed unknown field anywhere between the fields of a message is not seen. */
  lemma UnknownFieldInMessage(known: set<byte>, version: byte, a: seq<Field>, u: Field, b: seq<Field>,
                              trailer: seq<byte>)
    requires KnownTags(known) && u.Valid() && Unknown(known, u)
    requires forall f :: f in a + b ==> f.Valid()
    ensures Read(known, Written(version, a + [u] + b) + trailer, |trailer|)
         == Read(known, Written(version, a + b) + trailer, |trailer|)
  {
    hide Read, Written;
    assert forall f :: f in a + [u] + b ==> f in a + b || f == u;
    ReadWritten(known, version, a + [u] + b, trailer);
    ReadWritten(known, version, a + b, trailer);
    UnknownNotKept(known, a, u, b);
  }

  lemma StrOfValid(tag: byte, value: seq<byte>)
    requires tag < 128 && tag % 8 == 2 && |value| < TWO64
    ensures StrOf(tag, value).Valid()
  {
    EncodeVarintIsVarint(|value|);
  }

  lemma NumOfValid(tag: byte, number: u32)
    requires tag < 128 && tag % 8 == 0
    ensures NumOf(tag, number).Valid()
    ensures VarintValue(NumOf(tag, number).number) % TWO32 == number
  {
    EncodeVarintIsVarint(number);
  }

  lemma KeepLast(known: set<byte>, fs: seq<Field>, f: Field)
    ensures KeepAll(known, map[], fs + [f]) == Keep(known, KeepAll(known, map[], fs), f)
  {
    KeepAllSplits(known, map[], fs, [f]);
    assert [f][1..] == [];
  }

  lemma {:induction false} ConcatLast(fs: seq<Field>, f: Field)
    ensures Concat(fs + [f]) == Concat(fs) + f.Bytes()
  {
    if fs == [] {
      assert fs + [f] == [f] && [f][1..] == [];
    } else {
      assert (fs + [f])[1..] == fs[1..] + [f];
      ConcatLast(fs[1..], f);
      Regrouped(fs[0].Bytes(), Concat(fs[1..]), f.Bytes());
    }
  }

  lemma Regrouped(a: seq<byte>, b: seq<byte>, c: seq<byte>)
    ensures a + (b + c) == a + b + c
  {
  }

  // ----- normal messages -----

  function NormalFields(key: seq<byte>, counter: u32, ciphertext: seq<byte>): seq<Field> {
    [StrOf(RATCHET_KEY_TAG, key), NumOf(COUNTER_TAG, counter), StrOf(CIPHERTEXT_TAG, ciphertext)]
  }

  function NormalBytes(version: byte, key: seq<byte>, counter: u32, ciphertext: seq<byte>): seq<byte> {
    Written(version, NormalFields(key, counter, ciphertext))
  }

  lemma NormalRoundTrip(version: byte, key: seq<byte>, counter: u32, ciphertext: seq<byte>, mac: seq<byte>)
    requires |key| < TWO64 && |ciphertext| < TWO64
    ensures Read(NORMAL, NormalBytes(version, key, counter, ciphertext) + mac, |mac|)
         == (version, map[RATCHET_KEY_TAG := Str(key), COUNTER_TAG := Num(counter),
                          CIPHERTEXT_TAG := Str(ciphertext)])
  {
    var fs := NormalFields(key, counter, ciphertext);
    StrOfValid(RATCHET_KEY_TAG, key);
    NumOfValid(COUNTER_TAG, counter);
    StrOfValid(CIPHERTEXT_TAG, ciphertext);
    ReadWritten(NORMAL, version, fs, mac);
    hide StrOf, NumOf;
    assert fs == [] + [fs[0]] + [fs[1]] + [fs[2]];
    KeepLast(NORMAL, [] + [fs[0]] + [fs[1]], fs[2]);
    KeepLast(NORMAL, [] + [fs[0]], fs[1]);
    KeepLast(NORMAL, [], fs[0]);
  }

  /** encode_message_length */
  function NormalLength(counter: u32, keyLength: nat, ciphertextLength: nat, macLength: nat): nat {
    1 + (1 + VarintLength(keyLength) + keyLength) + (1 + VarintLength(counter))
      + (1 + VarintLength(ciphertextLength) + ciphertextLength) + macLength
  }

  lemma NormalLengthExact(version: byte, key: seq<byte>, counter: u32, ciphertext: seq<byte>, mac: seq<byte>)
    ensures |NormalBytes(version, key, counter, ciphertext) + mac|
         == NormalLength(counter, |key|, |ciphertext|, |mac|)
  {
    EncodeVarintIsVarint(|key|);
    EncodeVarintIsVarint(counter);
    EncodeVarintIsVarint(|ciphertext|);
    NormalPieces(version, key, counter, ciphertext);
  }

  /** encode_message: once the key and the ciphertext are stored where the writer says, the
   *  buffer holds the message at start and is otherwise as before. */
  method EncodeNormal(output: array<byte>, start: nat, version: byte, counter: u32,
                      keyLength: nat, ciphertextLength: nat,
                      ghost key: seq<byte>, ghost ciphertext: seq<byte>)
    returns (keyAt: nat, ciphertextAt: nat)
    requires |key| == keyLength && |ciphertext| == ciphertextLength
    requires start + NormalLength(counter, keyLength, ciphertextLength, 0) <= output.Length
    modifies output
    ensures Writing(output[..], old(output[..]), start, NormalBytes(version, key, counter, ciphertext),
                    [Gap(keyAt, key), Gap(ciphertextAt, ciphertext)])
  {
    ghost var was := output[..];
    ghost var key', counter', ciphertext' := StrOf(RATCHET_KEY_TAG, key).Bytes(), NumOf(COUNTER_TAG, counter).Bytes(),
                                             StrOf(CIPHERTEXT_TAG, ciphertext).Bytes();
    NormalPieces(version, key, counter, ciphertext);
    hide Writing, NormalBytes, StrOf, NumOf, VarintLength;
    var pos;
    ghost var done;
    pos, done := EncodeVersion(output, start, version);
    keyAt, pos := EncodeStr(output, pos, RATCHET_KEY_TAG, keyLength, key, was, start, done, []);
    pos := EncodeNum(output, pos, COUNTER_TAG, counter, was, start, done + key', [] + [Gap(keyAt, key)]);
    ciphertextAt, pos := EncodeStr(output, pos, CIPHERTEXT_TAG, ciphertextLength, ciphertext,
                                   was, start, done + key' + counter', [] + [Gap(keyAt, key)]);
    assert [] + [Gap(keyAt, key)] + [Gap(ciphertextAt, ciphertext)] == [Gap(keyAt, key), Gap(ciphertextAt, ciphertext)];
  }

  lemma NormalPieces(version: byte, key: seq<byte>, counter: u32, ciphertext: seq<byte>)
    ensures NormalBytes(version, key, counter, ciphertext)
         == [version] + StrOf(RATCHET_KEY_TAG, key).Bytes() + NumOf(COUNTER_TAG, counter).Bytes()
            + StrOf(CIPHERTEXT_TAG, ciphertext).Bytes()
  {
    var fs := NormalFields(key, counter, ciphertext);
    assert fs == [] + [fs[0]] + [fs[1]] + [fs[2]];
    ConcatLast([] + [fs[0]] + [fs[1]], fs[2]);
    ConcatLast([] + [fs[0]], fs[1]);
    ConcatLast([], fs[0]);
  }


  /** The fields of a reader, positions into the input. */
  datatype NormalReader = NormalReader(version: byte, hasCounter: bool, counter: u32,
                                       ratchetKey: Slice, ciphertext: Slice)

  ghost predicate NormalHolds(r: NormalReader, input: seq<byte>, end: nat, slots: Slots) {
    && NumHolds(r.counter, r.hasCounter, slots, COUNTER_TAG)
    && SliceHolds(input, end, r.ratchetKey, slots, RATCHET_KEY_TAG)
    && SliceHolds(input, end, r.ciphertext, slots, CIPHERTEXT_TAG)
  }

  /** One turn of the loop of decode_message. */
  method NormalPass(input: seq<byte>, start: nat, end: nat, r: NormalReader, ghost slots: Slots)
    returns (pos: nat, r': NormalReader, ghost slots': Slots)
    requires start < end <= |input|
    requires NormalHolds(r, input, end, slots)
    ensures start < pos <= end && r'.version == r.version
    ensures NormalHolds(r', input, end, slots')
    ensures Remaining(NORMAL, input, pos, end, slots') == Remaining(NORMAL, input, start, end, slots)
  {
    hide Remaining, SliceHolds, NumHolds, SkipUnknown;
    var ratchetKey, counter, hasCounter, ciphertext;
    pos, ratchetKey, slots' := DecodeStr(input, start, end, RATCHET_KEY_TAG, r.ratchetKey, NORMAL, slots);
    pos, counter, hasCounter, slots' := DecodeNum(input, pos, end, COUNTER_TAG, r.counter, r.hasCounter, NORMAL,
                                                  slots');
    pos, ciphertext, slots' := DecodeStr(input, pos, end, CIPHERTEXT_TAG, r.ciphertext, NORMAL, slots');
    r' := NormalReader(r.version, hasCounter, counter, ratchetKey, ciphertext);
    if pos == start {
      pos := SkipUnknownAt(input, start, end);
      SkippedRemains(NORMAL, input, start, pos, end, slots');
    }
  }

  /** decode_message: every slice handed out lies before the MAC. */
  method DecodeNormal(input: seq<byte>, macLength: nat) returns (r: NormalReader)
    ensures var (version, slots) := Read(NORMAL, input, macLength);
            r.version == version && NormalHolds(r, input, EndOf(input, macLength), slots)
  {
    r := NormalReader(0, false, 0, Null, Null);
    if |input| <= macLength {
      return;
    }
    var end := |input| - macLength;
    r := r.(version := input[0]);
    var pos := 1;
    ghost var slots: Slots := map[];
    while pos != end
      invariant 1 <= pos <= end && r.version == input[0]
      invariant NormalHolds(r, input, end, slots)
      invariant Remaining(NORMAL, input, pos, end, slots) == Remaining(NORMAL, input, 1, end, map[])
      decreases end - pos
    {
      pos, r, slots := NormalPass(input, pos, end, r, slots);
    }
  }

  // ----- pre-key messages -----

  /** The five byte strings of a pre-key message. */
  datatype PreKeyParts = PreKeyParts(prekey: seq<byte>, oneTimeKey: seq<byte>, baseKey: seq<byte>,
                                     identityKey: seq<byte>, message: seq<byte>)

  function PreKeyFields(p: PreKeyParts): seq<Field> {
    [StrOf(PREKEY_TAG, p.prekey), StrOf(ONE_TIME_KEY_TAG, p.oneTimeKey), StrOf(BASE_KEY_TAG, p.baseKey),
     StrOf(IDENTITY_KEY_TAG, p.identityKey), StrOf(MESSAGE_TAG, p.message)]
  }

  function PreKeyBytes(version: byte, p: PreKeyParts): seq<byte> {
    Written(version, PreKeyFields(p))
  }

  lemma PreKeyRoundTrip(version: byte, p: PreKeyParts)
    requires |p.prekey| < TWO64 && |p.oneTimeKey| < TWO64 && |p.baseKey| < TWO64
    requires |p.identityKey| < TWO64 && |p.message| < TWO64
    ensures Read(PRE_KEY, PreKeyBytes(version, p), 0)
         == (version, map[PREKEY_TAG := Str(p.prekey), ONE_TIME_KEY_TAG := Str(p.oneTimeKey),
                          BASE_KEY_TAG := Str(p.baseKey), IDENTITY_KEY_TAG := Str(p.identityKey),
                          MESSAGE_TAG := Str(p.message)])
  {
    var fs := PreKeyFields(p);
    StrOfValid(PREKEY_TAG, p.prekey);
    StrOfValid(ONE_TIME_KEY_TAG, p.oneTimeKey);
    StrOfValid(BASE_KEY_TAG, p.baseKey);
    StrOfValid(IDENTITY_KEY_TAG, p.identityKey);
    StrOfValid(MESSAGE_TAG, p.message);
    ReadWritten(PRE_KEY, version, fs, []);
    assert PreKeyBytes(version, p) + [] == PreKeyBytes(version, p);
    PreKeyKept(fs);
  }

  lemma PreKeyKept(fs: seq<Field>)
    requires |fs| == 5
    ensures KeepAll(PRE_KEY, map[], fs)
         == Keep(PRE_KEY, Keep(PRE_KEY, Keep(PRE_KEY, Keep(PRE_KEY, Keep(PRE_KEY, map[], fs[0]), fs[1]), fs[2]), fs[3]),
                 fs[4])
  {
    hide KeepAll, Keep;
    assert fs == [] + [fs[0]] + [fs[1]] + [fs[2]] + [fs[3]] + [fs[4]];
    KeepLast(PRE_KEY, [] + [fs[0]] + [fs[1]] + [fs[2]] + [fs[3]], fs[4]);
    KeepLast(PRE_KEY, [] + [fs[0]] + [fs[1]] + [fs[2]], fs[3]);
    KeepLast(PRE_KEY, [] + [fs[0]] + [fs[1]], fs[2]);
    KeepLast(PRE_KEY, [] + [fs[0]], fs[1]);
    KeepLast(PRE_KEY, [], fs[0]);
    KeepNone(PRE_KEY);
  }

  lemma KeepNone(known: set<byte>)
    ensures KeepAll(known, map[], []) == map[]
  {
  }

  lemma PreKeyPieces(version: byte, p: PreKeyParts)
    ensures PreKeyBytes(version, p)
         == [version] + StrOf(PREKEY_TAG, p.prekey).Bytes() + StrOf(ONE_TIME_KEY_TAG, p.oneTimeKey).Bytes()
            + StrOf(BASE_KEY_TAG, p.baseKey).Bytes() + StrOf(IDENTITY_KEY_TAG, p.identityKey).Bytes()
            + StrOf(MESSAGE_TAG, p.message).Bytes()
  {
    hide StrOf;
    var fs := PreKeyFields(p);
    assert fs == [] + [fs[0]] + [fs[1]] + [fs[2]] + [fs[3]] + [fs[4]];
    ConcatLast([] + [fs[0]] + [fs[1]] + [fs[2]] + [fs[3]], fs[4]);
    ConcatLast([] + [fs[0]] + [fs[1]] + [fs[2]], fs[3]);
    ConcatLast([] + [fs[0]] + [fs[1]], fs[2]);
    ConcatLast([] + [fs[0]], fs[1]);
    ConcatLast([], fs[0]);
  }

  /** varstring_length, with its tag */
  function StrLengthOnWire(length: nat): nat { 1 + VarintLength(length) + length }

  /** encode_one_time_key_message_length */
  function PreKeyLength(prekey: nat, oneTimeKey: nat, baseKey: nat, identityKey: nat, message: nat): nat {
    1 + StrLengthOnWire(prekey) + StrLengthOnWire(oneTimeKey) + StrLengthOnWire(identityKey)
      + StrLengthOnWire(baseKey) + StrLengthOnWire(message)
  }

  lemma PreKeyLengthExact(version: byte, p: PreKeyParts)
    ensures |PreKeyBytes(version, p)|
         == PreKeyLength(|p.prekey|, |p.oneTimeKey|, |p.baseKey|, |p.identityKey|, |p.message|)
  {
    PreKeyPieces(version, p);
    EncodeVarintIsVarint(|p.prekey|);
    EncodeVarintIsVarint(|p.oneTimeKey|);
    EncodeVarintIsVarint(|p.baseKey|);
    EncodeVarintIsVarint(|p.identityKey|);
    EncodeVarintIsVarint(|p.message|);
  }

  /** Where the caller stores the parts. */
  datatype PreKeyPlaces = PreKeyPlaces(prekey: nat, oneTimeKey: nat, baseKey: nat, identityKey: nat, message: nat)

  ghost function PreKeyGaps(at: PreKeyPlaces, p: PreKeyParts): seq<Gap> {
    [] + [Gap(at.prekey, p.prekey)] + [Gap(at.oneTimeKey, p.oneTimeKey)] + [Gap(at.baseKey, p.baseKey)]
      + [Gap(at.identityKey, p.identityKey)] + [Gap(at.message, p.message)]
  }

  /** encode_one_time_key_message */
  method EncodePreKey(output: array<byte>, start: nat, version: byte, identityKeyLength: nat, baseKeyLength: nat,
                      prekeyLength: nat, oneTimeKeyLength: nat, messageLength: nat, ghost p: PreKeyParts)
    returns (at: PreKeyPlaces)
    requires |p.prekey| == prekeyLength && |p.oneTimeKey| == oneTimeKeyLength && |p.baseKey| == baseKeyLength
    requires |p.identityKey| == identityKeyLength && |p.message| == messageLength
    requires start + PreKeyLength(prekeyLength, oneTimeKeyLength, baseKeyLength, identityKeyLength, messageLength)
          <= output.Length
    modifies output
    ensures Writing(output[..], old(output[..]), start, PreKeyBytes(version, p), PreKeyGaps(at, p))
  {
    ghost var was := output[..];
    PreKeyPieces(version, p);
    ghost var f1, f2, f3, f4 := StrOf(PREKEY_TAG, p.prekey).Bytes(), StrOf(ONE_TIME_KEY_TAG, p.oneTimeKey).Bytes(),
      StrOf(BASE_KEY_TAG, p.baseKey).Bytes(), StrOf(IDENTITY_KEY_TAG, p.identityKey).Bytes();
    hide Writing, PreKeyBytes, StrOf, VarintLength;
    var prekey, oneTimeKey, baseKey, identityKey, message;
    ghost var done;
    var pos;
    pos, done := EncodeVersion(output, start, version);
    ghost var gaps: seq<Gap> := [];
    prekey, pos := EncodeStr(output, pos, PREKEY_TAG, prekeyLength, p.prekey, was, start, done, gaps);
    done, gaps := done + f1, gaps + [Gap(prekey, p.prekey)];
    oneTimeKey, pos := EncodeStr(output, pos, ONE_TIME_KEY_TAG, oneTimeKeyLength, p.oneTimeKey, was, start, done, gaps);
    done, gaps := done + f2, gaps + [Gap(oneTimeKey, p.oneTimeKey)];
    baseKey, pos := EncodeStr(output, pos, BASE_KEY_TAG, baseKeyLength, p.baseKey, was, start, done, gaps);
    done, gaps := done + f3, gaps + [Gap(baseKey, p.baseKey)];
    identityKey, pos := EncodeStr(output, pos, IDENTITY_KEY_TAG, identityKeyLength, p.identityKey, was, start, done,
                                  gaps);
    done, gaps := done + f4, gaps + [Gap(identityKey, p.identityKey)];
    message, pos := EncodeStr(output, pos, MESSAGE_TAG, messageLength, p.message, was, start, done, gaps);
    at := PreKeyPlaces(prekey, oneTimeKey, baseKey, identityKey, message);
  }

  datatype PreKeyReader = PreKeyReader(version: byte, prekey: Slice, oneTimeKey: Slice, baseKey: Slice,
                                       identityKey: Slice, message: Slice)

  ghost predicate PreKeyHolds(r: PreKeyReader, input: seq<byte>, slots: Slots) {
    && SliceHolds(input, |input|, r.prekey, slots, PREKEY_TAG)
    && SliceHolds(input, |input|, r.oneTimeKey, slots, ONE_TIME_KEY_TAG)
    && SliceHolds(input, |input|, r.baseKey, slots, BASE_KEY_TAG)
    && SliceHolds(input, |input|, r.identityKey, slots, IDENTITY_KEY_TAG)
    && SliceHolds(input, |input|, r.message, slots, MESSAGE_TAG)
  }

  /** One turn of the loop of decode_one_time_key_message. */
  method PreKeyPass(input: seq<byte>, start: nat, r: PreKeyReader, ghost slots: Slots)
    returns (pos: nat, r': PreKeyReader, ghost slots': Slots)
    requires start < |input| && PreKeyHolds(r, input, slots)
    ensures start < pos <= |input| && r'.version == r.version
    ensures PreKeyHolds(r', input, slots')
    ensures Remaining(PRE_KEY, input, pos, |input|, slots') == Remaining(PRE_KEY, input, start, |input|, slots)
  {
    hide Remaining, SliceHolds, NumHolds, SkipUnknown;
    var end := |input|;
    var prekey, oneTimeKey, baseKey, identityKey, message;
    pos, prekey, slots' := DecodeStr(input, start, end, PREKEY_TAG, r.prekey, PRE_KEY, slots);
    pos, oneTimeKey, slots' := DecodeStr(input, pos, end, ONE_TIME_KEY_TAG, r.oneTimeKey, PRE_KEY, slots');
    pos, baseKey, slots' := DecodeStr(input, pos, end, BASE_KEY_TAG, r.baseKey, PRE_KEY, slots');
    pos, identityKey, slots' := DecodeStr(input, pos, end, IDENTITY_KEY_TAG, r.identityKey, PRE_KEY, slots');
    pos, message, slots' := DecodeStr(input, pos, end, MESSAGE_TAG, r.message, PRE_KEY, slots');
    r' := PreKeyReader(r.version, prekey, oneTimeKey, baseKey, identityKey, message);
    if pos == start {
      pos := SkipUnknownAt(input, start, end);
      SkippedRemains(PRE_KEY, input, start, pos, end, slots');
    }
  }

  /** decode_one_time_key_message */
  method DecodePreKey(input: seq<byte>) returns (r: PreKeyReader)
    ensures var (version, slots) := Read(PRE_KEY, input, 0);
            r.version == version && PreKeyHolds(r, input, slots)
  {
    r := PreKeyReader(0, Null, Null, Null, Null, Null);
    if |input| == 0 {
      return;
    }
    r := r.(version := input[0]);
    var pos := 1;
    ghost var slots: Slots := map[];
    while pos != |input|
      invariant 1 <= pos <= |input| && r.version == input[0]
      invariant PreKeyHolds(r, input, slots)
      invariant Remaining(PRE_KEY, input, pos, |input|, slots) == Remaining(PRE_KEY, input, 1, |input|, map[])
      decreases |input| - pos
    {
      pos, r, slots := PreKeyPass(input, pos, r, slots);
    }
  }

  // ----- group messages -----

  function GroupFields(index: u32, ciphertext: seq<byte>): seq<Field> {
    [NumOf(INDEX_TAG, index), StrOf(GROUP_CIPHERTEXT_TAG, ciphertext)]
  }

  function GroupBytes(version: byte, index: u32, ciphertext: seq<byte>): seq<byte> {
    Written(version, GroupFields(index, ciphertext))
  }

  lemma GroupRoundTrip(version: byte, index: u32, ciphertext: seq<byte>, trailer: seq<byte>)
    requires |ciphertext| < TWO64
    ensures Read(GROUP, GroupBytes(version, index, ciphertext) + trailer, |trailer|)
         == (version, map[INDEX_TAG := Num(index), GROUP_CIPHERTEXT_TAG := Str(ciphertext)])
  {
    var fs := GroupFields(index, ciphertext);
    NumOfValid(INDEX_TAG, index);
    StrOfValid(GROUP_CIPHERTEXT_TAG, ciphertext);
    ReadWritten(GROUP, version, fs, trailer);
    assert fs == [] + [fs[0]] + [fs[1]];
    KeepLast(GROUP, [] + [fs[0]], fs[1]);
    KeepLast(GROUP, [], fs[0]);
  }

  /** _olm_encode_group_message_length, without MAC and signature */
  function GroupLength(index: u32, ciphertextLength: nat): nat {
    1 + 1 + VarintLength(index) + StrLengthOnWire(ciphertextLength)
  }

  lemma GroupPieces(version: byte, index: u32, ciphertext: seq<byte>)
    ensures GroupBytes(version, index, ciphertext)
         == [version] + NumOf(INDEX_TAG, index).Bytes() + StrOf(GROUP_CIPHERTEXT_TAG, ciphertext).Bytes()
    ensures |GroupBytes(version, index, ciphertext)| == GroupLength(index, |ciphertext|)
  {
    var fs := GroupFields(index, ciphertext);
    assert fs == [] + [fs[0]] + [fs[1]];
    ConcatLast([] + [fs[0]], fs[1]);
    ConcatLast([], fs[0]);
    EncodeVarintIsVarint(index);
    EncodeVarintIsVarint(|ciphertext|);
  }

  /** _olm_encode_group_message */
  method EncodeGroup(output: array<byte>, start: nat, version: byte, index: u32, ciphertextLength: nat,
                     ghost ciphertext: seq<byte>)
    returns (length: nat, ciphertextAt: nat)
    requires |ciphertext| == ciphertextLength
    requires start + GroupLength(index, ciphertextLength) <= output.Length
    modifies output
    ensures length == GroupLength(index, ciphertextLength) && ciphertextAt + ciphertextLength == start + length
    ensures Writing(output[..], old(output[..]), start, GroupBytes(version, index, ciphertext),
                    [Gap(ciphertextAt, ciphertext)])
  {
    ghost var was := output[..];
    GroupPieces(version, index, ciphertext);
    ghost var index' := NumOf(INDEX_TAG, index).Bytes();
    hide Writing, GroupBytes, StrOf, NumOf, VarintLength;
    ghost var done;
    var pos;
    pos, done := EncodeVersion(output, start, version);
    pos := EncodeNum(output, pos, INDEX_TAG, index, was, start, done, []);
    ciphertextAt, pos := EncodeStr(output, pos, GROUP_CIPHERTEXT_TAG, ciphertextLength, ciphertext,
                                   was, start, done + index', []);
    assert [] + [Gap(ciphertextAt, ciphertext)] == [Gap(ciphertextAt, ciphertext)];
    length := pos - start;
  }

  datatype GroupReader = GroupReader(version: byte, hasIndex: bool, index: u32, ciphertext: Slice)

  ghost predicate GroupHolds(r: GroupReader, input: seq<byte>, end: nat, slots: Slots) {
    && NumHolds(r.index, r.hasIndex, slots, INDEX_TAG)
    && SliceHolds(input, end, r.ciphertext, slots, GROUP_CIPHERTEXT_TAG)
  }

  /** One turn of the loop of _olm_decode_group_message. */
  method GroupPass(input: seq<byte>, start: nat, end: nat, r: GroupReader, ghost slots: Slots)
    returns (pos: nat, r': GroupReader, ghost slots': Slots)
    requires start < end <= |input| && GroupHolds(r, input, end, slots)
    ensures start < pos <= end && r'.version == r.version
    ensures GroupHolds(r', input, end, slots')
    ensures Remaining(GROUP, input, pos, end, slots') == Remaining(GROUP, input, start, end, slots)
  {
    hide Remaining, SliceHolds, NumHolds, SkipUnknown;
    var index, hasIndex, ciphertext;
    pos, index, hasIndex, slots' := DecodeNum(input, start, end, INDEX_TAG, r.index, r.hasIndex, GROUP, slots);
    pos, ciphertext, slots' := DecodeStr(input, pos, end, GROUP_CIPHERTEXT_TAG, r.ciphertext, GROUP, slots');
    r' := GroupReader(r.version, hasIndex, index, ciphertext);
    if pos == start {
      pos := SkipUnknownAt(input, start, end);
      SkippedRemains(GROUP, input, start, pos, end, slots');
    }
  }

  /** _olm_decode_group_message: the trailer is the MAC and the signature. */
  method DecodeGroup(input: seq<byte>, macLength: nat, signatureLength: nat) returns (r: GroupReader)
    ensures var (version, slots) := Read(GROUP, input, macLength + signatureLength);
            r.version == version && GroupHolds(r, input, EndOf(input, macLength + signatureLength), slots)
  {
    r := GroupReader(0, false, 0, Null);
    var trailer := macLength + signatureLength;
    if |input| <= trailer {
      return;
    }
    var end := |input| - trailer;
    r := r.(version := input[0]);
    var pos := 1;
    ghost var slots: Slots := map[];
    while pos != end
      invariant 1 <= pos <= end && r.version == input[0]
      invariant GroupHolds(r, input, end, slots)
      invariant Remaining(GROUP, input, pos, end, slots) == Remaining(GROUP, input, 1, end, map[])
      decreases end - pos
    {
      pos, r, slots := GroupPass(input, pos, end, r, slots);
    }
  }
}
