/** Session keys and exported keys of group sessions as bytes (src/inbound_group_session.c,
 *  src/outbound_group_session.c). */
module GroupKeys {
  import opened Words
  import opened MessageCodec
  import opened Pickle
  import Megolm
  import GroupSession
  import Base64

  type Bytes = seq<byte>

  const SESSION_KEY_VERSION: byte := 2
  const SESSION_EXPORT_VERSION: byte := 1

  /** 1 + 4 + 128 + 32, and 64 more for a signature. */
  const EXPORT_LENGTH := 165
  const KEY_LENGTH := 229

  datatype GroupKey = GroupKey(counter: u32, data: Bytes, signingKey: Bytes)
  {
    ghost predicate Valid() { |data| == 128 && |signingKey| == 32 }
  }

  datatype Imported = Success(key: GroupKey, verified: bool) | InvalidBase64 | BadSessionKey | BadSignature

  // ----- the layout -----

  function KeyBytes(version: byte, k: GroupKey): Bytes {
    [version] + BigEndian(4, k.counter) + k.data + k.signingKey
  }

  /** The four fields after the version byte. */
  function FieldsOf(buf: Bytes): GroupKey
    requires |buf| >= EXPORT_LENGTH
  {
    GroupKey(FromBigEndian(buf[1..5]) % TWO32, buf[5..133], buf[133..165])
  }

  /** _init_group_session_keys; verify tells whether the signature over the key is good. */
  function InitKeys(buf: Bytes, exportFormat: bool, verify: (Bytes, Bytes, Bytes) -> bool): Imported
    requires |buf| == if exportFormat then EXPORT_LENGTH else KEY_LENGTH
  {
    if buf[0] != (if exportFormat then SESSION_EXPORT_VERSION else SESSION_KEY_VERSION) then BadSessionKey
    else if exportFormat then Success(FieldsOf(buf), false)
    else if verify(FieldsOf(buf).signingKey, buf[..165], buf[165..]) then Success(FieldsOf(buf), true)
    else BadSignature
  }

  /** olm_import_inbound_group_session, and olm_init_inbound_group_session for a shared session key. */
  function Import(chars: Bytes, exportFormat: bool, verify: (Bytes, Bytes, Bytes) -> bool): Imported {
    var raw := Base64.Decoded(chars);
    if raw.None? then InvalidBase64
    else if |raw.value| != (if exportFormat then EXPORT_LENGTH else KEY_LENGTH) then BadSessionKey
    else InitKeys(raw.value, exportFormat, verify)
  }

  lemma KeyBytesFields(version: byte, k: GroupKey, rest: Bytes)
    requires k.Valid()
    ensures var buf := KeyBytes(version, k) + rest;
      |buf| == EXPORT_LENGTH + |rest| && buf[0] == version && FieldsOf(buf) == k
      && buf[..165] == KeyBytes(version, k) && buf[165..] == rest
  {
    var buf := KeyBytes(version, k) + rest;
    assert buf[1..5] == BigEndian(4, k.counter);
    FourBytes(k.counter);
    NumberRoundTrip(4, k.counter);
    hide BigEndian, FromBigEndian;
  }

  /** What was exported is imported, in full. */
  lemma ExportImport(k: GroupKey, verify: (Bytes, Bytes, Bytes) -> bool)
    requires k.Valid()
    ensures Import(Base64.Encoded(KeyBytes(SESSION_EXPORT_VERSION, k)), true, verify) == Success(k, false)
  {
    hide Base64.Encoded, Base64.Decoded;
    var b := KeyBytes(SESSION_EXPORT_VERSION, k);
    Base64.RoundTrip(b);
    KeyBytesFields(SESSION_EXPORT_VERSION, k, []);
    assert b + [] == b;
    hide KeyBytes, FieldsOf;
  }

  /** A shared session key is accepted just when its signature is good. */
  lemma SharedKey(k: GroupKey, signature: Bytes, verify: (Bytes, Bytes, Bytes) -> bool)
    requires k.Valid() && |signature| == 64
    ensures var b := KeyBytes(SESSION_KEY_VERSION, k);
      Import(Base64.Encoded(b + signature), false, verify)
        == if verify(k.signingKey, b, signature) then Success(k, true) else BadSignature
  {
    hide Base64.Encoded, Base64.Decoded;
    var b := KeyBytes(SESSION_KEY_VERSION, k);
    Base64.RoundTrip(b + signature);
    KeyBytesFields(SESSION_KEY_VERSION, k, signature);
    hide KeyBytes, FieldsOf;
  }

  /** Neither kind of key passes for the other. */
  lemma KindsDoNotMix(k: GroupKey, signature: Bytes, verify: (Bytes, Bytes, Bytes) -> bool)
    requires k.Valid() && |signature| == 64
    ensures Import(Base64.Encoded(KeyBytes(SESSION_EXPORT_VERSION, k)), false, verify) == BadSessionKey
    ensures Import(Base64.Encoded(KeyBytes(SESSION_KEY_VERSION, k) + signature), true, verify) == BadSessionKey
  {
    hide Base64.Encoded, Base64.Decoded;
    Base64.RoundTrip(KeyBytes(SESSION_EXPORT_VERSION, k));
    Base64.RoundTrip(KeyBytes(SESSION_KEY_VERSION, k) + signature);
    hide BigEndian, FieldsOf;
  }

  function FourDigits(a: int, b: int, c: int, d: int): int { a * 0x100_0000 + b * 0x1_0000 + c * 0x100 + d }

  /** docs/megolm.md: the version, the counter most significant byte first, the ratchet and the public key. */
  lemma KeyLayout(version: byte, k: GroupKey)
    requires k.Valid()
    ensures var b := KeyBytes(version, k);
      && |b| == 165 && b[0] == version
      && k.counter == FourDigits(b[1], b[2], b[3], b[4])
      && b[5..133] == k.data && b[133..165] == k.signingKey
  {
    CounterIs(k.counter);
    hide BigEndian;
  }

  lemma CounterIs(c: u32)
    ensures var b := BigEndian(4, c);
      |b| == 4 && c == FourDigits(b[0], b[1], b[2], b[3])
  {
    Whole(c);
    BytesOf(c / 256 / 256 / 256, c / 256 / 256 % 256, c / 256 % 256, c % 256);
    hide BigEndian;
  }

  lemma NumberOf(s: Bytes)
    requires |s| >= 5
    ensures FromBigEndian(s[1..5]) % TWO32 == FourDigits(s[1], s[2], s[3], s[4])
  {
    var b := s[1..5];
    assert b[..3][..2] == b[..2] && b[..2][..1] == b[..1] && b[..1][..0] == [];
    assert FromBigEndian(b[..1]) == s[1];
    assert FromBigEndian(b[..2]) == FourDigits(0, 0, s[1], s[2]);
    assert FromBigEndian(b[..3]) == FourDigits(0, s[1], s[2], s[3]);
  }

  /** On arbitrary characters: the length and the version have to be right, and the signature of a session key that
   *  is shared; an exported key carries none, and is not verified by its import. */
  lemma ImportIff(chars: Bytes, exportFormat: bool, verify: (Bytes, Bytes, Bytes) -> bool)
    ensures var imported := Import(chars, exportFormat, verify);
      var decoded := Base64.Decoded(chars);
      && (imported.InvalidBase64? <==> decoded.None?)
      && (decoded.Some? ==>
            var s := decoded.value;
            var shaped := if exportFormat then |s| == 165 && s[0] == 1 else |s| == 229 && s[0] == 2;
            var signed := exportFormat || (shaped && verify(s[133..165], s[..165], s[165..]));
            && (imported.BadSessionKey? <==> !shaped)
            && (imported.BadSignature? <==> shaped && !signed)
            && (imported.Success? <==> shaped && signed)
            && (imported.Success? ==>
                  && imported.verified == !exportFormat
                  && imported.key.counter == FourDigits(s[1], s[2], s[3], s[4])
                  && imported.key.data == s[5..133] && imported.key.signingKey == s[133..165]))
  {
    hide Base64.Decoded, FromBigEndian;
    var decoded := Base64.Decoded(chars);
    if decoded.Some? {
      var s := decoded.value;
      if |s| == 165 || |s| == 229 {
        FieldsAre(s);
        hide FieldsOf;
      }
    }
  }

  lemma FieldsAre(s: Bytes)
    requires |s| >= 165
    ensures FieldsOf(s).counter == FourDigits(s[1], s[2], s[3], s[4])
    ensures FieldsOf(s).data == s[5..133] && FieldsOf(s).signingKey == s[133..165]
  {
    NumberOf(s);
    hide FromBigEndian;
  }

  // ----- a ratchet as bytes -----

  ghost predicate Parts32(m: Megolm.State<Bytes>) {
    |m.data| == 4 && |m.data[0]| == 32 && |m.data[1]| == 32 && |m.data[2]| == 32 && |m.data[3]| == 32
  }

  function DataOf(m: Megolm.State<Bytes>): Bytes
    requires |m.data| == 4
  {
    m.data[0] + m.data[1] + m.data[2] + m.data[3]
  }

  /** megolm_init */
  function StateOf(k: GroupKey): Megolm.State<Bytes>
    requires |k.data| == 128
  {
    Megolm.State([k.data[..32], k.data[32..64], k.data[64..96], k.data[96..]], k.counter)
  }

  lemma StateThroughBytes(m: Megolm.State<Bytes>, signer: Bytes)
    requires Parts32(m)
    ensures |DataOf(m)| == 128 && StateOf(GroupKey(m.counter, DataOf(m), signer)) == m
  {
    var d := DataOf(m);
    assert d[..32] == m.data[0] && d[32..64] == m.data[1] && d[64..96] == m.data[2] && d[96..] == m.data[3];
  }

  /** A session exported at i as characters and imported elsewhere holds, at every index from i on, the
   *  ratchet that the original holds there. */
  lemma ExportedSessionAgrees(h: Megolm.Hmac<Bytes>, initial: Megolm.State<Bytes>, signer: Bytes, i: u32, j: u32,
                              verify: (Bytes, Bytes, Bytes) -> bool)
    requires initial.Valid() && |signer| == 32
    requires Parts32(GroupSession.RatchetAt(h, initial, i))
    requires Wrap32(i - initial.counter) <= Wrap32(j - initial.counter)
    ensures var m := GroupSession.RatchetAt(h, initial, i);
      var chars := Base64.Encoded(KeyBytes(SESSION_EXPORT_VERSION, GroupKey(i, DataOf(m), signer)));
      var imported := Import(chars, true, verify);
      && imported.Success? && |imported.key.data| == 128 && imported.key.signingKey == signer
      && StateOf(imported.key).Valid()
      && GroupSession.RatchetAt(h, StateOf(imported.key), j) == GroupSession.RatchetAt(h, initial, j)
  {
    var m := GroupSession.RatchetAt(h, initial, i);
    GroupSession.ExportAgrees(h, initial, i, j);
    StateThroughBytes(m, signer);
    hide GroupSession.RatchetAt, DataOf, StateOf, Import, KeyBytes, Base64.Encoded;
    ExportImport(GroupKey(i, DataOf(m), signer), verify);
  }

  // ----- exporting in place -----

  /** The counter after i shifts of the writing loop, which drops what passes 32 bits. */
  function Left(counter: u32, i: nat): u32 {
    if i == 0 then counter else Left(counter, i - 1) * 256 % TWO32
  }

  ghost predicate TopByte(counter: u32, i: nat) {
    |BigEndian(4, counter)| == 4 && i < 4 && U8(Left(counter, i) / TWO24) == BigEndian(4, counter)[i]
  }

  lemma BytesOf(a: byte, b: byte, d: byte, e: byte)
    ensures BigEndian(4, a * TWO24 + b * TWO16 + d * TWO8 + e) == [a, b, d, e]
  {
    var x := a * TWO24 + b * TWO16 + d * TWO8 + e;
    assert x / 256 == a * TWO16 + b * TWO8 + d;
    assert x / 256 / 256 == a * TWO8 + b;
    assert x / 256 / 256 / 256 == a;
    assert BigEndian(1, a) == BigEndian(0, 0) + [a];
    assert BigEndian(2, x / 256 / 256) == BigEndian(1, a) + [b];
    assert BigEndian(3, x / 256) == BigEndian(2, x / 256 / 256) + [d];
  }

  lemma Shifts(a: byte, b: byte, d: byte, e: byte)
    ensures var c := a * TWO24 + b * TWO16 + d * TWO8 + e;
      Left(c, 0) / TWO24 == a && Left(c, 1) / TWO24 == b && Left(c, 2) / TWO24 == d && Left(c, 3) / TWO24 == e
  {
    var c := a * TWO24 + b * TWO16 + d * TWO8 + e;
    assert Left(c, 0) == c;
    assert Left(c, 1) == b * TWO24 + d * TWO16 + e * TWO8;
    assert Left(c, 2) == d * TWO24 + e * TWO16;
    assert Left(c, 3) == e * TWO24;
  }

  lemma Whole(c: u32)
    ensures var x, y, a := c / 256, c / 256 / 256, c / 256 / 256 / 256;
      a < 256 && c == a * TWO24 + (y % 256) * TWO16 + (x % 256) * TWO8 + c % 256
  {
  }

  /** Taking the top byte and shifting left writes the number most significant byte first. */
  lemma CounterBytes(counter: u32)
    ensures forall i :: 0 <= i < 4 ==> TopByte(counter, i)
  {
    var x, y, a := counter / 256, counter / 256 / 256, counter / 256 / 256 / 256;
    var b, d, e := y % 256, x % 256, counter % 256;
    Whole(counter);
    BytesOf(a, b, d, e);
    Shifts(a, b, d, e);
    hide BigEndian, Left;
    forall i | 0 <= i < 4
      ensures TopByte(counter, i)
    {
      assert i == 0 || i == 1 || i == 2 || i == 3;
    }
  }

  method StoreCounter(out: array<byte>, at: nat, counter: u32)
    requires at + 4 <= out.Length
    modifies out
    ensures out[..] == Overwrite(old(out[..]), at, BigEndian(4, counter))
  {
    CounterBytes(counter);
    NoShift(counter);
    hide BigEndian, Left;
    ghost var was := out[..];
    var x := counter;
    for i := 0 to 4
      invariant x == Left(counter, i)
      invariant forall k :: 0 <= k < i ==> out[at + k] == BigEndian(4, counter)[k]
      invariant forall k :: 0 <= k < out.Length && !(at <= k < at + i) ==> out[k] == was[k]
    {
      assert TopByte(counter, i);
      out[at + i] := U8(x / TWO24);
      x := x * 256 % TWO32;
      Doubled(counter, i);
    }
    assert TopByte(counter, 0);
    assert out[at..at + 4] == BigEndian(4, counter);
    StoredIs(was, out[..], at, BigEndian(4, counter));
  }

  lemma Doubled(counter: u32, i: nat)
    ensures Left(counter, i + 1) == Left(counter, i) * 256 % TWO32
  {
  }

  lemma NoShift(counter: u32)
    ensures Left(counter, 0) == counter
  {
  }

  /** memcpy */
  method StoreBytes(out: array<byte>, at: nat, b: Bytes)
    requires at + |b| <= out.Length
    modifies out
    ensures out[..] == Overwrite(old(out[..]), at, b)
  {
    ghost var was := out[..];
    forall k | 0 <= k < |b| { out[at + k] := b[k]; }
    assert out[at..at + |b|] == b;
    StoredIs(was, out[..], at, b);
  }

  /** The fields stored one behind the other make up the key bytes. */
  lemma FieldsInOrder(was: Bytes, at: nat, k: GroupKey, counter: Bytes)
    requires |counter| == 4 && |k.data| == 128 && |k.signingKey| == 32 && at + EXPORT_LENGTH <= |was|
    ensures var v := [SESSION_EXPORT_VERSION];
      Overwrite(Overwrite(Overwrite(Overwrite(was, at, v), at + 1, counter), at + 5, k.data), at + 133, k.signingKey)
        == Overwrite(was, at, v + counter + k.data + k.signingKey)
  {
    hide Overwrite;
    var v := [SESSION_EXPORT_VERSION];
    OverwriteChain(was, at, v, counter);
    OverwriteChain(was, at, v + counter, k.data);
    OverwriteChain(was, at, v + counter + k.data, k.signingKey);
  }

  lemma StandsAfter(s: Bytes, at: nat, b: Bytes)
    requires at + |b| <= |s|
    ensures Overwrite(s, at, b)[at..at + |b|] == b
  {
  }

  lemma KeptOutside(s: Bytes, at: nat, b: Bytes)
    requires at + |b| <= |s|
    ensures forall i :: 0 <= i < |s| && !(at <= i < at + |b|) ==> Overwrite(s, at, b)[i] == s[i]
  {
  }

  /** The writing half of olm_export_inbound_group_session: raw bytes at the end of the output, then
   *  base64 over them. */
  method ExportKey(out: array<byte>, k: GroupKey) returns (length: nat)
    requires k.Valid() && out.Length >= Base64.EncodedLength(EXPORT_LENGTH)
    modifies out
    ensures length == Base64.EncodedLength(EXPORT_LENGTH)
    ensures out[..length] == Base64.Encoded(KeyBytes(SESSION_EXPORT_VERSION, k))
    ensures forall i :: length <= i < out.Length ==> out[i] == old(out[i])
  {
    Base64.PromisedOverlaps(EXPORT_LENGTH, 0);
    hide BigEndian, KeyBytes, Base64.Encoded, Base64.EncodedLength, Base64.EncodeOverlap;
    length := Base64.EncodedLength(EXPORT_LENGTH);
    var raw := length - EXPORT_LENGTH;
    ghost var was := out[..];
    StoreKey(out, raw, k);
    KeptOutside(was, raw, KeyBytes(SESSION_EXPORT_VERSION, k));
    StandsAfter(was, raw, KeyBytes(SESSION_EXPORT_VERSION, k));
    hide Overwrite;
    assert out[raw..raw + EXPORT_LENGTH] == out[..][raw..raw + EXPORT_LENGTH];
    var end := Base64.EncodeBase64(out, raw, EXPORT_LENGTH, 0);
  }

  /** Version, index, ratchet and signing key, one behind the other. */
  method StoreKey(out: array<byte>, at: nat, k: GroupKey)
    requires k.Valid() && at + EXPORT_LENGTH <= out.Length
    modifies out
    ensures |KeyBytes(SESSION_EXPORT_VERSION, k)| == EXPORT_LENGTH
    ensures out[..] == Overwrite(old(out[..]), at, KeyBytes(SESSION_EXPORT_VERSION, k))
  {
    CounterLength(k);
    hide BigEndian, Overwrite;
    ghost var was := out[..];
    StoreBytes(out, at, [SESSION_EXPORT_VERSION]);
    StoreCounter(out, at + 1, k.counter);
    StoreBytes(out, at + 5, k.data);
    StoreBytes(out, at + 133, k.signingKey);
    FieldsInOrder(was, at, k, BigEndian(4, k.counter));
  }

  lemma CounterLength(k: GroupKey)
    ensures |BigEndian(4, k.counter)| == 4
  {
  }
}
