/** The wire formats (src/message.cpp): varints, tagged fields, the tolerant field parser, and
 *  the three message formats built on them. */
module Message {
  import opened Words

  // ----- varints -----

  function EncodeVarint(n: nat): (s: seq<byte>)
    ensures |s| >= 1
  {
    if n < 128 then [n] else [n % 128 + 128] + EncodeVarint(n / 128)
  }

  /** varint_length */
  function VarintLength(n: nat): nat {
    if n < 128 then 1 else 1 + VarintLength(n / 128)
  }

  /** The bytes varint_skip consumes: through the first byte without its high bit, or all. */
  function SkipVarint(s: seq<byte>): (n: nat)
    ensures n <= |s|
    ensures s != [] ==> n >= 1
  {
    if s == [] then 0 else if s[0] < 128 then 1 else 1 + SkipVarint(s[1..])
  }

  /** The number whose base-128 digits, least significant first, are the low seven bits. */
  function VarintValue(s: seq<byte>): nat {
    if s == [] then 0 else s[0] % 128 + 128 * VarintValue(s[1..])
  }

  /** A complete varint: every byte but the last has its high bit set. */
  ghost predicate IsVarint(s: seq<byte>) {
    s != [] && SkipVarint(s) == |s| && s[|s| - 1] < 128
  }

  lemma {:induction false} EncodeVarintIsVarint(n: nat)
    ensures IsVarint(EncodeVarint(n)) && VarintValue(EncodeVarint(n)) == n
    ensures |EncodeVarint(n)| == VarintLength(n)
  {
    if n >= 128 {
      EncodeVarintIsVarint(n / 128);
      var s := EncodeVarint(n);
      assert s[1..] == EncodeVarint(n / 128);
    }
  }

  lemma {:induction false} SkipStopsAtVarint(v: seq<byte>, rest: seq<byte>)
    requires IsVarint(v)
    ensures SkipVarint(v + rest) == |v|
  {
    if |v| > 1 {
      assert v[0] >= 128;
      assert (v + rest)[1..] == v[1..] + rest;
      SkipStopsAtVarint(v[1..], rest);
    }
  }

  // ----- fields -----

  /** A parsed value: a 32-bit number (wire type 0) or a byte string (wire type 2). */
  datatype Slot = Num(n: u32) | Str(s: seq<byte>)
  type Slots = map<byte, Slot>

  /** One field as it stands on the wire; tag and length may be any complete varints. */
  datatype Field =
    | NumField(tag: seq<byte>, number: seq<byte>)
    | StrField(tag: seq<byte>, length: seq<byte>, value: seq<byte>)
  {
    ghost predicate Valid() {
      && IsVarint(tag)
      && (NumField? ==> tag[0] % 8 == 0 && IsVarint(number))
      && (StrField? ==> tag[0] % 8 == 2 && IsVarint(length) && VarintValue(length) == |value| < TWO64)
    }

    function Bytes(): (s: seq<byte>) {
      if NumField? then tag + number else tag + length + value
    }
  }

  /** The single-byte tags a format understands, each of wire type 0 or 2. */
  ghost predicate KnownTags(known: set<byte>) {
    forall t :: t in known ==> t < 128 && (t % 8 == 0 || t % 8 == 2)
  }

  /** What a format keeps of a field: its last occurrence, if the tag is known. */
  function Keep(known: set<byte>, slots: Slots, f: Field): Slots {
    if |f.tag| != 1 || f.tag[0] !in known then slots
    else if f.NumField? then slots[f.tag[0] := Num(VarintValue(f.number) % TWO32)]
    else slots[f.tag[0] := Str(f.value)]
  }

  function KeepAll(known: set<byte>, slots: Slots, fs: seq<Field>): Slots
    decreases |fs|
  {
    if fs == [] then slots else KeepAll(known, Keep(known, slots, fs[0]), fs[1..])
  }

  function Concat(fs: seq<Field>): seq<byte> {
    if fs == [] then [] else fs[0].Bytes() + Concat(fs[1..])
  }

  // ----- the parser -----

  /** The number field after its tag: decode for integers. */
  function TakeNum(rest: seq<byte>): (r: (Slot, seq<byte>))
    ensures |r.1| <= |rest|
  {
    var n := SkipVarint(rest);
    (Num(VarintValue(rest[..n]) % TWO32), rest[n..])
  }

  /** The string field after its tag: decode for slices. A length past the end drops all. */
  function TakeStr(rest: seq<byte>): (r: (Option<Slot>, seq<byte>))
    ensures |r.1| <= |rest|
  {
    var n := SkipVarint(rest);
    var len := VarintValue(rest[..n]) % TWO64;
    if len > |rest| - n then (None, [])
    else (Some(Str(rest[n..n + len])), rest[n + len..])
  }

  /** skip_unknown */
  function SkipUnknown(rest: seq<byte>): (r: seq<byte>)
    requires rest != []
    ensures |r| < |rest|
  {
    var n := SkipVarint(rest);
    if rest[0] % 8 == 0 then
      rest[n..][SkipVarint(rest[n..])..]
    else if rest[0] % 8 == 2 then
      TakeStr(rest[n..]).1
    else
      []
  }

  /** One field, known or not: strictly less is left to parse. */
  function ParseOne(known: set<byte>, rest: seq<byte>, slots: Slots): (r: (Slots, seq<byte>))
    requires rest != []
    ensures |r.1| < |rest|
  {
    var t := rest[0];
    if t !in known then (slots, SkipUnknown(rest))
    else if t % 8 == 0 then
      var (slot, left) := TakeNum(rest[1..]);
      (slots[t := slot], left)
    else
      var (slot, left) := TakeStr(rest[1..]);
      (if slot.Some? then slots[t := slot.value] else slots, left)
  }

  function ParseAll(known: set<byte>, rest: seq<byte>, slots: Slots): Slots
    decreases |rest|
  {
    if rest == [] then slots
    else var (slots', left) := ParseOne(known, rest, slots); ParseAll(known, left, slots')
  }

  lemma VarintSplits(v: seq<byte>, rest: seq<byte>)
    requires IsVarint(v)
    ensures SkipVarint(v + rest) == |v|
    ensures (v + rest)[..|v|] == v && (v + rest)[|v|..] == rest
  {
    SkipStopsAtVarint(v, rest);
  }

  lemma TakeStrOfField(f: Field, rest: seq<byte>)
    requires f.Valid() && f.StrField?
    ensures TakeStr(f.length + f.value + rest) == (Some(Str(f.value)), rest)
  {
    var input := f.length + f.value + rest;
    assert input == f.length + (f.value + rest);
    VarintSplits(f.length, f.value + rest);
    var n, len := |f.length|, |f.value|;
    assert input[n..n + len] == f.value;
    assert input[n + len..] == rest;
  }

  lemma TakeNumOfField(f: Field, rest: seq<byte>)
    requires f.Valid() && f.NumField?
    ensures TakeNum(f.number + rest) == (Num(VarintValue(f.number) % TWO32), rest)
  {
    VarintSplits(f.number, rest);
  }

  /** The bytes of a field after its tag. */
  function Payload(f: Field): seq<byte> {
    if f.NumField? then f.number else f.length + f.value
  }

  lemma SkipUnknownField(f: Field, rest: seq<byte>)
    requires f.Valid()
    ensures SkipUnknown(f.Bytes() + rest) == rest
  {
    hide VarintValue, TakeStr, SkipVarint;
    var input, payload := f.Bytes() + rest, Payload(f) + rest;
    assert input == f.tag + payload && f.Bytes() != [];
    VarintSplits(f.tag, payload);
    assert input[0] == f.tag[0];
    if f.NumField? {
      VarintSplits(f.number, rest);
    } else {
      TakeStrOfField(f, rest);
    }
  }

  lemma ParseKnownField(known: set<byte>, f: Field, rest: seq<byte>, slots: Slots)
    requires KnownTags(known) && f.Valid() && |f.tag| == 1 && f.tag[0] in known
    ensures ParseOne(known, f.Bytes() + rest, slots) == (Keep(known, slots, f), rest)
  {
    TagFirst(f, rest);
    hide VarintValue, TakeStr, TakeNum, SkipVarint, IsVarint, Payload, Field.Bytes;
    if f.NumField? {
      TakeNumOfField(f, rest);
    } else {
      TakeStrOfField(f, rest);
    }
  }

  lemma TagFirst(f: Field, rest: seq<byte>)
    requires |f.tag| == 1
    ensures var input := f.Bytes() + rest;
      input != [] && input[0] == f.tag[0] && input[1..] == Payload(f) + rest
  {
    hide VarintValue, IsVarint;
  }

  /** A well-formed field is consumed exactly, and kept exactly when its tag is known. */
  lemma ParseOneField(known: set<byte>, f: Field, rest: seq<byte>, slots: Slots)
    requires KnownTags(known) && f.Valid()
    ensures f.Bytes() != []
    ensures ParseOne(known, f.Bytes() + rest, slots) == (Keep(known, slots, f), rest)
  {
    if |f.tag| == 1 && f.tag[0] in known {
      ParseKnownField(known, f, rest, slots);
    } else {
      assert |f.tag| > 1 ==> f.tag[0] >= 128;
      hide VarintValue, TakeStr, TakeNum, SkipUnknown, SkipVarint;
      assert (f.Bytes() + rest)[0] == f.tag[0];
      SkipUnknownField(f, rest);
    }
  }

  /** The main fact about the parser: on any sequence of well-formed fields, in any order,
   *  known or unknown, it computes what the format keeps of them. */
  lemma {:induction false} ParseFields(known: set<byte>, fs: seq<Field>, slots: Slots)
    requires KnownTags(known) && forall f :: f in fs ==> f.Valid()
    ensures ParseAll(known, Concat(fs), slots) == KeepAll(known, slots, fs)
  {
    if fs != [] {
      ParseOneField(known, fs[0], Concat(fs[1..]), slots);
      ParseFields(known, fs[1..], Keep(known, slots, fs[0]));
    }
  }

  // ----- unknown fields -----

  ghost predicate Unknown(known: set<byte>, f: Field)
    requires f.Valid()
  {
    f.tag[0] !in known
  }

  lemma {:induction false} KeepAllSplits(known: set<byte>, slots: Slots, a: seq<Field>, b: seq<Field>)
    ensures KeepAll(known, slots, a + b) == KeepAll(known, KeepAll(known, slots, a), b)
    decreases |a|
  {
    if a == [] {
      assert a + b == b;
    } else {
      assert (a + b)[1..] == a[1..] + b;
      KeepAllSplits(known, Keep(known, slots, a[0]), a[1..], b);
    }
  }

  lemma UnknownNotKept(known: set<byte>, a: seq<Field>, u: Field, b: seq<Field>)
    requires u.Valid() && Unknown(known, u)
    ensures KeepAll(known, map[], a + [u] + b) == KeepAll(known, map[], a + b)
  {
    var slots := KeepAll(known, map[], a);
    KeepAllSplits(known, map[], a, b);
    KeepAllSplits(known, map[], a, [u] + b);
    assert a + [u] + b == a + ([u] + b);
    assert ([u] + b)[0] == u && ([u] + b)[1..] == b;
    assert Keep(known, slots, u) == slots;
  }

  /** Inserting an unknown field between any two fields changes nothing. */
  lemma UnknownFieldIgnored(known: set<byte>, a: seq<Field>, u: Field, b: seq<Field>)
    requires KnownTags(known) && u.Valid() && Unknown(known, u)
    requires forall f :: f in a + b ==> f.Valid()
    ensures ParseAll(known, Concat(a + [u] + b), map[]) == ParseAll(known, Concat(a + b), map[])
  {
    hide *;
    assert forall f :: f in a + [u] + b ==> f in a + b || f == u;
    ParseFields(known, a + [u] + b, map[]);
    ParseFields(known, a + b, map[]);
    UnknownNotKept(known, a, u, b);
  }
}
