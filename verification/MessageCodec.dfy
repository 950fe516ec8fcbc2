/** The writers and readers of src/message.cpp: positions moving through caller buffers, proved
 *  against the field language of module Message. */
module MessageCodec {
  import opened Words
  import opened Message

  // ----- writing -----

  /** s with the bytes from pos on replaced by b. */
  function Overwrite(s: seq<byte>, pos: nat, b: seq<byte>): (r: seq<byte>)
    requires pos + |b| <= |s|
    ensures |r| == |s|
  {
    s[..pos] + b + s[pos + |b|..]
  }

  lemma OverwriteChain(s: seq<byte>, pos: nat, a: seq<byte>, b: seq<byte>)
    requires pos + |a| + |b| <= |s|
    ensures Overwrite(Overwrite(s, pos, a), pos + |a|, b) == Overwrite(s, pos, a + b)
  {
  }

  /** *pos = b */
  method Put(output: array<byte>, pos: nat, b: byte)
    requires pos < output.Length
    modifies output
    ensures output[..] == Overwrite(old(output[..]), pos, [b])
  {
    output[pos] := b;
  }

  lemma OverwriteCommutes(s: seq<byte>, p: nat, a: seq<byte>, q: nat, b: seq<byte>)
    requires p + |a| <= q && q + |b| <= |s|
    ensures Overwrite(Overwrite(s, q, b), p, a) == Overwrite(Overwrite(s, p, a), q, b)
  {
  }

  /** The bytes of a varint before its last `value` part, and what is left to write. */
  ghost predicate VarintSoFar(number: nat, written: seq<byte>, value: nat) {
    written + EncodeVarint(value) == EncodeVarint(number)
  }

  lemma VarintGrows(number: nat, written: seq<byte>, value: nat)
    requires value >= 128 && VarintSoFar(number, written, value)
    ensures VarintSoFar(number, written + [Continued(value)], value / 128)
    ensures |written| + 2 <= |EncodeVarint(number)|
  {
    assert written + [Continued(value)] + EncodeVarint(value / 128) == written + EncodeVarint(value);
  }

  function Continued(value: nat): byte { value % 128 + 128 }

  method VarintEncode(output: array<byte>, start: nat, number: nat) returns (pos: nat)
    requires start + VarintLength(number) <= output.Length
    modifies output
    ensures pos == start + VarintLength(number) == start + |EncodeVarint(number)| <= output.Length
    ensures output[..] == Overwrite(old(output[..]), start, EncodeVarint(number))
  {
    EncodeVarintIsVarint(number);
    ghost var was := output[..];
    ghost var written: seq<byte> := [];
    var value := number;
    pos := start;
    assert VarintSoFar(number, written, value);
    while value >= 128
      invariant pos == start + |written| && |written| < VarintLength(number)
      invariant VarintSoFar(number, written, value)
      invariant output[..] == Overwrite(was, start, written)
    {
      hide VarintSoFar, EncodeVarint, VarintLength, Continued, Overwrite;
      VarintGrows(number, written, value);
      ghost var piece: seq<byte> := [Continued(value)];
      Put(output, pos, Continued(value));
      OverwriteChain(was, start, written, piece);
      written := written + piece;
      value := value / 128;
      pos := pos + 1;
    }
    ghost var last: seq<byte> := [value];
    assert written + last == EncodeVarint(number);
    Put(output, pos, value);
    OverwriteChain(was, start, written, last);
    pos := pos + 1;
  }

  // A writer lays down tags and lengths and leaves gaps that the caller fills afterwards.

  /** A gap, and the bytes that are going to be stored there. */
  datatype Gap = Gap(at: nat, value: seq<byte>)

  ghost predicate GapsBelow(gaps: seq<Gap>, limit: nat) {
    forall g :: g in gaps ==> g.at + |g.value| <= limit
  }

  /** s once every gap is filled. */
  ghost function Fill(s: seq<byte>, gaps: seq<Gap>): (r: seq<byte>)
    requires GapsBelow(gaps, |s|)
    ensures |r| == |s|
  {
    if gaps == [] then s
    else
      var g := gaps[|gaps| - 1];
      Overwrite(Fill(s, gaps[..|gaps| - 1]), g.at, g.value)
  }

  lemma {:induction false} FillBelow(s: seq<byte>, gaps: seq<Gap>, at: nat, b: seq<byte>)
    requires GapsBelow(gaps, at) && at + |b| <= |s|
    ensures Fill(Overwrite(s, at, b), gaps) == Overwrite(Fill(s, gaps), at, b)
  {
    hide Overwrite;
    if gaps != [] {
      var g, front := gaps[|gaps| - 1], gaps[..|gaps| - 1];
      FillBelow(s, front, at, b);
      OverwriteCommutes(Fill(s, front), g.at, g.value, at, b);
    }
  }

  /** After filling the gaps, out is was with `written` stored at start. */
  ghost predicate Writing(out: seq<byte>, was: seq<byte>, start: nat, written: seq<byte>, gaps: seq<Gap>) {
    && |out| == |was| && start + |written| <= |was|
    && GapsBelow(gaps, start + |written|)
    && Fill(out, gaps) == Overwrite(was, start, written)
  }

  /** A writer starts with the version byte. */
  method EncodeVersion(output: array<byte>, start: nat, version: byte) returns (pos: nat, ghost written: seq<byte>)
    requires start < output.Length
    modifies output
    ensures pos == start + 1 && written == [version]
    ensures Writing(output[..], old(output[..]), start, written, [])
  {
    Put(output, start, version);
    written := [version];
    pos := start + 1;
  }

  lemma WritingMore(out: seq<byte>, was: seq<byte>, start: nat, written: seq<byte>, gaps: seq<Gap>, b: seq<byte>)
    requires Writing(out, was, start, written, gaps)
    requires start + |written| + |b| <= |was|
    ensures Writing(Overwrite(out, start + |written|, b), was, start, written + b, gaps)
  {
    hide Overwrite;
    FillBelow(out, gaps, start + |written|, b);
    OverwriteChain(was, start, written, b);
  }

  lemma WritingGap(out: seq<byte>, was: seq<byte>, start: nat, written: seq<byte>, gaps: seq<Gap>, value: seq<byte>)
    requires Writing(out, was, start, written, gaps)
    requires start + |written| + |value| <= |was|
    ensures Writing(out, was, start, written + value, gaps + [Gap(start + |written|, value)])
  {
    hide Overwrite;
    OverwriteChain(was, start, written, value);
    assert (gaps + [Gap(start + |written|, value)])[..|gaps|] == gaps;
  }

  function StrOf(tag: byte, value: seq<byte>): Field {
    StrField([tag], EncodeVarint(|value|), value)
  }

  function NumOf(tag: byte, number: u32): Field {
    NumField([tag], EncodeVarint(number))
  }

  function Header(tag: byte, number: nat): (r: seq<byte>)
    ensures |r| == 1 + |EncodeVarint(number)|
  {
    [tag] + EncodeVarint(number)
  }

  method EncodeHeader(output: array<byte>, at: nat, tag: byte, number: nat) returns (pos: nat)
    requires at + 1 + VarintLength(number) <= output.Length
    modifies output
    ensures pos == at + |Header(tag, number)| == at + 1 + VarintLength(number) <= output.Length
    ensures output[..] == Overwrite(old(output[..]), at, Header(tag, number))
  {
    hide Overwrite;
    ghost var s0 := output[..];
    Put(output, at, tag);
    pos := VarintEncode(output, at + 1, number);
    OverwriteChain(s0, at, [tag], EncodeVarint(number));
  }

  lemma StrBytes(written: seq<byte>, tag: byte, value: seq<byte>)
    ensures written + Header(tag, |value|) + value == written + StrOf(tag, value).Bytes()
  {
  }

  /** encode for integers: tag and varint. */
  method EncodeNum(output: array<byte>, at: nat, tag: byte, number: u32,
                   ghost was: seq<byte>, ghost start: nat, ghost written: seq<byte>, ghost gaps: seq<Gap>)
    returns (pos: nat)
    requires at == start + |written| && at + 1 + VarintLength(number) <= output.Length
    requires Writing(output[..], was, start, written, gaps)
    modifies output
    ensures pos == at + 1 + VarintLength(number) == start + |written + NumOf(tag, number).Bytes()|
    ensures Writing(output[..], was, start, written + NumOf(tag, number).Bytes(), gaps)
  {
    assert output.Length == |was|;
    hide Overwrite, Writing;
    ghost var s0 := output[..];
    pos := EncodeHeader(output, at, tag, number);
    assert NumOf(tag, number).Bytes() == Header(tag, number);
    WritingMore(s0, was, start, written, gaps, Header(tag, number));
  }

  /** encode for strings: tag and length; the caller stores the value at the returned place. */
  method EncodeStr(output: array<byte>, at: nat, tag: byte, length: nat, ghost value: seq<byte>,
                   ghost was: seq<byte>, ghost start: nat, ghost written: seq<byte>, ghost gaps: seq<Gap>)
    returns (valueAt: nat, pos: nat)
    requires |value| == length
    requires at == start + |written| && at + 1 + VarintLength(length) + length <= output.Length
    requires Writing(output[..], was, start, written, gaps)
    modifies output
    ensures pos == valueAt + length == at + 1 + VarintLength(length) + length
    ensures pos == start + |written + StrOf(tag, value).Bytes()|
    ensures Writing(output[..], was, start, written + StrOf(tag, value).Bytes(), gaps + [Gap(valueAt, value)])
  {
    assert output.Length == |was|;
    hide Overwrite, Writing;
    ghost var s0 := output[..];
    valueAt := EncodeHeader(output, at, tag, length);
    StrBytes(written, tag, value);
    hide Header, StrOf;
    WritingMore(s0, was, start, written, gaps, Header(tag, length));
    WritingGap(output[..], was, start, written + Header(tag, length), gaps, value);
    pos := valueAt + length;
  }

  // ----- reading -----

  /** A pointer into the input and a length, or the null pointer. */
  datatype Slice = Null | At(start: nat, length: nat)

  lemma SubSlice(s: seq<byte>, start: nat, end: nat, a: nat, b: nat)
    requires start <= a <= b <= end <= |s|
    ensures s[start..end][a - start..b - start] == s[a..b]
    ensures s[start..end][a - start..] == s[a..end]
  {
    assert forall i :: 0 <= i < end - start ==> s[start..end][i] == s[start + i];
  }

  method VarintSkip(input: seq<byte>, start: nat, end: nat) returns (pos: nat)
    requires start <= end <= |input|
    ensures pos == start + SkipVarint(input[start..end]) <= end
  {
    pos := start;
    while pos != end
      invariant start <= pos <= end
      invariant pos - start + SkipVarint(input[pos..end]) == SkipVarint(input[start..end])
      decreases end - pos
    {
      var tmp := input[pos];
      assert input[pos..end][1..] == input[pos + 1..end];
      pos := pos + 1;
      if tmp < 128 {
        return;
      }
    }
  }

  /** varint_decode into an unsigned integer of the given modulus, from the last byte back. */
  method VarintDecode(input: seq<byte>, start: nat, end: nat, modulus: nat) returns (value: nat)
    requires start <= end <= |input|
    requires modulus == TWO32 || modulus == TWO64
    ensures value == VarintValue(input[start..end]) % modulus
  {
    value := 0;
    if end == start {
      return;
    }
    var pos := end;
    while pos != start
      invariant start <= pos <= end
      invariant value == VarintValue(input[pos..end]) % modulus
    {
      pos := pos - 1;
      assert input[pos..end][1..] == input[pos + 1..end];
      ShiftIn(VarintValue(input[pos + 1..end]), input[pos] % 128, modulus);
      value := value * 128 % modulus + input[pos] % 128;
    }
  }

  lemma ShiftIn(v: nat, digit: nat, modulus: nat)
    requires modulus == TWO32 || modulus == TWO64
    requires digit < 128
    ensures v % modulus * 128 % modulus + digit == (digit + 128 * v) % modulus
  {
    ShiftInBy(v, digit, modulus, modulus / 128);
  }

  lemma ShiftInBy(v: nat, digit: nat, modulus: nat, n: nat)
    requires n > 0 && modulus == 128 * n && digit < 128
    ensures v % modulus * 128 % modulus + digit == (digit + 128 * v) % modulus
  {
    var q, r := v / modulus, v % modulus;
    var k, s := r * 128 / modulus, r * 128 % modulus;
    RemainderBelow(v, modulus);
    RemainderBelow(r * 128, modulus);
    MultipleOf128(r, k, s, n);
    ShiftAlgebra(v, digit, modulus, q, r, k, s);
    DivideIs(digit + 128 * v, modulus, 128 * q + k, s + digit);
  }

  lemma MultipleOf128(r: int, k: int, s: int, n: int)
    requires r * 128 == k * (128 * n) + s && 0 <= s < 128 * n
    ensures s <= 128 * n - 128
  {
    assert s == 128 * (r - k * n);
  }

  lemma ShiftAlgebra(v: int, digit: int, m: int, q: int, r: int, k: int, s: int)
    requires v == q * m + r && r * 128 == k * m + s
    ensures digit + 128 * v == (128 * q + k) * m + (s + digit)
  {
  }

  /** What a reader field holds, as the slot of its tag. */
  ghost predicate SliceHolds(input: seq<byte>, end: nat, slice: Slice, slots: Slots, tag: byte) {
    match slice
    case Null => tag !in slots
    case At(start, length) =>
      start + length <= end <= |input| && tag in slots && slots[tag] == Str(input[start..start + length])
  }

  ghost predicate NumHolds(value: u32, has: bool, slots: Slots, tag: byte) {
    if has then tag in slots && slots[tag] == Num(value) else value == 0 && tag !in slots
  }

  /** Every field but the one with this tag still holds what it held. */
  ghost predicate OthersKept(input: seq<byte>, end: nat, slots: Slots, slots': Slots, tag: byte) {
    && (forall s: Slice, t: byte :: t != tag && SliceHolds(input, end, s, slots, t)
          ==> SliceHolds(input, end, s, slots', t))
    && (forall v: u32, has: bool, t: byte :: t != tag && NumHolds(v, has, slots, t)
          ==> NumHolds(v, has, slots', t))
  }

  /** What parsing from pos leaves to do, as the loops below see it. */
  ghost function Remaining(known: set<byte>, input: seq<byte>, pos: nat, end: nat, slots: Slots): Slots
    requires pos <= end <= |input|
  {
    ParseAll(known, input[pos..end], slots)
  }

  /** decode for integers, with the parse state it stands for. */
  method DecodeNum(input: seq<byte>, start: nat, end: nat, tag: byte, value: u32, has: bool,
                   ghost known: set<byte>, ghost slots: Slots)
    returns (pos: nat, value': u32, has': bool, ghost slots': Slots)
    requires start <= end <= |input|
    requires tag in known && tag % 8 == 0
    requires NumHolds(value, has, slots, tag)
    ensures start <= pos <= end && (pos > start <==> start < end && input[start] == tag)
    ensures NumHolds(value', has', slots', tag)
    ensures OthersKept(input, end, slots, slots', tag)
    ensures pos == start ==> value' == value && has' == has && slots' == slots
    ensures Remaining(known, input, pos, end, slots') == Remaining(known, input, start, end, slots)
  {
    pos, value', has', slots' := start, value, has, slots;
    if pos != end && input[pos] == tag {
      pos := pos + 1;
      var number := pos;
      pos := VarintSkip(input, pos, end);
      value' := VarintDecode(input, number, pos, TWO32);
      has' := true;
      slots' := slots[tag := Num(value')];
      NumParsed(input, start, pos, end, tag, known, slots);
      hide ParseOne, VarintValue, SkipVarint;
    }
  }

  lemma NumParsed(input: seq<byte>, start: nat, pos: nat, end: nat, tag: byte, known: set<byte>, slots: Slots)
    requires start < pos <= end <= |input| && tag in known && tag % 8 == 0 && input[start] == tag
    requires pos == start + 1 + SkipVarint(input[start + 1..end])
    ensures ParseOne(known, input[start..end], slots)
      == (slots[tag := Num(VarintValue(input[start + 1..pos]) % TWO32)], input[pos..end])
  {
    var rest := input[start..end];
    assert rest[1..] == input[start + 1..end];
    assert rest[1..][..pos - start - 1] == input[start + 1..pos];
    assert rest[1..][pos - start - 1..] == input[pos..end];
    hide SkipVarint, VarintValue;
  }

  /** decode for strings, with the parse state it stands for. */
  method DecodeStr(input: seq<byte>, start: nat, end: nat, tag: byte, slice: Slice,
                   ghost known: set<byte>, ghost slots: Slots)
    returns (pos: nat, slice': Slice, ghost slots': Slots)
    requires start <= end <= |input|
    requires tag in known && tag % 8 == 2
    requires SliceHolds(input, end, slice, slots, tag)
    ensures start <= pos <= end && (pos > start <==> start < end && input[start] == tag)
    ensures SliceHolds(input, end, slice', slots', tag)
    ensures OthersKept(input, end, slots, slots', tag)
    ensures pos == start ==> slice' == slice && slots' == slots
    ensures Remaining(known, input, pos, end, slots') == Remaining(known, input, start, end, slots)
  {
    hide ParseOne, ParseAll, VarintValue, SkipVarint, OthersKept;
    pos, slice', slots' := start, slice, slots;
    Unchanged(input, end, slots, tag);
    if pos != end && input[pos] == tag {
      var length, after := StrLength(input, pos + 1, end);
      if length > end - after {
        StrTooLong(input, start, after, length, end, tag, known, slots);
        pos := end;
        return;
      }
      slice' := At(after, length);
      pos := after + length;
      slots' := slots[tag := Str(input[after..pos])];
      StrParsed(input, start, after, pos, end, tag, known, slots);
      OneFurther(known, input, start, pos, end, slots, slots');
      OneSet(input, end, slots, tag, Str(input[after..pos]));
    }
  }

  lemma Unchanged(input: seq<byte>, end: nat, slots: Slots, tag: byte)
    ensures OthersKept(input, end, slots, slots, tag)
  {
  }

  lemma OneSet(input: seq<byte>, end: nat, slots: Slots, tag: byte, value: Slot)
    ensures OthersKept(input, end, slots, slots[tag := value], tag)
  {
  }

  lemma OneFurther(known: set<byte>, input: seq<byte>, start: nat, pos: nat, end: nat, slots: Slots, slots': Slots)
    requires start < pos <= end <= |input| && ParseOne(known, input[start..end], slots) == (slots', input[pos..end])
    ensures Remaining(known, input, pos, end, slots') == Remaining(known, input, start, end, slots)
  {
    hide ParseOne;
  }

  /** A length that reaches past the end is the end of parsing. */
  lemma StrTooLong(input: seq<byte>, start: nat, after: nat, length: nat, end: nat, tag: byte, known: set<byte>,
                   slots: Slots)
    requires start < after <= end <= |input| && tag in known && tag % 8 == 2 && input[start] == tag
    requires after == start + 1 + SkipVarint(input[start + 1..end])
    requires length == VarintValue(input[start + 1..end][..after - start - 1]) % TWO64 && length > end - after
    ensures Remaining(known, input, end, end, slots) == Remaining(known, input, start, end, slots)
  {
    var rest := input[start..end];
    assert rest[1..] == input[start + 1..end];
    assert input[end..end] == [];
    hide VarintValue, SkipVarint;
    assert ParseOne(known, rest, slots) == (slots, []);
  }

  lemma StrParsed(input: seq<byte>, start: nat, after: nat, pos: nat, end: nat, tag: byte, known: set<byte>,
                  slots: Slots)
    requires start < after <= pos <= end <= |input| && tag in known && tag % 8 == 2 && input[start] == tag
    requires after == start + 1 + SkipVarint(input[start + 1..end])
    requires pos - after == VarintValue(input[start + 1..end][..after - start - 1]) % TWO64
    ensures ParseOne(known, input[start..end], slots) == (slots[tag := Str(input[after..pos])], input[pos..end])
  {
    assert input[start..end][1..] == input[start + 1..end];
    StrTaken(input, start + 1, after, pos, end);
    hide SkipVarint, VarintValue;
  }

  /** The length prefix of a string field, and where its value starts. */
  method StrLength(input: seq<byte>, start: nat, end: nat) returns (length: nat, after: nat)
    requires start <= end <= |input|
    ensures after == start + SkipVarint(input[start..end]) <= end
    ensures length == VarintValue(input[start..end][..after - start]) % TWO64
  {
    after := VarintSkip(input, start, end);
    length := VarintDecode(input, start, after, TWO64);
    assert input[start..end][..after - start] == input[start..after];
  }

  lemma StrTaken(input: seq<byte>, start: nat, after: nat, pos: nat, end: nat)
    requires start <= after <= pos <= end <= |input|
    requires after == start + SkipVarint(input[start..end])
    requires pos - after == VarintValue(input[start..end][..after - start]) % TWO64
    ensures TakeStr(input[start..end]) == (Some(Str(input[after..pos])), input[pos..end])
  {
    SubSlice(input, start, end, after, pos);
    SubSlice(input, start, end, pos, end);
  }

  /** skip_unknown: always advances. */
  method SkipUnknownAt(input: seq<byte>, start: nat, end: nat) returns (pos: nat)
    requires start < end <= |input|
    ensures start < pos <= end && input[pos..end] == SkipUnknown(input[start..end])
  {
    hide VarintValue, SkipVarint, TakeStr, SkipUnknown;
    var tag := input[start];
    pos := end;
    if tag % 8 == 0 {
      var mid := VarintSkip(input, start, end);
      pos := VarintSkip(input, mid, end);
      NumberSkipped(input, start, mid, pos, end);
    } else if tag % 8 == 2 {
      var mid := VarintSkip(input, start, end);
      pos := SkipStr(input, mid, end);
      StringSkipped(input, start, mid, pos, end);
    } else {
      RestSkipped(input, start, end);
    }
    Shorter(input, start, pos, end);
  }

  lemma NumberSkipped(input: seq<byte>, start: nat, mid: nat, pos: nat, end: nat)
    requires start < end <= |input| && start <= mid <= pos <= end && input[start] % 8 == 0
    requires mid == start + SkipVarint(input[start..end]) && pos == mid + SkipVarint(input[mid..end])
    ensures input[pos..end] == SkipUnknown(input[start..end])
  {
    hide SkipVarint;
    SubSlice(input, start, end, mid, end);
    SubSlice(input, mid, end, pos, end);
  }

  lemma StringSkipped(input: seq<byte>, start: nat, mid: nat, pos: nat, end: nat)
    requires start < end <= |input| && start <= mid <= pos <= end && input[start] % 8 == 2
    requires mid == start + SkipVarint(input[start..end]) && input[pos..end] == TakeStr(input[mid..end]).1
    ensures input[pos..end] == SkipUnknown(input[start..end])
  {
    hide SkipVarint, TakeStr;
    SubSlice(input, start, end, mid, end);
  }

  lemma RestSkipped(input: seq<byte>, start: nat, end: nat)
    requires start < end <= |input| && input[start] % 8 != 0 && input[start] % 8 != 2
    ensures input[end..end] == SkipUnknown(input[start..end])
  {
  }

  lemma Shorter(input: seq<byte>, start: nat, pos: nat, end: nat)
    requires start < end <= |input| && start <= pos <= end && input[pos..end] == SkipUnknown(input[start..end])
    ensures start < pos
  {
    hide SkipUnknown;
    assert |input[pos..end]| == end - pos;
  }

  method SkipStr(input: seq<byte>, start: nat, end: nat) returns (pos: nat)
    requires start <= end <= |input|
    ensures start <= pos <= end && input[pos..end] == TakeStr(input[start..end]).1
  {
    var length, after := StrLength(input, start, end);
    if length > end - after {
      return end;
    }
    pos := after + length;
    StrTaken(input, start, after, pos, end);
  }

  /** One skipped field changes no slot, when its tag is not known. */
  lemma SkippedRemains(known: set<byte>, input: seq<byte>, start: nat, pos: nat, end: nat, slots: Slots)
    requires start < pos <= end <= |input|
    requires input[start] !in known
    requires input[pos..end] == SkipUnknown(input[start..end])
    ensures Remaining(known, input, pos, end, slots) == Remaining(known, input, start, end, slots)
  {
  }
}
