/** Pickling (src/pickle.cpp, include/olm/pickle.hh): how values are laid out in bytes and read back.
 *  A position that has become null is None. */
module Pickle {
  import opened Words
  import opened BoundedList
  import opened MessageCodec

  /** s holds b from pos on. */
  ghost predicate Holds(s: seq<byte>, pos: nat, b: seq<byte>) {
    pos + |b| <= |s| && s[pos..pos + |b|] == b
  }

  lemma HoldsParts(s: seq<byte>, pos: nat, a: seq<byte>, b: seq<byte>)
    requires Holds(s, pos, a + b)
    ensures Holds(s, pos, a) && Holds(s, pos + |a|, b)
  {
    var whole := s[pos..pos + |a + b|];
    assert whole[..|a|] == a && whole[|a|..] == b;
    assert s[pos..pos + |a|] == whole[..|a|] && s[pos + |a|..pos + |a| + |b|] == whole[|a|..];
  }

  // ----- numbers -----

  function Limit(n: nat): nat { if n == 0 then 1 else 256 * Limit(n - 1) }

  /** n bytes, most significant first. */
  function BigEndian(n: nat, x: nat): (b: seq<byte>)
    ensures |b| == n
  {
    if n == 0 then [] else BigEndian(n - 1, x / 256) + [U8(x)]
  }

  function FromBigEndian(b: seq<byte>): nat {
    if b == [] then 0 else FromBigEndian(b[..|b| - 1]) * 256 + b[|b| - 1]
  }

  lemma {:induction false} NumberRoundTrip(n: nat, x: nat)
    requires x < Limit(n)
    ensures FromBigEndian(BigEndian(n, x)) == x
  {
    if n > 0 {
      NumberRoundTrip(n - 1, x / 256);
      var b := BigEndian(n, x);
      assert b[..n - 1] == BigEndian(n - 1, x / 256) && b[n - 1] == x % 256;
    }
  }

  /** The byte loops of pickle: from the last byte back to the first. */
  method PickleNumber(out: array<byte>, pos: nat, n: nat, value: nat) returns (after: nat)
    requires pos + n <= out.Length
    modifies out
    ensures after == pos + n
    ensures out[..] == Overwrite(old(out[..]), pos, BigEndian(n, value))
  {
    ghost var was := out[..];
    var at, rest := pos + n, value;
    var i := n;
    while i > 0
      invariant 0 <= i <= n && at == pos + i
      invariant BigEndian(n, value) == BigEndian(i, rest) + out[at..pos + n]
      invariant forall k :: 0 <= k < out.Length && !(at <= k < pos + n) ==> out[k] == was[k]
    {
      i := i - 1;
      at := at - 1;
      ghost var done := out[at + 1..pos + n];
      out[at] := U8(rest);
      assert out[at..pos + n] == [U8(rest)] + done;
      rest := rest / 256;
    }
    assert out[pos..pos + n] == BigEndian(n, value);
    StoredIs(was, out[..], pos, BigEndian(n, value));
    after := pos + n;
  }

  lemma StoredIs(was: seq<byte>, now: seq<byte>, pos: nat, b: seq<byte>)
    requires |was| == |now| && pos + |b| <= |now| && now[pos..pos + |b|] == b
    requires forall k :: 0 <= k < |now| && !(pos <= k < pos + |b|) ==> now[k] == was[k]
    ensures now == Overwrite(was, pos, b)
  {
    forall k | 0 <= k < |now|
      ensures now[k] == Overwrite(was, pos, b)[k]
    {
      if pos <= k < pos + |b| {
        assert now[k] == now[pos..pos + |b|][k - pos];
      }
    }
  }

  /** The byte loops of unpickle. */
  method UnpickleNumber(input: seq<byte>, pos: Option<nat>, n: nat) returns (value: nat, after: Option<nat>)
    requires pos.Some? ==> pos.value <= |input|
    ensures after == if pos.Some? && pos.value + n <= |input| then Some(pos.value + n) else None
    ensures value == if after.Some? then FromBigEndian(input[pos.value..pos.value + n]) else 0
  {
    value := 0;
    if pos.None? || |input| < pos.value + n {
      return 0, None;
    }
    var at := pos.value;
    var i := n;
    while i > 0
      invariant 0 <= i <= n && at == pos.value + (n - i)
      invariant value == FromBigEndian(input[pos.value..at])
    {
      assert input[pos.value..at + 1][..at - pos.value] == input[pos.value..at];
      value := value * 256 + input[at];
      at := at + 1;
      i := i - 1;
    }
    after := Some(at);
  }

  // ----- codecs -----

  /** How values of a type are written, read back from a position, and which of them can be. */
  datatype Codec<!T(!new)> = Codec(put: T -> seq<byte>, get: (seq<byte>, nat) -> Option<(T, nat)>, ok: T -> bool)

  ghost predicate Reads<T(!new)>(c: Codec<T>, v: T, s: seq<byte>, pos: nat) {
    c.get(s, pos) == Some((v, pos + |c.put(v)|))
  }

  /** Wherever the bytes of a value stand, reading gives the value and moves past just these bytes. */
  ghost predicate Lawful<T(!new)>(c: Codec<T>) {
    forall v: T, s: seq<byte>, pos: nat :: c.ok(v) && Holds(s, pos, c.put(v)) ==> Reads(c, v, s, pos)
  }

  function Number(n: nat): Codec<nat> {
    Codec((x: nat) => BigEndian(n, x), (s: seq<byte>, pos: nat) => NumberAt(n, s, pos), (x: nat) => x < Limit(n))
  }

  function NumberAt(n: nat, s: seq<byte>, pos: nat): Option<(nat, nat)> {
    if pos + n <= |s| then Some((FromBigEndian(s[pos..pos + n]), pos + n)) else None
  }

  lemma NumberLawful(n: nat)
    ensures Lawful(Number(n))
  {
    var c := Number(n);
    forall v: nat, s: seq<byte>, pos: nat | c.ok(v) && Holds(s, pos, c.put(v))
      ensures Reads(c, v, s, pos)
    {
      NumberRoundTrip(n, v);
    }
  }

  /** One byte; anything but zero is read as true. */
  function Flag(): Codec<bool> {
    Codec(b => [if b then 1 else 0],
          (s: seq<byte>, pos: nat) => if pos < |s| then Some((s[pos] != 0, pos + 1)) else None,
          b => true)
  }

  lemma FlagLawful()
    ensures Lawful(Flag())
  {
    var c := Flag();
    forall v: bool, s: seq<byte>, pos: nat | c.ok(v) && Holds(s, pos, c.put(v))
      ensures Reads(c, v, s, pos)
    {
      assert s[pos] == s[pos..pos + 1][0];
    }
  }

  /** pickle_bytes */
  function Raw(n: nat): Codec<seq<byte>> {
    Codec(b => b,
          (s: seq<byte>, pos: nat) => if pos + n <= |s| then Some((s[pos..pos + n], pos + n)) else None,
          b => |b| == n)
  }

  lemma RawLawful(n: nat)
    ensures Lawful(Raw(n))
  {
  }

  function Pair<A(!new), B(!new)>(a: Codec<A>, b: Codec<B>): Codec<(A, B)> {
    Codec((v: (A, B)) => a.put(v.0) + b.put(v.1),
          (s: seq<byte>, pos: nat) =>
            var first := a.get(s, pos);
            if first.None? then None
            else
              var second := b.get(s, first.value.1);
              if second.None? then None else Some(((first.value.0, second.value.0), second.value.1)),
          (v: (A, B)) => a.ok(v.0) && b.ok(v.1))
  }

  lemma PairLawful<A(!new), B(!new)>(a: Codec<A>, b: Codec<B>)
    requires Lawful(a) && Lawful(b)
    ensures Lawful(Pair(a, b))
  {
    var c := Pair(a, b);
    forall v: (A, B), s: seq<byte>, pos: nat | c.ok(v) && Holds(s, pos, c.put(v))
      ensures Reads(c, v, s, pos)
    {
      HoldsParts(s, pos, a.put(v.0), b.put(v.1));
      assert Reads(a, v.0, s, pos);
      assert Reads(b, v.1, s, pos + |a.put(v.0)|);
    }
  }

  /** The same bytes for another type. */
  function Mapped<A(!new), B(!new)>(a: Codec<A>, to: A -> B, from: B -> A): Codec<B> {
    Codec((v: B) => a.put(from(v)),
          (s: seq<byte>, pos: nat) =>
            var r := a.get(s, pos);
            if r.None? then None else Some((to(r.value.0), r.value.1)),
          (v: B) => a.ok(from(v)))
  }

  lemma MappedLawful<A(!new), B(!new)>(a: Codec<A>, to: A -> B, from: B -> A)
    requires Lawful(a) && forall v: B :: to(from(v)) == v
    ensures Lawful(Mapped(a, to, from))
  {
    var c := Mapped(a, to, from);
    forall v: B, s: seq<byte>, pos: nat | c.ok(v) && Holds(s, pos, c.put(v))
      ensures Reads(c, v, s, pos)
    {
      assert Reads(a, from(v), s, pos);
    }
  }

  // ----- lists -----

  function PutAll<T(!new)>(c: Codec<T>, v: seq<T>): seq<byte> {
    if v == [] then [] else c.put(v[0]) + PutAll(c, v[1..])
  }

  /** The loop of the list's unpickle: it stops early, and without complaint, where the input ends; past
   *  the capacity each new item replaces the last one. */
  function ListFrom<T(!new)>(c: Codec<T>, s: seq<byte>, pos: nat, count: nat, max: nat, acc: seq<T>)
    : Option<(seq<T>, nat)>
    requires |acc| <= max && max > 0
    decreases count
  {
    if count == 0 || pos == |s| then Some((acc, pos))
    else
      var r := c.get(s, pos);
      if r.None? then None
      else ListFrom(c, s, r.value.1, count - 1, max, Inserted(acc, max, |acc|, r.value.0))
  }

  function ListAt<T(!new)>(c: Codec<T>, max: nat, s: seq<byte>, pos: nat): Option<(seq<T>, nat)> {
    var size := NumberAt(4, s, pos);
    if size.None? || max == 0 then None else ListFrom(c, s, size.value.1, size.value.0, max, [])
  }

  /** An item takes up room, so that the input does not end before it. */
  predicate Items<T(!new)>(c: Codec<T>, v: seq<T>) {
    if v == [] then true else c.ok(v[0]) && |c.put(v[0])| > 0 && Items(c, v[1..])
  }

  function ListOf<T(!new)>(c: Codec<T>, max: nat): Codec<seq<T>> {
    Codec((v: seq<T>) => BigEndian(4, |v|) + PutAll(c, v), (s: seq<byte>, pos: nat) => ListAt(c, max, s, pos),
          (v: seq<T>) => |v| <= max && 0 < max < TWO32 && Items(c, v))
  }

  lemma FirstItem<T(!new)>(c: Codec<T>, v: seq<T>, s: seq<byte>, pos: nat)
    requires Lawful(c) && v != [] && Items(c, v) && Holds(s, pos, PutAll(c, v))
    ensures c.get(s, pos) == Some((v[0], pos + |c.put(v[0])|)) && pos < |s|
    ensures Items(c, v[1..]) && Holds(s, pos + |c.put(v[0])|, PutAll(c, v[1..]))
    ensures |PutAll(c, v)| == |c.put(v[0])| + |PutAll(c, v[1..])|
  {
    HoldsParts(s, pos, c.put(v[0]), PutAll(c, v[1..]));
    assert Reads(c, v[0], s, pos);
  }

  lemma AtEnd<T>(acc: seq<T>, max: nat, x: T, rest: seq<T>)
    requires |acc| < max
    ensures Inserted(acc, max, |acc|, x) == acc + [x] && acc + [x] + rest == acc + ([x] + rest)
  {
  }

  lemma {:induction false} ListFromReads<T(!new)>(c: Codec<T>, s: seq<byte>, pos: nat, max: nat, acc: seq<T>, v: seq<T>)
    requires Lawful(c) && |acc| + |v| <= max && max > 0 && Items(c, v) && Holds(s, pos, PutAll(c, v))
    ensures ListFrom(c, s, pos, |v|, max, acc) == Some((acc + v, pos + |PutAll(c, v)|))
    decreases |v|
  {
    if v == [] {
      assert acc + v == acc;
    } else {
      FirstItem(c, v, s, pos);
      AtEnd(acc, max, v[0], v[1..]);
      assert [v[0]] + v[1..] == v;
      hide PutAll, Items, Holds, Lawful, Inserted;
      ListFromReads(c, s, pos + |c.put(v[0])|, max, acc + [v[0]], v[1..]);
    }
  }

  lemma ListLawful<T(!new)>(c: Codec<T>, max: nat)
    requires Lawful(c)
    ensures Lawful(ListOf(c, max))
  {
    var l := ListOf(c, max);
    forall v: seq<T>, s: seq<byte>, pos: nat | l.ok(v) && Holds(s, pos, l.put(v))
      ensures Reads(l, v, s, pos)
    {
      ListReads(c, max, v, s, pos);
    }
  }

  lemma ListReads<T(!new)>(c: Codec<T>, max: nat, v: seq<T>, s: seq<byte>, pos: nat)
    requires Lawful(c) && |v| <= max && 0 < max < TWO32 && Items(c, v)
    requires Holds(s, pos, BigEndian(4, |v|) + PutAll(c, v))
    ensures ListAt(c, max, s, pos) == Some((v, pos + 4 + |PutAll(c, v)|))
  {
    HoldsParts(s, pos, BigEndian(4, |v|), PutAll(c, v));
    FourBytes(|v|);
    NumberRoundTrip(4, |v|);
    hide BigEndian, PutAll, Items, Lawful;
    ListFromReads(c, s, pos + 4, max, [], v);
    assert [] + v == v;
  }

  lemma FourBytes(n: nat)
    requires n < TWO32
    ensures n < Limit(4)
  {
    assert Limit(2) == TWO16;
  }

  /** From the capacity on each item replaces the last one, so the end of the list is in the last place. */
  lemma {:induction false} LongListFrom<T(!new)>(c: Codec<T>, s: seq<byte>, pos: nat, max: nat, acc: seq<T>, v: seq<T>)
    requires Lawful(c) && |acc| <= max <= |acc| + |v| && max > 0 && v != [] && Items(c, v)
    requires Holds(s, pos, PutAll(c, v))
    ensures ListFrom(c, s, pos, |v|, max, acc)
         == Some(((acc + v)[..max - 1] + [v[|v| - 1]], pos + |PutAll(c, v)|))
    decreases |v|
  {
    hide PutAll, Items, Holds, Lawful, Inserted;
    var acc' := Inserted(acc, max, |acc|, v[0]);
    FirstItem(c, v, s, pos);
    LongStep(acc, max, v);
    if |v| > 1 {
      LongListFrom(c, s, pos + |c.put(v[0])|, max, acc', v[1..]);
    } else {
      NoneLeft(c, s, pos + |c.put(v[0])|, max, acc', v[1..]);
    }
  }

  lemma NoneLeft<T(!new)>(c: Codec<T>, s: seq<byte>, pos: nat, max: nat, acc: seq<T>, v: seq<T>)
    requires |acc| <= max && max > 0 && v == []
    ensures ListFrom(c, s, pos, 0, max, acc) == Some((acc, pos)) && PutAll(c, v) == []
  {
  }

  lemma LongStep<T>(acc: seq<T>, max: nat, v: seq<T>)
    requires |acc| <= max <= |acc| + |v| && max > 0 && v != []
    ensures var acc' := Inserted(acc, max, |acc|, v[0]);
      && |acc'| <= max && (|v| > 1 ==> max <= |acc'| + |v| - 1)
      && (|v| > 1 ==> (acc' + v[1..])[..max - 1] == (acc + v)[..max - 1] && v[1..][|v| - 2] == v[|v| - 1])
      && (|v| == 1 ==> acc' == (acc + v)[..max - 1] + [v[0]])
  {
    var acc' := Inserted(acc, max, |acc|, v[0]);
    assert acc' == (if |acc| < max then acc else acc[..max - 1]) + [v[0]];
  }

  /** A list longer than the capacity keeps its first items and, in the last place, its last one. */
  lemma LongListKeepsEnds<T(!new)>(c: Codec<T>, max: nat, v: seq<T>, s: seq<byte>, pos: nat)
    requires Lawful(c) && 0 < max < |v| < TWO32 && Items(c, v)
    requires Holds(s, pos, BigEndian(4, |v|) + PutAll(c, v))
    ensures ListAt(c, max, s, pos) == Some((v[..max - 1] + [v[|v| - 1]], pos + 4 + |PutAll(c, v)|))
  {
    hide BigEndian, PutAll, Items, Lawful, ListFrom;
    HoldsParts(s, pos, BigEndian(4, |v|), PutAll(c, v));
    FourBytes(|v|);
    NumberRoundTrip(4, |v|);
    LongListFrom(c, s, pos + 4, max, [], v);
    assert [] + v == v;
  }

  /** The list's unpickle loop. */
  method UnpickleList<T(!new)>(c: Codec<T>, max: nat, input: seq<byte>, pos: nat) returns (r: Option<(seq<T>, nat)>)
    requires max > 0
    ensures r == ListAt(c, max, input, pos)
  {
    if pos > |input| {
      return None;
    }
    var size, at := UnpickleNumber(input, Some(pos), 4);
    if at.None? {
      return None;
    }
    var list, place := [], at.value;
    ghost var total := ListFrom(c, input, place, size, max, []);
    while size > 0 && place != |input|
      invariant |list| <= max
      invariant ListFrom(c, input, place, size, max, list) == total
      decreases size
    {
      var item := c.get(input, place);
      if item.None? {
        return None;
      }
      list := Inserted(list, max, |list|, item.value.0);
      place := item.value.1;
      size := size - 1;
    }
    r := Some((list, place));
  }

  // ----- a count of at most two -----

  /** A count byte and then that many items; three or more are read as two and then refused. */
  function CountedAt<T(!new)>(c: Codec<T>, s: seq<byte>, pos: nat): Option<(seq<T>, nat)> {
    if pos >= |s| then None
    else if s[pos] == 0 then Some(([], pos + 1))
    else
      var first := c.get(s, pos + 1);
      if first.None? then None
      else if s[pos] == 1 then Some(([first.value.0], first.value.1))
      else
        var second := c.get(s, first.value.1);
        if second.None? || s[pos] >= 3 then None else Some(([first.value.0, second.value.0], second.value.1))
  }

  function Counted<T(!new)>(c: Codec<T>): Codec<seq<T>> {
    Codec((v: seq<T>) => [U8(|v|)] + PutAll(c, v), (s: seq<byte>, pos: nat) => CountedAt(c, s, pos),
          (v: seq<T>) => |v| <= 2 && Items(c, v))
  }

  lemma CountedLawful<T(!new)>(c: Codec<T>)
    requires Lawful(c)
    ensures Lawful(Counted(c))
  {
    var l := Counted(c);
    forall v: seq<T>, s: seq<byte>, pos: nat | l.ok(v) && Holds(s, pos, l.put(v))
      ensures Reads(l, v, s, pos)
    {
      CountedReads(c, v, s, pos);
    }
  }

  lemma CountedReads<T(!new)>(c: Codec<T>, v: seq<T>, s: seq<byte>, pos: nat)
    requires Lawful(c) && |v| <= 2 && Items(c, v) && Holds(s, pos, [U8(|v|)] + PutAll(c, v))
    ensures CountedAt(c, s, pos) == Some((v, pos + 1 + |PutAll(c, v)|))
  {
    HoldsParts(s, pos, [U8(|v|)], PutAll(c, v));
    assert s[pos] == s[pos..pos + 1][0] == |v|;
    if |v| == 1 {
      OneItem(c, v[0], s, pos + 1);
      assert v == [v[0]];
    } else if |v| == 2 {
      TwoItems(c, v, s, pos + 1);
    }
    hide Holds, PutAll, Items;
  }

  lemma TwoItems<T(!new)>(c: Codec<T>, v: seq<T>, s: seq<byte>, pos: nat)
    requires Lawful(c) && |v| == 2 && Items(c, v) && Holds(s, pos, PutAll(c, v))
    ensures v == [v[0], v[1]] && |PutAll(c, v)| == |c.put(v[0])| + |c.put(v[1])|
    ensures Reads(c, v[0], s, pos) && Reads(c, v[1], s, pos + |c.put(v[0])|)
  {
    OneOnly(c, v[1..]);
    HoldsParts(s, pos, c.put(v[0]), c.put(v[1]));
    hide Reads;
  }

  lemma OneOnly<T(!new)>(c: Codec<T>, v: seq<T>)
    requires |v| == 1
    ensures PutAll(c, v) == c.put(v[0])
  {
    assert v[1..] == [] && PutAll(c, v[1..]) == [];
  }

  lemma OneItem<T(!new)>(c: Codec<T>, x: T, s: seq<byte>, pos: nat)
    requires Lawful(c) && Items(c, [x]) && Holds(s, pos, PutAll(c, [x]))
    ensures Reads(c, x, s, pos) && PutAll(c, [x]) == c.put(x)
  {
    OneOnly(c, [x]);
  }
}
