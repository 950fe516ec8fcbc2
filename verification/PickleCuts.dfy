/** Pickles that are cut short: which of them the readers notice (include/olm/pickle.hh, src/session.cpp,
 *  src/account.cpp, src/inbound_group_session.c, src/outbound_group_session.c). */
module PickleCuts {
  import opened Words
  import opened Pickle
  import opened PickleFormats
  import Sha256

  // ----- the reader of one value at a cut -----

  /** From pos on, s holds the first k bytes of b, not all of them, and ends there. */
  ghost predicate CutAt(s: Bytes, pos: nat, b: Bytes, k: nat) {
    k < |b| && pos + k == |s| && s[pos..] == b[..k]
  }

  /** A value cut short is refused. */
  ghost predicate Strict<T(!new)>(c: Codec<T>) {
    forall v: T, s: Bytes, pos: nat, k: nat :: c.ok(v) && CutAt(s, pos, c.put(v), k) ==> c.get(s, pos) == None
  }

  /** A value cut short is refused, or read up to the end of the input. */
  ghost predicate Halts<T(!new)>(c: Codec<T>) {
    forall v: T, s: Bytes, pos: nat, k: nat :: c.ok(v) && CutAt(s, pos, c.put(v), k) ==> StopsAt(c, s, pos)
  }

  ghost predicate StopsAt<T(!new)>(c: Codec<T>, s: Bytes, pos: nat) {
    c.get(s, pos).Some? ==> c.get(s, pos).value.1 == |s|
  }

  /** Nothing is read at the end of the input. */
  ghost predicate Needy<T(!new)>(c: Codec<T>) {
    forall s: Bytes :: c.get(s, |s|) == None
  }

  lemma StrictHalts<T(!new)>(c: Codec<T>)
    requires Strict(c)
    ensures Halts(c)
  {
  }

  /** A cut through a + b is a cut through a, or all of a and a cut through b. */
  lemma CutParts(s: Bytes, pos: nat, a: Bytes, b: Bytes, k: nat)
    requires CutAt(s, pos, a + b, k)
    ensures k < |a| ==> CutAt(s, pos, a, k)
    ensures k >= |a| ==> Holds(s, pos, a) && CutAt(s, pos + |a|, b, k - |a|)
  {
    if k < |a| {
      assert (a + b)[..k] == a[..k];
    } else {
      assert s[pos..][..|a|] == (a + b)[..k][..|a|] == a;
      assert s[pos..pos + |a|] == s[pos..][..|a|];
      assert s[pos + |a|..] == s[pos..][|a|..] == b[..k - |a|];
    }
  }

  lemma NumberStrict(n: nat)
    ensures Strict(Number(n)) && (n > 0 ==> Needy(Number(n)))
  {
  }

  lemma FlagStrict()
    ensures Strict(Flag()) && Needy(Flag())
  {
  }

  lemma RawStrict(n: nat)
    ensures Strict(Raw(n)) && (n > 0 ==> Needy(Raw(n)))
  {
  }

  /** What a pair makes of a cut: nothing if it lies in the first half, else what the second half does. */
  lemma PairCut<A(!new), B(!new)>(a: Codec<A>, b: Codec<B>, x: A, y: B, s: Bytes, pos: nat, k: nat)
    requires Lawful(a) && Halts(a) && Needy(b) && a.ok(x) && CutAt(s, pos, a.put(x) + b.put(y), k)
    ensures k < |a.put(x)| ==> Pair(a, b).get(s, pos) == None
    ensures k >= |a.put(x)| ==>
      var n := |a.put(x)|;
      var second := b.get(s, pos + n);
      && CutAt(s, pos + n, b.put(y), k - n)
      && Pair(a, b).get(s, pos) == if second.None? then None else Some(((x, second.value.0), second.value.1))
  {
    CutParts(s, pos, a.put(x), b.put(y), k);
    if k < |a.put(x)| {
      assert StopsAt(a, s, pos);
    } else {
      assert Reads(a, x, s, pos);
    }
  }

  lemma PairStrict<A(!new), B(!new)>(a: Codec<A>, b: Codec<B>)
    requires Lawful(a) && Halts(a) && Needy(b) && Strict(b)
    ensures Strict(Pair(a, b))
  {
    var c := Pair(a, b);
    forall v: (A, B), s: Bytes, pos: nat, k: nat | c.ok(v) && CutAt(s, pos, c.put(v), k)
      ensures c.get(s, pos) == None
    {
      PairCut(a, b, v.0, v.1, s, pos, k);
    }
  }

  lemma PairNeedy<A(!new), B(!new)>(a: Codec<A>, b: Codec<B>)
    requires Needy(a)
    ensures Needy(Pair(a, b))
  {
  }

  lemma MappedStrict<A(!new), B(!new)>(a: Codec<A>, to: A -> B, from: B -> A)
    requires Strict(a) && Needy(a)
    ensures Strict(Mapped(a, to, from)) && Needy(Mapped(a, to, from))
  {
    var c := Mapped(a, to, from);
    forall v: B, s: Bytes, pos: nat, k: nat | c.ok(v) && CutAt(s, pos, c.put(v), k)
      ensures c.get(s, pos) == None
    {
      assert a.ok(from(v)) && CutAt(s, pos, a.put(from(v)), k);
    }
  }

  // ----- lists at a cut -----

  /** The number of whole items before k, when k falls between two items or before the first. */
  function ItemsBefore<T(!new)>(c: Codec<T>, v: seq<T>, k: nat): (r: Option<nat>)
    ensures r.Some? ==> r.value <= |v|
  {
    if k == 0 then Some(0)
    else if v == [] || k < |c.put(v[0])| then None
    else
      var r := ItemsBefore(c, v[1..], k - |c.put(v[0])|);
      if r.None? then None else Some(r.value + 1)
  }

  lemma {:induction false} ItemsBeforeIff<T(!new)>(c: Codec<T>, v: seq<T>, k: nat, n: nat, j: nat)
    requires Items(c, v) && Sized(c, n) && n > 0
    ensures ItemsBefore(c, v, k) == Some(j) <==> j <= |v| && k == n * j
  {
    if j > 0 {
      TimesLess(n, j);
      if v != [] {
        assert |c.put(v[0])| == n;
        if k >= n {
          ItemsBeforeIff(c, v[1..], k - n, n, j - 1);
        }
      }
    } else if v != [] {
      assert |c.put(v[0])| == n;
    }
  }

  lemma TimesLess(n: nat, j: nat)
    requires j > 0
    ensures n * j == n + n * (j - 1) && n * (j - 1) >= 0
  {
  }

  /** The list loop at a cut through the items. */
  lemma {:induction false} ListFromCut<T(!new)>(c: Codec<T>, s: Bytes, pos: nat, count: nat, max: nat, acc: seq<T>,
                                               v: seq<T>, k: nat)
    requires Lawful(c) && Strict(c) && |acc| + |v| <= max && max > 0 && Items(c, v) && |v| <= count
    requires CutAt(s, pos, PutAll(c, v), k)
    ensures var j := ItemsBefore(c, v, k);
      ListFrom(c, s, pos, count, max, acc) == if j.None? then None else Some((acc + v[..j.value], |s|))
    decreases |v|
  {
    if k == 0 {
      assert acc + v[..0] == acc;
    } else {
      var n := |c.put(v[0])|;
      CutParts(s, pos, c.put(v[0]), PutAll(c, v[1..]), k);
      if k < n {
        assert c.get(s, pos) == None;
      } else {
        assert Reads(c, v[0], s, pos);
        AtEnd(acc, max, v[0], v[1..]);
        ListFromCut(c, s, pos + n, count - 1, max, acc + [v[0]], v[1..], k - n);
        var j := ItemsBefore(c, v[1..], k - n);
        if j.Some? {
          assert acc + [v[0]] + v[1..][..j.value] == acc + v[..j.value + 1];
        }
      }
    }
  }

  /** The items that are left of a list whose items begin at the place given. */
  function Left<T(!new)>(c: Codec<T>, v: seq<T>, at: nat, k: nat): Option<seq<T>> {
    if k < at then None
    else
      var j := ItemsBefore(c, v, k - at);
      if j.None? then None else Some(v[..j.value])
  }

  function At<T>(r: Option<T>, pos: nat): Option<(T, nat)> {
    if r.None? then None else Some((r.value, pos))
  }

  lemma LeftMoves<T(!new)>(c: Codec<T>, v: seq<T>, at: nat, k: nat, n: nat)
    ensures Left(c, v, at + n, k + n) == Left(c, v, at, k)
  {
  }

  /** A list at a cut: nothing if its length or an item is cut through, else the items that are there. */
  lemma ListCut<T(!new)>(c: Codec<T>, max: nat, v: seq<T>, s: Bytes, pos: nat, k: nat)
    requires Lawful(c) && Strict(c) && ListOf(c, max).ok(v) && CutAt(s, pos, ListOf(c, max).put(v), k)
    ensures ListOf(c, max).get(s, pos) == At(Left(c, v, 4, k), |s|)
  {
    var size := BigEndian(4, |v|);
    CutParts(s, pos, size, PutAll(c, v), k);
    if k >= 4 {
      FourBytes(|v|);
      NumberRoundTrip(4, |v|);
      hide BigEndian, PutAll, Items, Lawful, Strict, ItemsBefore, ListFrom;
      ListFromCut(c, s, pos + 4, |v|, max, [], v, k - 4);
      var j := ItemsBefore(c, v, k - 4);
      if j.Some? {
        assert [] + v[..j.value] == v[..j.value];
      }
    }
  }

  lemma ListHalts<T(!new)>(c: Codec<T>, max: nat)
    requires Lawful(c) && Strict(c)
    ensures Halts(ListOf(c, max)) && Needy(ListOf(c, max))
  {
    var l := ListOf(c, max);
    forall v: seq<T>, s: Bytes, pos: nat, k: nat | l.ok(v) && CutAt(s, pos, l.put(v), k)
      ensures StopsAt(l, s, pos)
    {
      ListCut(c, max, v, s, pos, k);
    }
  }

  /** A list of at most two items has no place to be cut. */
  lemma CountedStrict<T(!new)>(c: Codec<T>)
    requires Lawful(c) && Strict(c)
    ensures Strict(Counted(c)) && Needy(Counted(c))
  {
    var l := Counted(c);
    forall v: seq<T>, s: Bytes, pos: nat, k: nat | l.ok(v) && CutAt(s, pos, l.put(v), k)
      ensures l.get(s, pos) == None
    {
      CountedCut(c, v, s, pos, k);
    }
  }

  lemma CountedCut<T(!new)>(c: Codec<T>, v: seq<T>, s: Bytes, pos: nat, k: nat)
    requires Lawful(c) && Strict(c) && Counted(c).ok(v) && CutAt(s, pos, Counted(c).put(v), k)
    ensures CountedAt(c, s, pos) == None
  {
    CutParts(s, pos, [U8(|v|)], PutAll(c, v), k);
    if k > 0 {
      assert s[pos] == s[pos..pos + 1][0] == |v|;
      FirstCut(c, v, s, pos + 1, k - 1);
    }
  }

  lemma FirstCut<T(!new)>(c: Codec<T>, v: seq<T>, s: Bytes, pos: nat, k: nat)
    requires Lawful(c) && Strict(c) && 1 <= |v| <= 2 && Items(c, v) && CutAt(s, pos, PutAll(c, v), k)
    ensures var first := c.get(s, pos);
      first.Some? ==> |v| == 2 && c.get(s, first.value.1) == None
  {
    var n := |c.put(v[0])|;
    CutParts(s, pos, c.put(v[0]), PutAll(c, v[1..]), k);
    if k >= n {
      assert Reads(c, v[0], s, pos);
      if |v| == 2 {
        OneOnly(c, v[1..]);
        assert c.ok(v[1..][0]);
      }
    }
  }

  // ----- sessions -----

  lemma RecordsStrict()
    ensures Strict(SenderCodec()) && Strict(ReceiverCodec()) && Strict(SkippedCodec())
    ensures Strict(FourKeys()) && Needy(FourKeys())
  {
    hide Lawful, Strict, Halts, Needy;
    KeyIndexLawful();
    PairLawful(Raw(32), Raw(32));
    RawStrict(32);
    NumberStrict(4);
    StrictPair(Raw(32), Number(4));
    StrictPair(Raw(32), Raw(32));
    StrictPair(Pair(Raw(32), Raw(32)), KeyIndex());
    StrictPair(Raw(32), KeyIndex());
    StrictPair(Pair(Raw(32), Raw(32)), Pair(Raw(32), Raw(32)));
    MappedStrict(Pair(Pair(Raw(32), Raw(32)), KeyIndex()), ToSender, OfSender);
    MappedStrict(Pair(Raw(32), KeyIndex()), ToReceiver, OfReceiver);
    MappedStrict(Pair(Raw(32), KeyIndex()), ToSkipped, OfSkipped);
  }

  lemma StrictPair<A(!new), B(!new)>(a: Codec<A>, b: Codec<B>)
    requires Lawful(a) && Strict(a) && Needy(a) && Strict(b) && Needy(b)
    ensures Strict(Pair(a, b)) && Needy(Pair(a, b))
  {
    StrictHalts(a);
    PairStrict(a, b);
    PairNeedy(a, b);
  }

  lemma ListsReady()
    ensures Lawful(ListOf(SenderCodec(), 1)) && Halts(ListOf(SenderCodec(), 1)) && Needy(ListOf(SenderCodec(), 1))
    ensures Lawful(ListOf(ReceiverCodec(), 5)) && Halts(ListOf(ReceiverCodec(), 5)) && Needy(ListOf(ReceiverCodec(), 5))
    ensures Needy(ListOf(SkippedCodec(), 40))
  {
    hide Lawful, Strict, Halts, Needy, SenderCodec, ReceiverCodec, SkippedCodec;
    ChainsLawful();
    RecordsStrict();
    ListLawful(SenderCodec(), 1);
    ListLawful(ReceiverCodec(), 5);
    ListHalts(SenderCodec(), 1);
    ListHalts(ReceiverCodec(), 5);
    ListHalts(SkippedCodec(), 40);
  }

  /** Where the items of the last list begin. */
  function LastItemsAt(v: RatchetRecord): nat { RatchetLength(v) - 68 * |v.skipped| }

  /** Three values one after the other, at a cut. */
  lemma TripleCut<A(!new), B(!new), C(!new)>(a: Codec<A>, b: Codec<B>, c: Codec<C>, x: A, y: B, z: C,
                                             s: Bytes, pos: nat, k: nat)
    requires Lawful(a) && Halts(a) && Lawful(b) && Halts(b) && Needy(b) && Needy(c)
    requires a.ok(x) && b.ok(y) && CutAt(s, pos, a.put(x) + (b.put(y) + c.put(z)), k)
    ensures var n := |a.put(x)| + |b.put(y)|;
      && (k < n ==> Pair(a, Pair(b, c)).get(s, pos) == None)
      && (k >= n ==>
          var third := c.get(s, pos + n);
          && CutAt(s, pos + n, c.put(z), k - n)
          && Pair(a, Pair(b, c)).get(s, pos)
               == if third.None? then None else Some(((x, (y, third.value.0)), third.value.1)))
  {
    PairNeedy(b, c);
    hide Lawful, Halts, Needy, CutAt;
    PairCut(a, Pair(b, c), x, (y, z), s, pos, k);
    if k >= |a.put(x)| {
      PairCut(b, c, y, z, s, pos + |a.put(x)|, k - |a.put(x)|);
    }
  }

  /** The three lists, at a cut. */
  lemma ListsCut(v: RatchetRecord, s: Bytes, pos: nat, k: nat)
    requires RatchetCodec().ok(v) && CutAt(s, pos, ListsPut(v), k)
    ensures Lists().get(s, pos) == OfLists(v, Left(SkippedCodec(), v.skipped, LastItemsAt(v), k + 32), |s|)
  {
    hide Lawful, Strict, Halts, Needy, CutAt, SenderCodec, ReceiverCodec, SkippedCodec, RatchetCodec, Pair, ListOf,
      Lists, ListsPut, Left, LastItemsAt, RatchetLength, PutAll, BigEndian, Items;
    ListsReady();
    ChainsLawful();
    RecordsStrict();
    ListsOk(v);
    ListLengths(v);
    var l1, l2, l3 := ListOf(SenderCodec(), 1), ListOf(ReceiverCodec(), 5), ListOf(SkippedCodec(), 40);
    ListsShape(v);
    TripleCut(l1, l2, l3, v.senders, v.receivers, v.skipped, s, pos, k);
    var n := LastItemsAt(v) - 36;
    if k >= n {
      ListCut(SkippedCodec(), 40, v.skipped, s, pos + n, k - n);
      LeftMoves(SkippedCodec(), v.skipped, 4, k - n, 32 + n);
    }
    LeftNone(v, k + 32);
  }

  function OfLists(v: RatchetRecord, skipped: Option<seq<Skipped>>, pos: nat)
    : Option<((seq<Sender>, (seq<Receiver>, seq<Skipped>)), nat)>
  {
    if skipped.None? then None else Some(((v.senders, (v.receivers, skipped.value)), pos))
  }

  function OfRoot(v: RatchetRecord, skipped: Option<seq<Skipped>>): Option<RatchetRecord> {
    if skipped.None? then None else Some(v.(skipped := skipped.value))
  }

  lemma ListsShape(v: RatchetRecord)
    ensures Lists() == Pair(ListOf(SenderCodec(), 1), Pair(ListOf(ReceiverCodec(), 5), ListOf(SkippedCodec(), 40)))
    ensures ListsPut(v) == ListOf(SenderCodec(), 1).put(v.senders)
      + (ListOf(ReceiverCodec(), 5).put(v.receivers) + ListOf(SkippedCodec(), 40).put(v.skipped))
  {
  }

  function Lists(): Codec<(seq<Sender>, (seq<Receiver>, seq<Skipped>))> {
    Pair(ListOf(SenderCodec(), 1), Pair(ListOf(ReceiverCodec(), 5), ListOf(SkippedCodec(), 40)))
  }

  function ListsPut(v: RatchetRecord): Bytes {
    ListOf(SenderCodec(), 1).put(v.senders)
    + (ListOf(ReceiverCodec(), 5).put(v.receivers) + ListOf(SkippedCodec(), 40).put(v.skipped))
  }

  lemma ListsOk(v: RatchetRecord)
    requires RatchetCodec().ok(v)
    ensures |v.root| == 32
    ensures ListOf(SenderCodec(), 1).ok(v.senders) && ListOf(ReceiverCodec(), 5).ok(v.receivers)
    ensures ListOf(SkippedCodec(), 40).ok(v.skipped)
  {
    hide SenderCodec, ReceiverCodec, SkippedCodec, BigEndian, PutAll, Items;
    var senders, receivers := ListOf(SenderCodec(), 1), ListOf(ReceiverCodec(), 5);
    var last := Pair(receivers, ListOf(SkippedCodec(), 40));
    assert Pair(Raw(32), Pair(senders, last)).ok(OfRatchet(v));
    assert Pair(senders, last).ok((v.senders, (v.receivers, v.skipped)));
    assert last.ok((v.receivers, v.skipped));
  }

  lemma RatchetCut(v: RatchetRecord, s: Bytes, pos: nat, k: nat)
    requires RatchetCodec().ok(v) && CutAt(s, pos, RatchetCodec().put(v), k)
    ensures RatchetCodec().get(s, pos) == At(OfRoot(v, Left(SkippedCodec(), v.skipped, LastItemsAt(v), k)), |s|)
  {
    hide Lawful, Strict, Halts, Needy, CutAt, SenderCodec, ReceiverCodec, SkippedCodec, RatchetCodec, Pair, ListOf,
      Lists, ListsPut, Left, LastItemsAt, RatchetLength, PutAll, BigEndian, Items;
    ListsOk(v);
    ListsNeedy();
    RawStrict(32);
    StrictHalts(Raw(32));
    RawLawful(32);
    RatchetPut(v);
    RatchetGet(s, pos);
    LastItemsAfterRoot(v);
    RootOk(v);
    PairCut(Raw(32), Lists(), v.root, (v.senders, (v.receivers, v.skipped)), s, pos, k);
    if k >= 32 {
      ListsCut(v, s, pos + 32, k - 32);
    }
    LeftNone(v, k);
  }

  lemma LeftNone(v: RatchetRecord, k: nat)
    ensures k < LastItemsAt(v) ==> Left(SkippedCodec(), v.skipped, LastItemsAt(v), k) == None
  {
    hide LastItemsAt;
  }

  lemma RootOk(v: RatchetRecord)
    requires |v.root| == 32
    ensures Raw(32).ok(v.root) && Raw(32).put(v.root) == v.root
    ensures forall x: Bytes, y: seq<Sender>, z: seq<Receiver>, u: seq<Skipped> ::
      ToRatchet((x, (y, (z, u)))) == RatchetRecord(x, y, z, u)
  {
  }

  lemma LastItemsAfterRoot(v: RatchetRecord)
    ensures LastItemsAt(v) >= 32
  {
  }

  lemma ListsNeedy()
    ensures Needy(Lists())
  {
    ListsReady();
    PairNeedy(ListOf(SenderCodec(), 1), Pair(ListOf(ReceiverCodec(), 5), ListOf(SkippedCodec(), 40)));
    hide Needy, SenderCodec, ReceiverCodec, SkippedCodec, ListOf;
  }

  lemma RatchetPut(v: RatchetRecord)
    ensures Lists().put((v.senders, (v.receivers, v.skipped))) == ListsPut(v)
    ensures RatchetCodec().put(v) == v.root + ListsPut(v)
  {
    hide SenderCodec, ReceiverCodec, SkippedCodec, ListOf;
    assert Lists().put((v.senders, (v.receivers, v.skipped))) == ListsPut(v);
    assert Pair(Raw(32), Lists()).put(OfRatchet(v)) == v.root + Lists().put((v.senders, (v.receivers, v.skipped)));
  }

  lemma RatchetGet(s: Bytes, pos: nat)
    ensures RatchetCodec().get(s, pos)
      == var r := Pair(Raw(32), Lists()).get(s, pos);
         if r.None? then None else Some((ToRatchet(r.value.0), r.value.1))
  {
    hide SenderCodec, ReceiverCodec, SkippedCodec, ListOf;
  }

  lemma ListLengths(v: RatchetRecord)
    requires RatchetCodec().ok(v)
    ensures |ListOf(SenderCodec(), 1).put(v.senders)| + |ListOf(ReceiverCodec(), 5).put(v.receivers)| + 36
         == LastItemsAt(v)
  {
    RatchetOk(v);
    ChainsSized();
    hide SenderCodec, ReceiverCodec, SkippedCodec, Sized, BigEndian, PutAll, Items, RatchetCodec;
    PutAllLength(SenderCodec(), v.senders, 100);
    PutAllLength(ReceiverCodec(), v.receivers, 68);
  }

  /** What is left of a session that is cut to k bytes. */
  function SessionLeft(v: SessionRecord, k: nat): Option<SessionRecord> {
    var r := OfRoot(v.ratchet, Left(SkippedCodec(), v.ratchet.skipped, 133 + LastItemsAt(v.ratchet), k));
    if r.None? then None else Some(v.(ratchet := r.value))
  }

  lemma SessionParts(v: SessionRecord)
    requires SessionBody().ok(v)
    ensures var keys := ((v.aliceIdentity, v.aliceBase), (v.bobOneTime, v.bobPrekey));
      && FourKeys().ok(keys) && |FourKeys().put(keys)| == 128 && RatchetCodec().ok(v.ratchet)
      && SessionBody().put(v) == Flag().put(v.received) + (FourKeys().put(keys) + RatchetCodec().put(v.ratchet))
  {
    FourKeysSized();
    hide RatchetCodec, FourKeys;
    var keys := ((v.aliceIdentity, v.aliceBase), (v.bobOneTime, v.bobPrekey));
    var rest := Pair(FourKeys(), RatchetCodec());
    assert Pair(Flag(), rest).ok(OfSession(v));
    assert rest.ok((keys, v.ratchet));
  }

  lemma SessionGet(s: Bytes, pos: nat)
    ensures SessionBody().get(s, pos)
      == var r := Pair(Flag(), Pair(FourKeys(), RatchetCodec())).get(s, pos);
         if r.None? then None else Some((ToSession(r.value.0), r.value.1))
  {
    hide RatchetCodec, FourKeys;
  }

  lemma RatchetNeedy()
    ensures Needy(RatchetCodec())
  {
    RawStrict(32);
    PairNeedy(Raw(32), Lists());
    hide Needy, Lists;
    forall s: Bytes
      ensures RatchetCodec().get(s, |s|) == None
    {
      RatchetGet(s, |s|);
      NeedyAt(Pair(Raw(32), Lists()), s);
      hide RatchetCodec, Pair;
    }
    NeedyIs(RatchetCodec());
  }

  lemma NeedyAt<T(!new)>(c: Codec<T>, s: Bytes)
    requires Needy(c)
    ensures c.get(s, |s|) == None
  {
  }

  lemma NeedyIs<T(!new)>(c: Codec<T>)
    requires forall s: Bytes :: c.get(s, |s|) == None
    ensures Needy(c)
  {
  }

  lemma SessionBodyCut(v: SessionRecord, s: Bytes, k: nat)
    requires SessionBody().ok(v) && CutAt(s, 4, SessionBody().put(v), k)
    ensures SessionBody().get(s, 4) == At(SessionLeft(v, k + 4), |s|)
  {
    hide Lawful, Strict, Halts, Needy, CutAt, FourKeys, RatchetCodec, SessionBody, Pair, Left, SkippedCodec,
      LastItemsAt;
    var keys := ((v.aliceIdentity, v.aliceBase), (v.bobOneTime, v.bobPrekey));
    SessionParts(v);
    SessionGet(s, 4);
    FlagLawful();
    FlagStrict();
    StrictHalts(Flag());
    RecordsStrict();
    StrictHalts(FourKeys());
    FourKeysLawful();
    RatchetNeedy();
    TripleCut(Flag(), FourKeys(), RatchetCodec(), v.received, keys, v.ratchet, s, 4, k);
    if k >= 129 {
      RatchetCut(v.ratchet, s, 133, k - 129);
      LeftMoves(SkippedCodec(), v.ratchet.skipped, LastItemsAt(v.ratchet), k - 129, 133);
    } else {
      NothingLeft(v, k + 4);
    }
  }

  lemma FourKeysLawful()
    ensures Lawful(FourKeys())
  {
    hide Lawful;
    RawLawful(32);
    PairLawful(Raw(32), Raw(32));
    PairLawful(Pair(Raw(32), Raw(32)), Pair(Raw(32), Raw(32)));
  }

  lemma NothingLeft(v: SessionRecord, k: nat)
    requires k < 133
    ensures SessionLeft(v, k) == None
  {
    hide LastItemsAt;
  }

  /** A version and a body, cut. */
  lemma VersionCut(version: nat, body: Bytes, k: nat)
    requires version < TWO32 && k < 4 + |body|
    ensures var s := (BigEndian(4, version) + body)[..k];
      && NumberAt(4, s, 0) == (if k < 4 then None else Some((version, 4)))
      && (k >= 4 ==> CutAt(s, 4, body, k - 4))
  {
    var s := (BigEndian(4, version) + body)[..k];
    if k >= 4 {
      FourBytes(version);
      NumberRoundTrip(4, version);
      assert s[0..0 + 4] == BigEndian(4, version);
      assert s[4..] == body[..k - 4];
    }
  }

  lemma CutSessionReads(v: SessionRecord, k: nat)
    requires SessionBody().ok(v) && k < |PutSession(v)|
    ensures GetSession(PutSession(v)[..k])
         == if SessionLeft(v, k).None? then Corrupted else Ok(SessionLeft(v, k).value)
  {
    var s := PutSession(v)[..k];
    VersionCut(SESSION_VERSION, SessionBody().put(v), k);
    hide SessionBody, NumberAt, BigEndian, CutAt, SessionLeft;
    if k >= 4 {
      SessionBodyCut(v, s, k - 4);
    } else {
      NothingLeft(v, k);
    }
  }

  /** Where the skipped key j begins: 68 bytes for it and for each after it. */
  function SkippedFrom(v: SessionRecord, j: nat): int {
    |PutSession(v)| - 68 * (|v.ratchet.skipped| - j)
  }

  /** The session without the skipped keys from j on. */
  function Shortened(v: SessionRecord, j: nat): SessionRecord
    requires j <= |v.ratchet.skipped|
  {
    v.(ratchet := v.ratchet.(skipped := v.ratchet.skipped[..j]))
  }

  lemma SkippedStart(v: SessionRecord, j: nat)
    requires SessionBody().ok(v)
    ensures SkippedFrom(v, j) == 133 + LastItemsAt(v.ratchet) + 68 * j
  {
    SessionLength(v);
    hide PutSession, SessionBody;
  }

  lemma SkippedCount(v: SessionRecord, k: nat, j: nat)
    requires SessionBody().ok(v) && k >= 133 + LastItemsAt(v.ratchet)
    ensures ItemsBefore(SkippedCodec(), v.ratchet.skipped, k - 133 - LastItemsAt(v.ratchet)) == Some(j)
      <==> j <= |v.ratchet.skipped| && k == SkippedFrom(v, j)
  {
    hide SessionBody, SenderCodec, ReceiverCodec, SkippedCodec, Sized, Items, LastItemsAt, SkippedFrom, ItemsBefore;
    SkippedOk(v);
    ChainsSized();
    SkippedStart(v, j);
    ItemsBeforeIff(SkippedCodec(), v.ratchet.skipped, k - 133 - LastItemsAt(v.ratchet), 68, j);
  }

  lemma LeftAtItem(v: SessionRecord, k: nat, j: nat)
    requires SessionBody().ok(v) && j <= |v.ratchet.skipped| && k == SkippedFrom(v, j)
    ensures SessionLeft(v, k) == Some(Shortened(v, j))
  {
    hide SessionBody, SkippedCodec, LastItemsAt, SkippedFrom, ItemsBefore, PutSession;
    SkippedStart(v, j);
    SkippedCount(v, k, j);
  }

  lemma LeftOnlyAtItem(v: SessionRecord, k: nat) returns (j: nat)
    requires SessionBody().ok(v) && SessionLeft(v, k).Some?
    ensures j <= |v.ratchet.skipped| && k == SkippedFrom(v, j)
  {
    hide SessionBody, SkippedCodec, LastItemsAt, SkippedFrom, ItemsBefore;
    j := ItemsBefore(SkippedCodec(), v.ratchet.skipped, k - 133 - LastItemsAt(v.ratchet)).value;
    SkippedCount(v, k, j);
  }

  /** A session pickle that has lost its end is taken for a whole one just when the cut falls between two
   *  items of the last list, the skipped message keys: then the session lacks the keys that were cut
   *  off. Everywhere else it is refused. */
  lemma CutSession(v: SessionRecord, k: nat)
    requires SessionBody().ok(v) && k < |PutSession(v)|
    ensures var r := GetSession(PutSession(v)[..k]);
      && (r.Ok? <==> exists j: nat :: j < |v.ratchet.skipped| && k == SkippedFrom(v, j))
      && (forall j: nat :: j < |v.ratchet.skipped| && k == SkippedFrom(v, j) ==> r == Ok(Shortened(v, j)))
      && (!r.Ok? ==> r == Corrupted)
  {
    CutSessionReads(v, k);
    forall j: nat | j < |v.ratchet.skipped| && k == SkippedFrom(v, j)
      ensures SessionLeft(v, k) == Some(Shortened(v, j))
    {
      LeftAtItem(v, k, j);
    }
    if SessionLeft(v, k).Some? {
      var j := LeftOnlyAtItem(v, k);
      assert j < |v.ratchet.skipped|;
    }
    hide GetSession, PutSession, SessionBody, SessionLeft;
  }

  function PutLogging(v: SessionRecord, index: nat): Bytes {
    BigEndian(4, LOGGING_VERSION) + (SessionBody().put(v) + BigEndian(4, index))
  }

  /** A pickle of version 0x80000001 ends in a chain index, which every cut takes away: all are refused. */
  lemma CutLogging(v: SessionRecord, index: nat, k: nat)
    requires SessionBody().ok(v) && index < TWO32 && k < |PutLogging(v, index)|
    ensures GetSession(PutLogging(v, index)[..k]) == Corrupted
  {
    var s, body := PutLogging(v, index)[..k], SessionBody().put(v);
    VersionCut(LOGGING_VERSION, body + BigEndian(4, index), k);
    if k >= 4 {
      CutParts(s, 4, body, BigEndian(4, index), k - 4);
      NoIndexLeft(v, index, s, k - 4);
    }
    hide SessionBody, NumberAt, BigEndian, CutAt, Holds, WithDummy;
  }

  lemma NoIndexLeft(v: SessionRecord, index: nat, s: Bytes, k: nat)
    requires SessionBody().ok(v) && 4 + k == |s| && k < |SessionBody().put(v)| + 4
    requires k < |SessionBody().put(v)| ==> CutAt(s, 4, SessionBody().put(v), k)
    requires k >= |SessionBody().put(v)| ==> Holds(s, 4, SessionBody().put(v))
    ensures WithDummy(SessionBody().get(s, 4), s) == None
  {
    SessionBodyLawful();
    hide SessionBody, SessionLeft, CutAt;
    if k < |SessionBody().put(v)| {
      SessionBodyCut(v, s, k);
    } else {
      assert Reads(SessionBody(), v, s, 4);
    }
  }

  lemma SkippedOk(v: SessionRecord)
    requires SessionBody().ok(v)
    ensures Items(SkippedCodec(), v.ratchet.skipped)
  {
    SessionParts(v);
    RatchetOk(v.ratchet);
    hide SessionBody, RatchetCodec, FourKeys, SkippedCodec, Items;
  }

  // ----- the input on which it shows -----

  /** A session that has been set up by its peer and whose first message to arrive was the second one sent:
   *  one receiver chain past message 1, and the key of message 0 skipped. */
  function OneSkipped(): SessionRecord {
    var key := Sha256.Zeros(32);
    SessionRecord(true, key, key, key, key, RatchetRecord(key, [], [Receiver(key, key, 2)], [Skipped(key, key, 0)]))
  }

  lemma OneSkippedOk()
    ensures SessionBody().ok(OneSkipped())
  {
    var v := OneSkipped();
    OneKeyOk(Sha256.Zeros(32), 0);
    OneKeyOk(Sha256.Zeros(32), 2);
    ChainsSized();
    NoSenders();
    hide SkippedCodec, ReceiverCodec, SenderCodec, FourKeys;
    SingleOk(SkippedCodec(), v.ratchet.skipped[0], 68, 40);
    SingleOk(ReceiverCodec(), v.ratchet.receivers[0], 68, 5);
    hide ListOf, Sized;
    assert Pair(ListOf(ReceiverCodec(), 5), ListOf(SkippedCodec(), 40)).ok((v.ratchet.receivers, v.ratchet.skipped));
    assert Lists().ok((v.ratchet.senders, (v.ratchet.receivers, v.ratchet.skipped)));
    assert Pair(Raw(32), Lists()).ok(OfRatchet(v.ratchet));
    assert RatchetCodec().ok(v.ratchet);
    hide RatchetCodec;
    FourKeysOk(v);
    var keys := ((v.aliceIdentity, v.aliceBase), (v.bobOneTime, v.bobPrekey));
    assert Pair(FourKeys(), RatchetCodec()).ok((keys, v.ratchet));
    assert Pair(Flag(), Pair(FourKeys(), RatchetCodec())).ok(OfSession(v));
  }

  lemma NoSenders()
    ensures ListOf(SenderCodec(), 1).ok([])
  {
  }

  lemma OneKeyOk(key: Bytes, index: nat)
    requires |key| == 32 && index < TWO32
    ensures SkippedCodec().ok(Skipped(key, key, index)) && ReceiverCodec().ok(Receiver(key, key, index))
  {
    FourBytes(index);
    assert Number(4).ok(index) && Raw(32).ok(key);
    assert KeyIndex().ok((key, index));
    assert OfSkipped(Skipped(key, key, index)) == OfReceiver(Receiver(key, key, index)) == (key, (key, index));
    assert Pair(Raw(32), KeyIndex()).ok((key, (key, index)));
  }

  lemma SingleOk<T(!new)>(c: Codec<T>, x: T, n: nat, max: nat)
    requires c.ok(x) && Sized(c, n) && n > 0 && 0 < max < TWO32
    ensures ListOf(c, max).ok([x])
  {
    assert |c.put(x)| == n;
    assert [x][1..] == [];
    assert Items(c, [x]);
  }

  lemma FourKeysOk(v: SessionRecord)
    requires |v.aliceIdentity| == 32 && |v.aliceBase| == 32 && |v.bobOneTime| == 32 && |v.bobPrekey| == 32
    ensures FourKeys().ok(((v.aliceIdentity, v.aliceBase), (v.bobOneTime, v.bobPrekey)))
  {
    assert Pair(Raw(32), Raw(32)).ok((v.aliceIdentity, v.aliceBase));
    assert Pair(Raw(32), Raw(32)).ok((v.bobOneTime, v.bobPrekey));
  }

  /** The last 68 bytes of this pickle can go missing unnoticed, and the skipped key with them. */
  lemma LostSkippedKey()
    ensures var v := OneSkipped();
      && |PutSession(v)| >= 68
      && GetSession(PutSession(v)[..|PutSession(v)| - 68]) == Ok(Shortened(v, 0)) && Shortened(v, 0) != v
  {
    var v := OneSkipped();
    OneSkippedOk();
    SessionLength(v);
    hide SessionBody, PutSession, GetSession;
    CutSession(v, |PutSession(v)| - 68);
    assert SkippedFrom(v, 0) == |PutSession(v)| - 68;
    assert |Shortened(v, 0).ratchet.skipped| == 0;
  }

  // ----- accounts and group sessions -----

  lemma KeyRecordsStrict()
    ensures Strict(OneTimeCodec()) && Strict(PrekeyCodec())
  {
    hide Lawful, Strict, Halts, Needy;
    NumberLawful(4);
    FlagLawful();
    RawLawful(32);
    NumberStrict(4);
    FlagStrict();
    RawStrict(32);
    RawStrict(64);
    PairLawful(Number(4), Flag());
    PairLawful(Raw(32), Raw(32));
    PairLawful(Pair(Number(4), Flag()), Pair(Raw(32), Raw(32)));
    StrictPair(Number(4), Flag());
    StrictPair(Raw(32), Raw(32));
    StrictPair(Pair(Number(4), Flag()), Pair(Raw(32), Raw(32)));
    MappedStrict(IdFlagPair(), ToOneTime, OfOneTime);
    StrictPair(IdFlagPair(), Raw(64));
    MappedStrict(Pair(IdFlagPair(), Raw(64)), ToPrekey, OfPrekey);
  }

  lemma IdentitiesStrict()
    ensures Strict(Identities()) && Needy(Identities())
  {
    hide Lawful, Strict, Halts, Needy;
    RawLawful(32);
    RawLawful(64);
    RawStrict(32);
    RawStrict(64);
    PairLawful(Raw(32), Raw(64));
    StrictPair(Raw(32), Raw(64));
    StrictPair(Raw(32), Raw(32));
    StrictPair(Pair(Raw(32), Raw(64)), Pair(Raw(32), Raw(32)));
  }

  /** The list of one-time keys is followed by a count, which a cut in the list takes away. */
  lemma AccountPartsStrict()
    ensures Strict(Prekeys()) && Needy(Prekeys()) && Strict(OneTimes()) && Needy(OneTimes())
  {
    hide Lawful, Strict, Halts, Needy, OneTimeCodec, PrekeyCodec;
    KeyRecordsLawful();
    KeyRecordsStrict();
    NumberLawful(4);
    NumberStrict(4);
    NumberStrict(8);
    CountedLawful(PrekeyCodec());
    CountedLawful(OneTimeCodec());
    CountedStrict(PrekeyCodec());
    CountedStrict(OneTimeCodec());
    StrictPair(Number(4), Number(8));
    StrictPair(Counted(PrekeyCodec()), Pair(Number(4), Number(8)));
    StrictPair(Counted(OneTimeCodec()), Number(4));
    ListLawful(OneTimeCodec(), 100);
    ListHalts(OneTimeCodec(), 100);
    PairStrict(ListOf(OneTimeCodec(), 100), Pair(Counted(OneTimeCodec()), Number(4)));
    PairNeedy(ListOf(OneTimeCodec(), 100), Pair(Counted(OneTimeCodec()), Number(4)));
  }

  lemma AccountBodyStrict()
    ensures Strict(AccountBody())
  {
    hide Lawful, Strict, Halts, Needy, Identities, Prekeys, OneTimes;
    AccountPartsLawful();
    AccountPartsStrict();
    IdentitiesStrict();
    StrictPair(Prekeys(), OneTimes());
    StrictPair(Identities(), Pair(Prekeys(), OneTimes()));
    MappedStrict(Pair(Identities(), Pair(Prekeys(), OneTimes())), ToAccount, OfAccount);
  }

  /** An account pickle that has lost its end is refused, wherever it is cut. */
  lemma CutAccount(v: AccountRecord, k: nat)
    requires AccountBody().ok(v) && k < |PutAccount(v)|
    ensures GetAccount(PutAccount(v)[..k]) == Corrupted
  {
    AccountBodyStrict();
    VersionCut(ACCOUNT_VERSION, AccountBody().put(v), k);
    hide AccountBody, NumberAt, BigEndian;
  }

  lemma GroupStrict()
    ensures Strict(InboundBody()) && Strict(OutboundBody())
  {
    hide Lawful, Strict, Halts, Needy;
    RawLawful(128);
    RawLawful(32);
    RawStrict(128);
    RawStrict(64);
    RawStrict(32);
    NumberStrict(4);
    FlagStrict();
    StrictPair(Raw(128), Number(4));
    MappedStrict(Pair(Raw(128), Number(4)), ToMegolm, OfMegolm);
    NumberLawful(4);
    PairLawful(Raw(128), Number(4));
    MappedLawful(Pair(Raw(128), Number(4)), ToMegolm, OfMegolm);
    hide MegolmCodec;
    PairLawful(MegolmCodec(), MegolmCodec());
    StrictPair(MegolmCodec(), MegolmCodec());
    StrictPair(Raw(32), Flag());
    StrictPair(Pair(MegolmCodec(), MegolmCodec()), Pair(Raw(32), Flag()));
    MappedStrict(Pair(Pair(MegolmCodec(), MegolmCodec()), Pair(Raw(32), Flag())), ToInbound, OfInbound);
    StrictPair(Raw(32), Raw(64));
    StrictPair(MegolmCodec(), Pair(Raw(32), Raw(64)));
    MappedStrict(Pair(MegolmCodec(), Pair(Raw(32), Raw(64))), ToOutbound, OfOutbound);
  }

  /** So is a group session's, on either side. */
  lemma CutGroup(v: InboundRecord, u: OutboundRecord, k: nat)
    requires InboundBody().ok(v) && OutboundBody().ok(u)
    ensures k < |PutInbound(v)| ==> GetInbound(PutInbound(v)[..k]) == Corrupted
    ensures k < |PutOutbound(u)| ==> GetOutbound(PutOutbound(u)[..k]) == Corrupted
  {
    GroupStrict();
    hide InboundBody, OutboundBody, NumberAt, BigEndian;
    if k < |PutInbound(v)| {
      VersionCut(2, InboundBody().put(v), k);
    }
    if k < |PutOutbound(u)| {
      VersionCut(1, OutboundBody().put(u), k);
    }
  }
}
