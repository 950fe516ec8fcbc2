/** What holds of one party of a Double Ratchet session at any time, relative to the history. */
module RatchetParty {
  import opened Words
  import opened BoundedList
  import opened DoubleRatchet
  import opened RatchetHistory

  /** An epoch and a counter. */
  type Slot = (nat, nat)

  /** The skipped keys, with the epochs they belong to and the slots that had to make room. */
  datatype Shelf = Shelf(skipped: seq<SkippedKey>, epochs: seq<nat>, evicted: set<Slot>)

  /** A party: its ratchet state, its epoch, and an account of the messages it has dealt with. */
  datatype Party = Party(st: State, epoch: nat, epochs: seq<nat>, decrypted: set<Slot>, evicted: set<Slot>) {
    function Kept(): Shelf { Shelf(st.skipped, epochs, evicted) }

    /** The newest epoch of the peer that the party has received from: -1 when there is none. */
    function Top(): int { if st.sender.Some? then epoch - 1 else epoch }
  }

  // ----- the shelf of skipped keys -----

  function Stored(s: Shelf): set<Slot>
    requires |s.epochs| == |s.skipped|
  {
    set j | 0 <= j < |s.skipped| :: (s.epochs[j], s.skipped[j].index as nat)
  }

  /** The key that the sender used for the message it is for. */
  ghost predicate EntryFor(h: History, e: nat, key: SkippedKey) {
    && e < |h.keys| == |h.log|
    && key.ratchetKey == h.keys[e] && key.index < |h.log[e]|
    && key.key == MessageKey(h, e, key.index)
  }

  ghost predicate Aligned(s: Shelf) {
    |s.epochs| == |s.skipped| <= 40
  }

  ghost predicate EntriesValid(h: History, s: Shelf)
    requires Aligned(s)
  {
    forall j :: 0 <= j < |s.skipped| ==> EntryFor(h, s.epochs[j], s.skipped[j])
  }

  /** Newest first within a chain, hence no slot twice. */
  ghost predicate NewestFirst(s: Shelf)
    requires Aligned(s)
  {
    forall a, b :: 0 <= a < b < |s.skipped| && s.epochs[a] == s.epochs[b] ==>
      s.skipped[a].index > s.skipped[b].index
  }

  ghost predicate ShelfValid(h: History, s: Shelf) {
    Aligned(s) && EntriesValid(h, s) && NewestFirst(s) && s.evicted !! Stored(s)
  }

  /** One more skipped key at the front; the oldest goes when there is no room. */
  function ShelveOne(s: Shelf, e: nat, key: SkippedKey): (r: Shelf)
    requires |s.epochs| == |s.skipped| <= MAX_SKIPPED_MESSAGE_KEYS
    ensures |r.epochs| == |r.skipped| <= MAX_SKIPPED_MESSAGE_KEYS
  {
    var n := |s.skipped|;
    Shelf(Inserted(s.skipped, MAX_SKIPPED_MESSAGE_KEYS, 0, key), Inserted(s.epochs, MAX_SKIPPED_MESSAGE_KEYS, 0, e),
          if n < MAX_SKIPPED_MESSAGE_KEYS then s.evicted
          else s.evicted + {(s.epochs[n - 1], s.skipped[n - 1].index as nat)})
  }

  function Shelve(s: Shelf, e: nat, ratchetKey: nat, chain: ChainKey, n: nat): (r: Shelf)
    requires |s.epochs| == |s.skipped| <= MAX_SKIPPED_MESSAGE_KEYS && chain.index + n < TWO32
    ensures |r.epochs| == |r.skipped| <= MAX_SKIPPED_MESSAGE_KEYS
    ensures r.skipped == Store(s.skipped, ratchetKey, chain, n)
  {
    if n == 0 then s
    else ShelveOne(Shelve(s, e, ratchetKey, chain, n - 1), e,
                   SkippedKey(ratchetKey, chain.index + n - 1, ForMessage(Iterate(chain.key, n - 1))))
  }

  /** The counters a chain passes over when it moves n messages on from index. */
  function Passed(e: nat, index: nat, n: nat): set<Slot> {
    set c | index <= c < index + n :: (e, c)
  }

  ghost predicate NothingFrom(s: Shelf, e: nat, index: nat)
    requires |s.epochs| == |s.skipped|
  {
    forall c :: c >= index ==> (e, c) !in Stored(s) && (e, c) !in s.evicted
  }

  lemma ShelveOneKeeps(h: History, s: Shelf, e: nat, key: SkippedKey)
    requires ShelfValid(h, s) && EntryFor(h, e, key) && NothingFrom(s, e, key.index)
    ensures ShelfValid(h, ShelveOne(s, e, key))
    ensures NothingFrom(ShelveOne(s, e, key), e, key.index + 1)
    ensures Stored(ShelveOne(s, e, key)) + ShelveOne(s, e, key).evicted
         == Stored(s) + s.evicted + {(e, key.index as nat)}
  {
    var r := ShelveOne(s, e, key);
    ShelveOneFront(s, e, key);
    FrontKeeps(h, s, r, e, key);
    hide EntriesValid, NewestFirst, ShelveOne, Stored, Front, EntryFor;
    if |s.skipped| == MAX_SKIPPED_MESSAGE_KEYS {
      DropLast(s, r, e, key);
    } else {
      KeepLast(s, r, e, key);
    }
    ShelveOneEvicts(s, e, key);
  }

  lemma ShelveOneEvicts(s: Shelf, e: nat, key: SkippedKey)
    requires Aligned(s)
    ensures var n := |s.skipped|;
            ShelveOne(s, e, key).evicted
              == if n < MAX_SKIPPED_MESSAGE_KEYS then s.evicted
                 else s.evicted + {(s.epochs[n - 1], s.skipped[n - 1].index as nat)}
  {
  }

  lemma ShelveOneFront(s: Shelf, e: nat, key: SkippedKey)
    requires Aligned(s)
    ensures Front(s, ShelveOne(s, e, key), e, key)
    ensures |ShelveOne(s, e, key).skipped|
         == if |s.skipped| < MAX_SKIPPED_MESSAGE_KEYS then |s.skipped| + 1 else |s.skipped|
  {
    InsertedFront(s.skipped, MAX_SKIPPED_MESSAGE_KEYS, key);
    InsertedFront(s.epochs, MAX_SKIPPED_MESSAGE_KEYS, e);
  }

  lemma FrontKeeps(h: History, s: Shelf, r: Shelf, e: nat, key: SkippedKey)
    requires Aligned(s) && EntriesValid(h, s) && NewestFirst(s)
    requires EntryFor(h, e, key) && NothingFrom(s, e, key.index)
    requires Front(s, r, e, key) && Aligned(r)
    ensures EntriesValid(h, r) && NewestFirst(r)
  {
    hide EntryFor;
    forall j | 0 <= j < |s.skipped|
      ensures s.epochs[j] == e ==> s.skipped[j].index < key.index
    {
      assert (s.epochs[j], s.skipped[j].index as nat) in Stored(s);
    }
  }

  ghost predicate Front(s: Shelf, r: Shelf, e: nat, key: SkippedKey) {
    && |s.epochs| == |s.skipped| && |r.epochs| == |r.skipped| > 0
    && r.skipped[0] == key && r.epochs[0] == e
    && |r.skipped| <= |s.skipped| + 1
    && (forall j :: 0 < j < |r.skipped| ==> r.skipped[j] == s.skipped[j - 1] && r.epochs[j] == s.epochs[j - 1])
  }

  lemma KeepLast(s: Shelf, r: Shelf, e: nat, key: SkippedKey)
    requires Front(s, r, e, key) && |r.skipped| == |s.skipped| + 1
    ensures Stored(r) == Stored(s) + {(e, key.index as nat)}
  {
    forall x | x in Stored(s) + {(e, key.index as nat)}
      ensures x in Stored(r)
    {
      if x in Stored(s) {
        var j :| 0 <= j < |s.skipped| && x == (s.epochs[j], s.skipped[j].index as nat);
        assert r.skipped[j + 1] == s.skipped[j];
      }
    }
  }

  lemma DropLast(s: Shelf, r: Shelf, e: nat, key: SkippedKey)
    requires Aligned(s) && NewestFirst(s) && Front(s, r, e, key) && |r.skipped| == |s.skipped|
    requires (e, key.index as nat) !in Stored(s)
    ensures var n := |s.skipped|;
            var last := (s.epochs[n - 1], s.skipped[n - 1].index as nat);
            && last in Stored(s)
            && Stored(r) == Stored(s) - {last} + {(e, key.index as nat)}
  {
    var n := |s.skipped|;
    var last := (s.epochs[n - 1], s.skipped[n - 1].index as nat);
    forall x | x in Stored(s) - {last}
      ensures x in Stored(r)
    {
      var j :| 0 <= j < n && x == (s.epochs[j], s.skipped[j].index as nat);
      assert r.skipped[j + 1] == s.skipped[j];
    }
    forall x | x in Stored(r)
      ensures x in Stored(s) - {last} + {(e, key.index as nat)}
    {
      var j :| 0 <= j < n && x == (r.epochs[j], r.skipped[j].index as nat);
    }
  }

  /** r is s after a chain of epoch e has passed n messages from index on: each counter passed
   *  over is stored, and the oldest slots are lost, but only from a full shelf. */
  ghost predicate Moved(h: History, s: Shelf, r: Shelf, e: nat, index: nat, n: nat) {
    && Aligned(s) && ShelfValid(h, r) && NothingFrom(r, e, index + n)
    && Stored(r) + r.evicted == Stored(s) + s.evicted + Passed(e, index, n)
    && s.evicted <= r.evicted
    && (r.evicted != s.evicted ==> |r.skipped| == 40)
  }

  lemma MovedOne(h: History, s: Shelf, mid: Shelf, e: nat, index: nat, n: nat, key: SkippedKey)
    requires Moved(h, s, mid, e, index, n)
    requires EntryFor(h, e, key) && key.index == index + n
    ensures Moved(h, s, ShelveOne(mid, e, key), e, index, n + 1)
  {
    assert Aligned(mid);
    hide ShelfValid, NothingFrom, Stored, ShelveOne, EntryFor, Passed;
    ShelveOneKeeps(h, mid, e, key);
    ShelveOneEvicts(mid, e, key);
    ShelveOneFront(mid, e, key);
    PassedGrows(e, index, n);
  }

  lemma MovedNone(h: History, s: Shelf, e: nat, index: nat)
    requires ShelfValid(h, s) && NothingFrom(s, e, index)
    ensures Moved(h, s, s, e, index, 0)
  {
    assert Passed(e, index, 0) == {};
  }

  lemma PassedGrows(e: nat, index: nat, n: nat)
    ensures Passed(e, index, n + 1) == Passed(e, index, n) + {(e, index + n)}
  {
  }

  lemma {:induction false} ShelveKeeps(h: History, s: Shelf, e: nat, chain: ChainKey, n: nat)
    requires h.Valid() && ShelfValid(h, s) && Aligned(s)
    requires e < |h.keys| && chain.index + n <= |h.log[e]|
    requires chain.key == Iterate(ChainAt(h.secret, h.keys, e), chain.index)
    requires NothingFrom(s, e, chain.index)
    ensures Moved(h, s, Shelve(s, e, h.keys[e], chain, n), e, chain.index, n)
  {
    hide Moved, ShelfValid, NothingFrom;
    if n == 0 {
      MovedNone(h, s, e, chain.index);
    } else {
      ShelveKeeps(h, s, e, chain, n - 1);
      var key := SkippedKey(h.keys[e], chain.index + n - 1, ForMessage(Iterate(chain.key, n - 1)));
      IterateAdds(ChainAt(h.secret, h.keys, e), chain.index, n - 1);
      MovedOne(h, s, Shelve(s, e, h.keys[e], chain, n - 1), e, chain.index, n - 1, key);
    }
  }

  lemma {:induction false} IterateAdds(k: Key, a: nat, b: nat)
    ensures Iterate(Iterate(k, a), b) == Iterate(k, a + b)
  {
    if b > 0 {
      IterateAdds(k, a, b - 1);
    }
  }

  // ----- the invariant of one party -----

  ghost predicate ChainFor(h: History, e: int, chain: ReceiverChain) {
    && 0 <= e < |h.keys| == |h.log|
    && chain.ratchetKey == h.keys[e] && chain.chain.index <= |h.log[e]|
    && chain.chain.key == Iterate(ChainAt(h.secret, h.keys, e), chain.chain.index)
  }

  /** The chains of the peer's last epochs, newest first, at most five of them. */
  ghost predicate ChainsValid(h: History, receivers: seq<ReceiverChain>, top: int) {
    && top >= -1
    && |receivers| == (if (top + 2) / 2 < 5 then (top + 2) / 2 else 5)
    && forall k :: 0 <= k < |receivers| ==> ChainFor(h, top - 2 * k, receivers[k])
  }

  /** Party 0 is Alice and sends in even epochs; party 1 is Bob. */
  ghost predicate KeysAgree(h: History, who: nat, p: Party) {
    && p.epoch < |h.keys| == |h.log|
    && p.st.root == RootAt(h.secret, h.keys, p.epoch)
    && (p.st.sender.Some? <==> p.epoch % 2 == who)
    && (p.st.sender.Some? ==>
          && |h.log[p.epoch]| < TWO32
          && p.st.sender.value == SenderChain(h.keys[p.epoch],
               ChainKey(|h.log[p.epoch]|, Iterate(ChainAt(h.secret, h.keys, p.epoch), |h.log[p.epoch]|))))
  }

  function Seen(p: Party): set<Slot>
    requires |p.epochs| == |p.st.skipped|
  {
    p.decrypted + Stored(p.Kept()) + p.evicted
  }

  ghost predicate KeepsChain(p: Party, e: nat) {
    && e <= p.Top() && (p.Top() - e) % 2 == 0 && (p.Top() - e) / 2 < |p.st.receivers|
  }

  ghost function ChainOf(p: Party, e: nat): ChainKey
    requires KeepsChain(p, e)
  {
    p.st.receivers[(p.Top() - e) / 2].chain
  }

  /** Below the index of every kept chain each counter is decrypted, stored or evicted, and
   *  exactly one of these; from the index on it is none. */
  ghost predicate Accounted(p: Party) {
    && Aligned(p.Kept())
    && p.decrypted !! Stored(p.Kept()) && p.decrypted !! p.evicted && p.evicted !! Stored(p.Kept())
    && (forall x :: x in Seen(p) ==> x.0 <= p.Top())
    && (forall e: nat, c: nat :: KeepsChain(p, e) ==>
          (c < ChainOf(p, e).index <==> (e, c) in Seen(p)))
  }

  ghost predicate PartyInv(h: History, who: nat, p: Party) {
    && h.Valid() && p.st.Valid() && who < 2
    && KeysAgree(h, who, p)
    && ChainsValid(h, p.st.receivers, p.Top())
    && ShelfValid(h, p.Kept())
    && Accounted(p)
  }

  // ----- which messages a party can decrypt -----

  /** Exactly the messages that decrypt: see DeliveryOutcome. */
  ghost predicate Receivable(p: Party, e: nat, i: nat, sequential: bool)
    requires Aligned(p.Kept())
  {
    if KeepsChain(p, e) then
      var index := ChainOf(p, e).index;
      if i < index then (e, i) in Stored(p.Kept())
      else i - index <= 2000 && (sequential ==> i == index)
    else
      p.st.sender.Some? && e == p.epoch + 1 && i <= 2000
  }

  lemma KeysDistinct(h: History, a: nat, b: nat)
    requires h.Valid() && a < |h.keys| && b < |h.keys| && h.keys[a] == h.keys[b]
    ensures a == b
  {
  }

  lemma FindKeptChain(h: History, who: nat, p: Party, e: nat)
    requires PartyInv(h, who, p) && e < |h.keys|
    ensures var k := FindChain(p.st.receivers, h.keys[e]);
            && (k < |p.st.receivers| <==> KeepsChain(p, e))
            && (KeepsChain(p, e) ==> k == (p.Top() - e) / 2 && p.Top() - 2 * k == e)
  {
    hide ShelfValid, Accounted, KeysAgree, RootAt, ChainAt, Iterate;
    var k := FindChain(p.st.receivers, h.keys[e]);
    hide FindChain;
    if k < |p.st.receivers| {
      assert ChainFor(h, p.Top() - 2 * k, p.st.receivers[k]);
      KeysDistinct(h, p.Top() - 2 * k, e);
    }
    if KeepsChain(p, e) {
      var k' := (p.Top() - e) / 2;
      assert ChainFor(h, p.Top() - 2 * k', p.st.receivers[k']);
    }
  }

  lemma FindStoredKey(h: History, s: Shelf, e: nat, i: nat)
    requires h.Valid() && ShelfValid(h, s) && e < |h.log| && i < |h.log[e]|
    ensures var k := FindSkipped(s.skipped, h.keys[e], i, Sealed(MessageKey(h, e, i), h.log[e][i]));
            && (k < |s.skipped| <==> (e, i) in Stored(s))
            && (k < |s.skipped| ==> s.epochs[k] == e && s.skipped[k].index == i)
  {
    var sealed := Sealed(MessageKey(h, e, i), h.log[e][i]);
    var k := FindSkipped(s.skipped, h.keys[e], i, sealed);
    if k < |s.skipped| {
      assert EntryFor(h, s.epochs[k], s.skipped[k]);
      KeysDistinct(h, s.epochs[k], e);
    }
    if (e, i) in Stored(s) {
      var j :| 0 <= j < |s.skipped| && s.epochs[j] == e && s.skipped[j].index == i;
      assert EntryFor(h, s.epochs[j], s.skipped[j]);
      assert Fits(s.skipped[j], h.keys[e], i, sealed);
    }
  }

  lemma ChainOpens(h: History, e: nat, chain: ChainKey, i: nat)
    requires e < |h.keys| && chain.index <= i
    requires chain.key == Iterate(ChainAt(h.secret, h.keys, e), chain.index)
    ensures ForMessage(Iterate(chain.key, i - chain.index)) == MessageKey(h, e, i)
  {
    IterateAdds(ChainAt(h.secret, h.keys, e), chain.index, i - chain.index);
  }

  // ----- delivery -----

  /** The party after a message on the peer's next chain. */
  function OntoNewChain(h: History, p: Party, e: nat, i: nat): Party
    requires h.Valid() && p.st.Valid() && Aligned(p.Kept()) && e < |h.log| && i < |h.log[e]|
    requires p.st.sender.Some?
  {
    var shelf := Shelve(p.Kept(), e, h.keys[e], ChainKey(0, ChainAt(h.secret, h.keys, e)), i);
    Party(PastMessage(WithReceiver(p.st, h.keys[e]), 0, i), e, shelf.epochs, p.decrypted + {(e, i)}, shelf.evicted)
  }

  /** The party after a message at or past the index of its chain number k. */
  function OntoChain(h: History, p: Party, k: nat, e: nat, i: nat): Party
    requires h.Valid() && p.st.Valid() && Aligned(p.Kept()) && e < |h.log| && i < |h.log[e]|
    requires k < |p.st.receivers| && p.st.receivers[k].chain.index <= i
  {
    var chain := p.st.receivers[k].chain;
    var shelf := Shelve(p.Kept(), e, h.keys[e], chain, i - chain.index);
    p.(st := PastMessage(p.st, k, i), epochs := shelf.epochs, decrypted := p.decrypted + {(e, i)},
       evicted := shelf.evicted)
  }

  /** The party after a message opened by its skipped key number j. */
  function FromShelf(p: Party, j: nat): Party
    requires Aligned(p.Kept()) && j < |p.epochs|
  {
    p.(st := p.st.(skipped := Erased(p.st.skipped, j)), epochs := Erased(p.epochs, j),
       decrypted := p.decrypted + {(p.epochs[j], p.st.skipped[j].index as nat)})
  }

  /** The party after a delivery, with its account brought up to date. */
  function Delivered(h: History, p: Party, e: nat, i: nat, room: nat, sequential: bool): Party
    requires h.Valid() && p.st.Valid() && Aligned(p.Kept()) && e < |h.log| && i < |h.log[e]|
  {
    var msg := SentMessage(h, e, i);
    var (st, plaintext) := Decrypted(p.st, msg, room, sequential);
    if plaintext.None? then p.(st := st)
    else
      var k := FindChain(p.st.receivers, h.keys[e]);
      if k == |p.st.receivers| then
        (if p.st.sender.Some? then OntoNewChain(h, p, e, i) else p)
      else if i < p.st.receivers[k].chain.index then
        var j := FindSkipped(p.st.skipped, h.keys[e], i, msg.ciphertext.value);
        (if j < |p.epochs| then FromShelf(p, j) else p)
      else OntoChain(h, p, k, e, i)
  }

  /** The key a message is sealed with, and what it says. */
  function SealedMessage(h: History, e: nat, i: nat): Sealed
    requires h.Valid() && e < |h.log| && i < |h.log[e]|
  {
    Sealed(MessageKey(h, e, i), h.log[e][i])
  }

  ghost predicate OutcomeAsReceivable(h: History, p: Party, e: nat, i: nat, sequential: bool,
                                      out: (State, Option<seq<byte>>))
    requires h.Valid() && e < |h.log| && i < |h.log[e]| && Aligned(p.Kept())
  {
    && out.1 == (if Receivable(p, e, i, sequential) then Some(h.log[e][i]) else None)
    && (out.1.None? ==> out.0 == p.st.(lastError := out.0.lastError))
  }

  /** What becomes of a message whose chain is known. */
  lemma OutcomeOnKnown(st: State, ratchetKey: nat, i: u32, sealed: Sealed, sequential: bool)
    requires st.Valid() && FindChain(st.receivers, ratchetKey) < |st.receivers|
    ensures
      var chain := st.receivers[FindChain(st.receivers, ratchetKey)].chain;
      var opens := if i < chain.index then FindSkipped(st.skipped, ratchetKey, i, sealed) < |st.skipped|
                   else i - chain.index <= 2000 && (sequential ==> i == chain.index)
                        && sealed.key == ForMessage(Iterate(chain.key, i - chain.index));
      DecryptedWellFormed(st, ratchetKey, i, sealed, sequential).1 == if opens then Some(sealed.plaintext) else None
  {
    hide FindChain, FindSkipped, Iterate, Erased, PastMessage, WithReceiver;
  }

  /** What the invariant says of the chain and the stored keys of an epoch. */
  lemma KeptChain(h: History, who: nat, p: Party, e: nat, i: nat)
    requires PartyInv(h, who, p) && e < |h.log| && i < |h.log[e]| && KeepsChain(p, e)
    ensures h.Valid() && p.st.Valid() && Aligned(p.Kept())
    ensures i >= ChainOf(p, e).index
      ==> ForMessage(Iterate(ChainOf(p, e).key, i - ChainOf(p, e).index)) == MessageKey(h, e, i)
    ensures var k := FindSkipped(p.st.skipped, h.keys[e], i, SealedMessage(h, e, i));
      k < |p.st.skipped| <==> (e, i) in Stored(p.Kept())
  {
    FindStoredKey(h, p.Kept(), e, i);
    assert ChainFor(h, e, p.st.receivers[(p.Top() - e) / 2]);
    if i >= ChainOf(p, e).index {
      ChainOpens(h, e, ChainOf(p, e), i);
    }
    hide ShelfValid, Accounted, Stored, Iterate, FindSkipped, MessageKey;
  }

  lemma OutcomeOnKeptChain(h: History, who: nat, p: Party, e: nat, i: nat, sequential: bool)
    requires PartyInv(h, who, p) && e < |h.log| && i < |h.log[e]|
    requires KeepsChain(p, e)
    ensures OutcomeAsReceivable(h, p, e, i, sequential,
              DecryptedWellFormed(p.st, h.keys[e], i, SealedMessage(h, e, i), sequential))
  {
    hide PartyInv, Stored, Iterate, MessageKey, FindSkipped, FindChain, DecryptedWellFormed;
    KeptChain(h, who, p, e, i);
    FindKeptChain(h, who, p, e);
    OutcomeOnKnown(p.st, h.keys[e], i, SealedMessage(h, e, i), sequential);
  }

  lemma OutcomeOnNewChain(h: History, who: nat, p: Party, e: nat, i: nat, sequential: bool)
    requires PartyInv(h, who, p) && e < |h.log| && i < |h.log[e]|
    requires !KeepsChain(p, e)
    ensures OutcomeAsReceivable(h, p, e, i, sequential,
              DecryptedWellFormed(p.st, h.keys[e], i, SealedMessage(h, e, i), sequential))
  {
    FindKeptChain(h, who, p, e);
    if p.st.sender.Some? {
      DerivedChainOpens(h, p.epoch, e, i);
    }
    hide Accounted, ShelfValid, ChainsValid, KeepsChain, Iterate, MessageKey, PastMessage, WithReceiver, FindChain;
  }

  /** A sent message reaches any party, in any order and any number of times, its own sender
   *  included. It decrypts exactly when it is receivable, to what was sent; otherwise nothing
   *  but the recorded error changes. */
  lemma DeliveryOutcome(h: History, who: nat, p: Party, e: nat, i: nat, room: nat, sequential: bool)
    requires PartyInv(h, who, p) && e < |h.log| && i < |h.log[e]|
    requires room >= CbcLength(|h.log[e][i]|)
    ensures OutcomeAsReceivable(h, p, e, i, sequential,
              Decrypted(p.st, SentMessage(h, e, i), room, sequential))
  {
    hide CbcLength, DecryptedWellFormed, OutcomeAsReceivable, KeepsChain;
    if KeepsChain(p, e) {
      OutcomeOnKeptChain(h, who, p, e, i, sequential);
    } else {
      OutcomeOnNewChain(h, who, p, e, i, sequential);
    }
  }
}
