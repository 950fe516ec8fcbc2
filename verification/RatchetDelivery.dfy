/** Every delivery keeps the invariant of the receiving party. */
module RatchetDelivery {
  import opened Words
  import opened BoundedList
  import opened DoubleRatchet
  import opened RatchetHistory
  import opened RatchetParty

  // ----- a key taken from the shelf -----

  /** Where entry a of the shortened shelf was. */
  function Before(a: nat, j: nat): nat { if a < j then a else a + 1 }

  ghost predicate WithoutEntry(s: Shelf, r: Shelf, j: nat) {
    && |s.skipped| == |s.epochs| && |r.skipped| == |r.epochs| == |s.skipped| - 1 && j < |s.skipped|
    && (forall a :: 0 <= a < |r.skipped| ==>
          r.skipped[a] == s.skipped[Before(a, j)] && r.epochs[a] == s.epochs[Before(a, j)])
  }

  lemma EraseStored(s: Shelf, r: Shelf, j: nat)
    requires Aligned(s) && NewestFirst(s) && WithoutEntry(s, r, j)
    ensures Stored(r) == Stored(s) - {(s.epochs[j], s.skipped[j].index as nat)}
  {
    var slot := (s.epochs[j], s.skipped[j].index as nat);
    forall x | x in Stored(s) - {slot}
      ensures x in Stored(r)
    {
      var b :| 0 <= b < |s.skipped| && x == (s.epochs[b], s.skipped[b].index as nat);
      var a := if b < j then b else b - 1;
      assert Before(a, j) == b;
      assert r.skipped[a] == s.skipped[b];
    }
    forall x | x in Stored(r)
      ensures x in Stored(s) - {slot}
    {
      var a :| 0 <= a < |r.skipped| && x == (r.epochs[a], r.skipped[a].index as nat);
      assert x == (s.epochs[Before(a, j)], s.skipped[Before(a, j)].index as nat);
    }
  }

  lemma EraseShelf(h: History, s: Shelf, j: nat)
    requires ShelfValid(h, s) && j < |s.skipped|
    ensures var r := Shelf(Erased(s.skipped, j), Erased(s.epochs, j), s.evicted);
            && ShelfValid(h, r)
            && Stored(r) == Stored(s) - {(s.epochs[j], s.skipped[j].index as nat)}
  {
    hide EntryFor;
    var r := Shelf(Erased(s.skipped, j), Erased(s.epochs, j), s.evicted);
    assert WithoutEntry(s, r, j);
    EraseStored(s, r, j);
    hide Stored, Erased;
  }

  lemma DeliveredFromShelf(h: History, who: nat, p: Party, j: nat)
    requires PartyInv(h, who, p) && j < |p.epochs|
    ensures PartyInv(h, who, FromShelf(p, j))
    ensures (p.epochs[j], p.st.skipped[j].index as nat) !in p.decrypted
  {
    EraseShelf(h, p.Kept(), j);
    assert (p.epochs[j], p.st.skipped[j].index as nat) in Stored(p.Kept());
    hide ShelfValid, Stored, ChainsValid, KeysAgree;
    SameSeenAccount(p, FromShelf(p, j));
  }

  lemma SameSeenAccount(p: Party, p': Party)
    requires Accounted(p) && Aligned(p'.Kept())
    requires p'.Top() == p.Top() && p'.st.receivers == p.st.receivers
    requires p'.decrypted !! Stored(p'.Kept()) && p'.decrypted !! p'.evicted && p'.evicted !! Stored(p'.Kept())
    requires Seen(p') == Seen(p)
    ensures Accounted(p')
  {
    hide Seen, Stored;
    assert forall e: nat :: KeepsChain(p', e) ==> KeepsChain(p, e) && ChainOf(p', e) == ChainOf(p, e);
  }

  // ----- a chain moved on -----

  /** The account of p', whose chain of epoch e has moved from index just past message i. */
  lemma MovedAccount(h: History, p: Party, p': Party, e: nat, index: nat, i: nat)
    requires Aligned(p.Kept()) && p.decrypted !! Stored(p.Kept()) && p.decrypted !! p.evicted
    requires index <= i && Moved(h, p.Kept(), p'.Kept(), e, index, i - index)
    requires p'.decrypted == p.decrypted + {(e, i)}
    requires forall c: nat :: c >= index ==> (e, c) !in Seen(p)
    ensures p'.decrypted !! Stored(p'.Kept()) && p'.decrypted !! p'.evicted
    ensures Seen(p') == Seen(p) + Passed(e, index, i - index + 1)
    ensures (e, i) !in p.decrypted
  {
    hide ShelfValid, Stored;
    PassedGrows(e, index, i - index);
  }

  lemma NothingSeenFrom(p: Party, e: nat, index: nat)
    requires Aligned(p.Kept()) && forall c: nat :: c >= index ==> (e, c) !in Seen(p)
    ensures NothingFrom(p.Kept(), e, index)
  {
  }

  lemma OnChainShelf(h: History, who: nat, p: Party, k: nat, e: nat, i: nat)
    requires PartyInv(h, who, p) && e < |h.log| && i < |h.log[e]|
    requires KeepsChain(p, e) && k == (p.Top() - e) / 2 && p.st.receivers[k].chain.index <= i
    ensures Moved(h, p.Kept(), OntoChain(h, p, k, e, i).Kept(), e, p.st.receivers[k].chain.index,
                  i - p.st.receivers[k].chain.index)
    ensures forall c: nat :: c >= p.st.receivers[k].chain.index ==> (e, c) !in Seen(p)
  {
    hide ChainsValid, KeysAgree, Moved, PastMessage, Accounted, Seen, NothingFrom, ShelfValid, PartyInv, OntoChain,
      Shelve, EntryFor, Stored, Iterate, ChainAt, ChainFor;
    PartyParts(h, who, p);
    var chain := p.st.receivers[k].chain;
    ChainAndSeen(h, who, p, k, e);
    ChainParts(h, e, p.st.receivers[k]);
    NothingSeenFrom(p, e, chain.index);
    hide KeepsChain;
    ShelveKeeps(h, p.Kept(), e, chain, i - chain.index);
    OntoChainKept(h, p, k, e, i);
  }

  lemma PartyParts(h: History, who: nat, p: Party)
    requires PartyInv(h, who, p)
    ensures h.Valid() && p.st.Valid() && who < 2 && Aligned(p.Kept()) && ShelfValid(h, p.Kept())
    ensures ChainsValid(h, p.st.receivers, p.Top()) && Accounted(p)
  {
    hide ChainsValid, KeysAgree, NewestFirst, EntriesValid, Stored;
  }

  lemma ChainParts(h: History, e: nat, chain: ReceiverChain)
    requires ChainFor(h, e, chain)
    ensures e < |h.keys| == |h.log| && chain.ratchetKey == h.keys[e]
    ensures chain.chain.key == Iterate(ChainAt(h.secret, h.keys, e), chain.chain.index)
  {
    hide Iterate, ChainAt;
  }

  lemma ChainAndSeen(h: History, who: nat, p: Party, k: nat, e: nat)
    requires PartyInv(h, who, p) && e < |h.log| && KeepsChain(p, e) && k == (p.Top() - e) / 2
    ensures ChainFor(h, e, p.st.receivers[k])
    ensures forall c: nat :: c >= p.st.receivers[k].chain.index ==> (e, c) !in Seen(p)
  {
    assert ChainFor(h, e, p.st.receivers[k]);
    assert ChainOf(p, e) == p.st.receivers[k].chain;
    hide ShelfValid, KeysAgree, Seen;
  }

  lemma OntoChainKept(h: History, p: Party, k: nat, e: nat, i: nat)
    requires h.Valid() && p.st.Valid() && Aligned(p.Kept()) && e < |h.log| && i < |h.log[e]|
    requires k < |p.st.receivers| && p.st.receivers[k].chain.index <= i && p.st.receivers[k].ratchetKey == h.keys[e]
    ensures OntoChain(h, p, k, e, i).Kept()
      == Shelve(p.Kept(), e, h.keys[e], p.st.receivers[k].chain, i - p.st.receivers[k].chain.index)
  {
    hide Shelve, Store, Iterate;
  }

  lemma OnChainKeys(h: History, who: nat, p: Party, k: nat, e: nat, i: nat)
    requires PartyInv(h, who, p) && e < |h.log| && i < |h.log[e]|
    requires KeepsChain(p, e) && k == (p.Top() - e) / 2 && p.st.receivers[k].chain.index <= i
    ensures var p' := OntoChain(h, p, k, e, i);
            && KeysAgree(h, who, p') && p'.Top() == p.Top() && p'.st.Valid()
            && ChainsValid(h, p'.st.receivers, p'.Top())
            && p'.st.receivers[k].chain.index == i + 1
  {
    assert Aligned(p.Kept());
    hide ShelfValid, Accounted, Shelve;
    var chain := p.st.receivers[k].chain;
    assert ChainFor(h, e, p.st.receivers[k]);
    IterateAdds(ChainAt(h.secret, h.keys, e), chain.index, i - chain.index);
    OnChainChains(h, p, OntoChain(h, p, k, e, i), e, i, k);
  }

  /** A move on a chain that is kept. */
  lemma DeliveredOnChain(h: History, who: nat, p: Party, k: nat, e: nat, i: nat)
    requires PartyInv(h, who, p) && e < |h.log| && i < |h.log[e]|
    requires KeepsChain(p, e) && k == (p.Top() - e) / 2 && p.st.receivers[k].chain.index <= i
    ensures PartyInv(h, who, OntoChain(h, p, k, e, i))
    ensures (e, i) !in p.decrypted
  {
    var p' := OntoChain(h, p, k, e, i);
    OnChainShelf(h, who, p, k, e, i);
    OnChainKeys(h, who, p, k, e, i);
    OnChainOthers(h, p, k, e, i);
    hide ChainsValid, KeysAgree, Shelve, PastMessage, OntoChain;
    MovedAccount(h, p, p', e, p.st.receivers[k].chain.index, i);
    hide Stored, Seen, ShelfValid;
    OnChainAccount(p, p', e, i);
  }

  lemma OnChainOthers(h: History, p: Party, k: nat, e: nat, i: nat)
    requires h.Valid() && p.st.Valid() && Aligned(p.Kept()) && e < |h.log| && i < |h.log[e]|
    requires k < |p.st.receivers| && p.st.receivers[k].chain.index <= i
    ensures var p' := OntoChain(h, p, k, e, i);
            && p'.decrypted == p.decrypted + {(e, i)}
            && |p'.st.receivers| == |p.st.receivers|
            && forall k' :: 0 <= k' < |p.st.receivers| && k' != k ==> p'.st.receivers[k'] == p.st.receivers[k']
  {
  }

  lemma OnChainChains(h: History, p: Party, p': Party, e: nat, i: nat, k: nat)
    requires ChainsValid(h, p.st.receivers, p.Top()) && p'.Top() == p.Top()
    requires k < |p.st.receivers| && p.Top() - 2 * k == e && e < |h.log| && i < |h.log[e]| < TWO32
    requires var was := p.st.receivers[k];
             && was.chain.index <= i
             && p'.st.receivers == p.st.receivers[k :=
                  ReceiverChain(was.ratchetKey,
                                ChainKey(Wrap32(i + 1), Next(Iterate(was.chain.key, i - was.chain.index))))]
             && Iterate(was.chain.key, i - was.chain.index) == Iterate(ChainAt(h.secret, h.keys, e), i)
    ensures ChainsValid(h, p'.st.receivers, p'.Top())
    ensures p'.st.receivers[k].chain.index == i + 1
  {
    hide Iterate, ChainAt, ChainFor;
    assert ChainFor(h, e, p.st.receivers[k]);
    NextChainFor(h, e, p.st.receivers[k], i);
    forall j | 0 <= j < |p'.st.receivers|
      ensures ChainFor(h, p.Top() - 2 * j, p'.st.receivers[j])
    {
      assert ChainFor(h, p.Top() - 2 * j, p.st.receivers[j]);
    }
  }

  lemma NextChainFor(h: History, e: nat, was: ReceiverChain, i: nat)
    requires ChainFor(h, e, was) && was.chain.index <= i < |h.log[e]| < TWO32
    requires Iterate(was.chain.key, i - was.chain.index) == Iterate(ChainAt(h.secret, h.keys, e), i)
    ensures var next := ChainKey(Wrap32(i + 1), Next(Iterate(was.chain.key, i - was.chain.index)));
      ChainFor(h, e, ReceiverChain(was.ratchetKey, next)) && next.index == i + 1
  {
    hide ChainAt, Iterate;
    IterateNext(ChainAt(h.secret, h.keys, e), i);
  }

  lemma IterateNext(chain: Key, n: nat)
    ensures Iterate(chain, n + 1) == Next(Iterate(chain, n))
  {
  }

  lemma OnChainAccount(p: Party, p': Party, e: nat, i: nat)
    requires Accounted(p) && Aligned(p'.Kept())
    requires p'.Top() == p.Top() && |p'.st.receivers| == |p.st.receivers|
    requires KeepsChain(p, e) && ChainOf(p, e).index <= i && ChainOf(p', e).index == i + 1
    requires forall k :: 0 <= k < |p.st.receivers| && k != (p.Top() - e) / 2 ==> p'.st.receivers[k] == p.st.receivers[k]
    requires p'.decrypted !! Stored(p'.Kept()) && p'.decrypted !! p'.evicted && p'.evicted !! Stored(p'.Kept())
    requires Seen(p') == Seen(p) + Passed(e, ChainOf(p, e).index, i - ChainOf(p, e).index + 1)
    ensures Accounted(p')
  {
    hide Seen, Stored;
    forall e': nat, c: nat | KeepsChain(p', e')
      ensures c < ChainOf(p', e').index <==> (e', c) in Seen(p')
    {
      assert KeepsChain(p, e');
      if e' != e {
        assert ChainOf(p', e') == ChainOf(p, e');
      }
    }
  }

  // ----- a new chain -----

  lemma NewChainChains(h: History, p: Party, e: nat, started: ReceiverChain)
    requires p.st.sender.Some? && e == p.epoch + 1
    requires ChainsValid(h, p.st.receivers, p.Top()) && ChainFor(h, e, started)
    ensures ChainsValid(h, Inserted(p.st.receivers, MAX_RECEIVER_CHAINS, 0, started), e)
  {
    var r := Inserted(p.st.receivers, MAX_RECEIVER_CHAINS, 0, started);
    InsertedFront(p.st.receivers, MAX_RECEIVER_CHAINS, started);
    forall k | 0 <= k < |r|
      ensures ChainFor(h, e - 2 * k, r[k])
    {
      if k > 0 {
        assert r[k] == p.st.receivers[k - 1];
        assert ChainFor(h, p.Top() - 2 * (k - 1), p.st.receivers[k - 1]);
      }
    }
  }

  lemma NewChainAccount(p: Party, p': Party, e: nat, i: nat)
    requires p.st.sender.Some? && p'.st.sender.None? && p'.epoch == e == p.epoch + 1
    requires Accounted(p) && Aligned(p'.Kept())
    requires |p'.st.receivers| > 0 && |p'.st.receivers| <= |p.st.receivers| + 1
    requires p'.st.receivers[0].chain.index == i + 1
    requires forall k :: 0 < k < |p'.st.receivers| ==> p'.st.receivers[k] == p.st.receivers[k - 1]
    requires p'.decrypted !! Stored(p'.Kept()) && p'.decrypted !! p'.evicted && p'.evicted !! Stored(p'.Kept())
    requires Seen(p') == Seen(p) + Passed(e, 0, i + 1)
    ensures Accounted(p')
  {
    hide Seen, Stored;
    forall e': nat, c: nat | KeepsChain(p', e')
      ensures c < ChainOf(p', e').index <==> (e', c) in Seen(p')
    {
      if e' != e {
        assert (p'.Top() - e') / 2 - 1 == (p.Top() - e') / 2;
        assert KeepsChain(p, e') && ChainOf(p', e') == ChainOf(p, e');
      }
    }
  }

  lemma NewChainShelf(h: History, who: nat, p: Party, e: nat, i: nat)
    requires PartyInv(h, who, p) && e < |h.log| && i < |h.log[e]|
    requires p.st.sender.Some? && e == p.epoch + 1
    ensures Moved(h, p.Kept(), OntoNewChain(h, p, e, i).Kept(), e, 0, i)
    ensures forall c: nat :: (e, c) !in Seen(p)
  {
    var chain := ChainKey(0, ChainAt(h.secret, h.keys, e));
    assert Aligned(p.Kept());
    assert forall c: nat :: (e, c) !in Seen(p);
    hide Accounted, Moved, KeepsChain, ShelfValid, PastMessage, WithReceiver;
    NewChainReceivers(h, p, e, i, ReceiverChain(h.keys[e], chain));
    assert OntoNewChain(h, p, e, i).Kept() == Shelve(p.Kept(), e, h.keys[e], chain, i);
    hide ChainsValid, KeysAgree, OntoNewChain;
    NothingSeenFrom(p, e, 0);
    ShelveKeeps(h, p.Kept(), e, chain, i);
  }

  lemma NewChainKeys(h: History, who: nat, p: Party, e: nat, i: nat)
    requires PartyInv(h, who, p) && e < |h.log| && i < |h.log[e]|
    requires p.st.sender.Some? && e == p.epoch + 1
    ensures var p' := OntoNewChain(h, p, e, i);
            && KeysAgree(h, who, p') && p'.Top() == e && p'.st.Valid() && p'.st.sender.None? && p'.epoch == e
            && ChainsValid(h, p'.st.receivers, p'.Top())
            && 0 < |p'.st.receivers| <= |p.st.receivers| + 1
            && p'.st.receivers[0].chain.index == i + 1
            && (forall k :: 0 < k < |p'.st.receivers| ==> p'.st.receivers[k] == p.st.receivers[k - 1])
            && p'.decrypted == p.decrypted + {(e, i)}
  {
    hide ShelfValid, Accounted, Shelve;
    NewChainReceivers(h, p, e, i, ReceiverChain(h.keys[e], ChainKey(0, ChainAt(h.secret, h.keys, e))));
    hide ChainsValid, PastMessage, WithReceiver, Iterate, ChainAt, RootAt;
  }

  /** A message that starts the peer's next chain. */
  lemma DeliveredOnNewChain(h: History, who: nat, p: Party, e: nat, i: nat)
    requires PartyInv(h, who, p) && e < |h.log| && i < |h.log[e]|
    requires p.st.sender.Some? && e == p.epoch + 1
    ensures PartyInv(h, who, OntoNewChain(h, p, e, i))
    ensures (e, i) !in p.decrypted
  {
    var p' := OntoNewChain(h, p, e, i);
    NewChainShelf(h, who, p, e, i);
    NewChainKeys(h, who, p, e, i);
    hide ChainsValid, KeysAgree, Shelve, PastMessage, WithReceiver, OntoNewChain;
    MovedAccount(h, p, p', e, 0, i);
    hide Stored, Seen, ShelfValid;
    NewChainAccount(p, p', e, i);
  }

  lemma NewChainReceivers(h: History, p: Party, e: nat, i: nat, started: ReceiverChain)
    requires h.Valid() && p.st.Valid() && e < |h.log| && i < |h.log[e]|
    requires p.st.sender.Some? && e == p.epoch + 1 && p.st.sender.value.ratchetKey == h.keys[p.epoch]
    requires p.st.root == RootAt(h.secret, h.keys, p.epoch)
    requires ChainsValid(h, p.st.receivers, p.Top())
    requires started == ReceiverChain(h.keys[e], ChainKey(0, ChainAt(h.secret, h.keys, e)))
    ensures var st := PastMessage(WithReceiver(p.st, h.keys[e]), 0, i);
            && st.root == RootAt(h.secret, h.keys, e) && st.sender.None?
            && st.skipped == Store(p.st.skipped, h.keys[e], started.chain, i)
            && ChainsValid(h, st.receivers, e)
            && 0 < |st.receivers| <= |p.st.receivers| + 1
            && st.receivers[0].chain.index == i + 1
            && (forall k :: 0 < k < |st.receivers| ==> st.receivers[k] == p.st.receivers[k - 1])
  {
    var mid := WithReceiver(p.st, h.keys[e]);
    NewChainParts(h, p, e, i, started);
    NewChainChains(h, p, e, started);
    hide WithReceiver, PastMessage, Store, Inserted, RootAt, ChainAt, ChainsValid;
    OnChainChains(h, Party(mid, e, [], {}, {}), Party(PastMessage(mid, 0, i), e, [], {}, {}), e, i, 0);
  }

  /** The state after a message on a new chain, part by part. */
  lemma NewChainParts(h: History, p: Party, e: nat, i: nat, started: ReceiverChain)
    requires h.Valid() && p.st.Valid() && e < |h.log| && i < |h.log[e]|
    requires p.st.sender.Some? && e == p.epoch + 1 && p.st.sender.value.ratchetKey == h.keys[p.epoch]
    requires p.st.root == RootAt(h.secret, h.keys, p.epoch)
    requires started == ReceiverChain(h.keys[e], ChainKey(0, ChainAt(h.secret, h.keys, e)))
    ensures ChainFor(h, e, started) && Iterate(started.chain.key, i) == Iterate(ChainAt(h.secret, h.keys, e), i)
    ensures var mid := WithReceiver(p.st, h.keys[e]);
            var st := PastMessage(mid, 0, i);
            && st.root == RootAt(h.secret, h.keys, e) && st.sender.None? && mid.sender.None?
            && st.skipped == Store(p.st.skipped, h.keys[e], started.chain, i)
            && mid.receivers == Inserted(p.st.receivers, MAX_RECEIVER_CHAINS, 0, started)
            && mid.receivers[0] == started
            && st.receivers == mid.receivers[0 :=
                 ReceiverChain(h.keys[e], ChainKey(Wrap32(i + 1), Next(Iterate(started.chain.key, i))))]
            && 0 < |st.receivers| <= |p.st.receivers| + 1
            && (forall k :: 0 < k < |st.receivers| ==> st.receivers[k] == p.st.receivers[k - 1])
  {
    hide WithReceiver, Store, Iterate, RootAt, ChainAt, Inserted;
    ReceiverParts(h, p, e, started);
    InsertedParts(p.st.receivers, started);
  }

  lemma InsertedParts(receivers: seq<ReceiverChain>, started: ReceiverChain)
    requires |receivers| <= MAX_RECEIVER_CHAINS
    ensures var r := Inserted(receivers, MAX_RECEIVER_CHAINS, 0, started);
      && 0 < |r| <= |receivers| + 1 && r[0] == started
      && forall k :: 0 < k < |r| ==> r[k] == receivers[k - 1]
  {
    InsertedItems(receivers, MAX_RECEIVER_CHAINS, 0, started);
  }

  lemma ReceiverParts(h: History, p: Party, e: nat, started: ReceiverChain)
    requires h.Valid() && p.st.Valid() && e < |h.log|
    requires p.st.sender.Some? && e == p.epoch + 1 && p.st.sender.value.ratchetKey == h.keys[p.epoch]
    requires p.st.root == RootAt(h.secret, h.keys, p.epoch)
    requires started == ReceiverChain(h.keys[e], ChainKey(0, ChainAt(h.secret, h.keys, e)))
    ensures ChainFor(h, e, started)
    ensures var mid := WithReceiver(p.st, h.keys[e]);
            && mid == p.st.(root := RootAt(h.secret, h.keys, e), sender := None,
                            receivers := Inserted(p.st.receivers, MAX_RECEIVER_CHAINS, 0, started))
  {
    assert Iterate(started.chain.key, 0) == started.chain.key;
    hide Inserted;
  }

  // ----- any delivery -----

  /** Delivering any sent message keeps the party's invariant, and what decrypts had not been
   *  decrypted before. */
  lemma DeliveryKeeps(h: History, who: nat, p: Party, e: nat, i: nat, room: nat, sequential: bool)
    requires PartyInv(h, who, p) && e < |h.log| && i < |h.log[e]|
    ensures var (st, plaintext) := Decrypted(p.st, SentMessage(h, e, i), room, sequential);
            var p' := Delivered(h, p, e, i, room, sequential);
            && p'.st == st && PartyInv(h, who, p')
            && p'.decrypted == (if plaintext.Some? then p.decrypted + {(e, i)} else p.decrypted)
            && (plaintext.Some? ==> (e, i) !in p.decrypted)
  {
    if room < CbcLength(|h.log[e][i]|) {
      ErrorKeeps(h, who, p, OUTPUT_BUFFER_TOO_SMALL);
    } else {
      DeliveryOutcome(h, who, p, e, i, room, sequential);
      if Receivable(p, e, i, sequential) {
        AcceptedKeeps(h, who, p, e, i, room, sequential);
      } else {
        ErrorKeeps(h, who, p, Decrypted(p.st, SentMessage(h, e, i), room, sequential).0.lastError);
      }
    }
  }

  /** What is recorded as the last error matters to nothing else. */
  lemma ErrorKeeps(h: History, who: nat, p: Party, error: Error)
    requires PartyInv(h, who, p)
    ensures PartyInv(h, who, p.(st := p.st.(lastError := error)))
  {
    var p' := p.(st := p.st.(lastError := error));
    assert p'.Kept() == p.Kept() && p'.Top() == p.Top();
    SameSeenAccount(p, p');
  }

  lemma AcceptedKeeps(h: History, who: nat, p: Party, e: nat, i: nat, room: nat, sequential: bool)
    requires PartyInv(h, who, p) && e < |h.log| && i < |h.log[e]|
    requires room >= CbcLength(|h.log[e][i]|) && Receivable(p, e, i, sequential)
    ensures var p' := Delivered(h, p, e, i, room, sequential);
            && p'.st == Decrypted(p.st, SentMessage(h, e, i), room, sequential).0
            && PartyInv(h, who, p') && p'.decrypted == p.decrypted + {(e, i)} && (e, i) !in p.decrypted
  {
    DeliveryOutcome(h, who, p, e, i, room, sequential);
    FindKeptChain(h, who, p, e);
    FindStoredKey(h, p.Kept(), e, i);
    AcceptedState(h, p, e, i, room, sequential);
    var k := FindChain(p.st.receivers, h.keys[e]);
    hide PartyInv, Stored, Delivered, FindSkipped, Receivable, CbcLength;
    if !KeepsChain(p, e) {
      DeliveredOnNewChain(h, who, p, e, i);
    } else if i < p.st.receivers[k].chain.index {
      DeliveredFromShelf(h, who, p, FindSkipped(p.st.skipped, h.keys[e], i, SealedMessage(h, e, i)));
    } else {
      DeliveredOnChain(h, who, p, k, e, i);
    }
  }

  /** The three ways a message is accepted. */
  lemma AcceptedState(h: History, p: Party, e: nat, i: nat, room: nat, sequential: bool)
    requires h.Valid() && p.st.Valid() && Aligned(p.Kept()) && e < |h.log| && i < |h.log[e]|
    requires Decrypted(p.st, SentMessage(h, e, i), room, sequential).1.Some?
    ensures var p' := Delivered(h, p, e, i, room, sequential);
            var k := FindChain(p.st.receivers, h.keys[e]);
            var j := FindSkipped(p.st.skipped, h.keys[e], i, SealedMessage(h, e, i));
            && p'.st == Decrypted(p.st, SentMessage(h, e, i), room, sequential).0
            && (if k == |p.st.receivers| then p.st.sender.Some? && p' == OntoNewChain(h, p, e, i)
                else if i < p.st.receivers[k].chain.index then j < |p.epochs| && p' == FromShelf(p, j)
                else p' == OntoChain(h, p, k, e, i))
  {
    hide CbcLength, PastMessage, WithReceiver, Erased, Shelve, FindChain, FindSkipped, Iterate, MessageKey, Stored;
  }
}
