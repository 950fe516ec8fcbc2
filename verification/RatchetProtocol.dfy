/** Two ratchets and a network that may reorder, duplicate, drop and reflect messages. */
module RatchetProtocol {
  import opened Words
  import opened BoundedList
  import opened DoubleRatchet
  import opened RatchetHistory
  import opened RatchetParty
  import opened RatchetDelivery

  // ----- the history grows under a party's feet -----

  lemma ChainForMono(h: History, h': History, e: int, chain: ReceiverChain)
    requires ChainFor(h, e, chain) && Extends(h, h') && |h'.keys| == |h'.log|
    ensures ChainFor(h', e, chain)
  {
    RootAtPrefix(h.secret, h.keys, h'.keys, e);
  }

  lemma EntryForMono(h: History, h': History, e: nat, key: SkippedKey)
    requires EntryFor(h, e, key) && Extends(h, h') && |h'.keys| == |h'.log|
    ensures EntryFor(h', e, key)
  {
    RootAtPrefix(h.secret, h.keys, h'.keys, e);
  }

  lemma ChainsMono(h: History, h': History, receivers: seq<ReceiverChain>, top: int)
    requires ChainsValid(h, receivers, top) && Extends(h, h') && |h'.keys| == |h'.log|
    ensures ChainsValid(h', receivers, top)
  {
    hide ChainFor, Extends;
    forall k | 0 <= k < |receivers|
      ensures ChainFor(h', top - 2 * k, receivers[k])
    {
      ChainForMono(h, h', top - 2 * k, receivers[k]);
    }
  }

  lemma ShelfMono(h: History, h': History, s: Shelf)
    requires ShelfValid(h, s) && Extends(h, h') && |h'.keys| == |h'.log|
    ensures ShelfValid(h', s)
  {
    hide EntryFor, Extends, NewestFirst, Stored;
    forall j | 0 <= j < |s.skipped|
      ensures EntryFor(h', s.epochs[j], s.skipped[j])
    {
      EntryForMono(h, h', s.epochs[j], s.skipped[j]);
    }
  }

  /** Nothing that others add to the history disturbs a party. */
  lemma PartyMono(h: History, h': History, who: nat, p: Party)
    requires PartyInv(h, who, p) && Extends(h, h') && h'.Valid()
    requires p.st.sender.Some? ==> |h'.log[p.epoch]| == |h.log[p.epoch]|
    ensures PartyInv(h', who, p)
  {
    ChainsMono(h, h', p.st.receivers, p.Top());
    ShelfMono(h, h', p.Kept());
    RootAtPrefix(h.secret, h.keys, h'.keys, p.epoch);
    hide ChainsValid, ShelfValid, Accounted;
  }

  // ----- encryption -----

  /** The message is the next one of the sender's chain. */
  lemma EncryptOnChain(h: History, who: nat, p: Party, plaintext: seq<byte>, newKey: nat, randomLength: nat, room: nat)
    requires PartyInv(h, who, p) && p.st.sender.Some? && |h.log[p.epoch]| + 1 < TWO32
    requires Encrypted(p.st, plaintext, newKey, randomLength, room).1.Some?
    ensures var h' := WithMessage(h, p.epoch, plaintext);
            var (st, message) := Encrypted(p.st, plaintext, newKey, randomLength, room);
            && h'.Valid() && Extends(h, h')
            && PartyInv(h', who, p.(st := st))
            && message == Some(SentMessage(h', p.epoch, |h.log[p.epoch]|))
  {
    var h' := WithMessage(h, p.epoch, plaintext);
    var st := Encrypted(p.st, plaintext, newKey, randomLength, room).0;
    assert Extends(h, h');
    ChainsMono(h, h', p.st.receivers, p.Top());
    ShelfMono(h, h', p.Kept());
    RootAtPrefix(h.secret, h.keys, h'.keys, p.epoch);
    assert p.(st := st).Kept() == p.Kept() && p.(st := st).Top() == p.Top();
    SameSeenAccount(p, p.(st := st));
    hide ChainsValid, ShelfValid, Accounted, EncryptOutputLength;
  }

  /** The sender's turn begins: a new key, a new epoch, and its first message. */
  lemma EncryptOnNewChain(h: History, who: nat, p: Party, plaintext: seq<byte>, newKey: nat, randomLength: nat,
                          room: nat)
    requires PartyInv(h, who, p) && p.st.sender.None? && p.epoch == h.Last() && newKey !in h.keys
    requires Encrypted(p.st, plaintext, newKey, randomLength, room).1.Some?
    ensures var h' := WithMessage(WithEpoch(h, newKey), p.epoch + 1, plaintext);
            var (st, message) := Encrypted(p.st, plaintext, newKey, randomLength, room);
            && h'.Valid() && Extends(h, h')
            && PartyInv(h', who, p.(st := st, epoch := p.epoch + 1))
            && message == Some(SentMessage(h', p.epoch + 1, 0))
  {
    hide ChainsValid, ShelfValid, Accounted, EncryptOutputLength, RootAt, ChainAt, Iterate, ChainFor, EntryFor,
      WithSender, Stored, Seen;
    var h' := WithMessage(WithEpoch(h, newKey), p.epoch + 1, plaintext);
    var st := Encrypted(p.st, plaintext, newKey, randomLength, room).0;
    var p' := p.(st := st, epoch := p.epoch + 1);
    assert Extends(h, h');
    NewTurnKeys(h, p, newKey);
    ChainsMono(h, h', p.st.receivers, p.Top());
    ShelfMono(h, h', p.Kept());
    assert p'.Kept() == p.Kept() && p'.Top() == p.Top();
    SameAccount(p, p');
    FirstOfChain(ChainAt(h.secret, h'.keys, p.epoch + 1));
  }

  lemma FirstOfChain(chain: Key)
    ensures Iterate(chain, 0) == chain && Iterate(chain, 1) == Next(chain)
  {
    assert Iterate(chain, 1) == Next(Iterate(chain, 0));
  }

  lemma SameAccount(p: Party, p': Party)
    requires Accounted(p) && p'.st.receivers == p.st.receivers && p'.Top() == p.Top() && p'.Kept() == p.Kept()
    requires p'.decrypted == p.decrypted
    ensures Accounted(p')
  {
    SameSeenAccount(p, p');
  }

  /** The sender derives from its own new key what the receiver derives from its old one. */
  lemma NewTurnKeys(h: History, p: Party, newKey: nat)
    requires h.Valid() && p.st.Valid() && p.st.sender.None? && p.epoch == h.Last()
    requires p.st.root == RootAt(h.secret, h.keys, p.epoch) && ChainsValid(h, p.st.receivers, p.Top())
    ensures var keys' := h.keys + [newKey];
            var ready := WithSender(p.st, newKey);
            && ready.root == RootAt(h.secret, keys', p.epoch + 1)
            && ready.sender == Some(SenderChain(newKey, ChainKey(0, ChainAt(h.secret, keys', p.epoch + 1))))
            && ready.receivers == p.st.receivers && ready.skipped == p.st.skipped
  {
    var keys' := h.keys + [newKey];
    assert ChainFor(h, p.Top() - 2 * 0, p.st.receivers[0]);
    RootAtPrefix(h.secret, h.keys, keys', p.epoch);
    SharedSecretSymmetric(newKey, h.keys[p.epoch]);
    hide ChainsValid;
  }

  // ----- the two parties together -----

  datatype World = World(h: History, alice: Party, bob: Party) {
    function Of(who: nat): Party { if who == 0 then alice else bob }

    function With(who: nat, p: Party): World {
      if who == 0 then this.(alice := p) else this.(bob := p)
    }
  }

  /** Root epochs differ by at most one: whoever made the newest key is at its epoch. */
  ghost predicate WorldInv(w: World) {
    && PartyInv(w.h, 0, w.alice) && PartyInv(w.h, 1, w.bob)
    && w.Of(w.h.Last() % 2).epoch == w.h.Last()
    && w.h.Last() - 1 <= w.Of(1 - w.h.Last() % 2).epoch <= w.h.Last()
  }

  datatype Action =
    | Encrypt(who: nat, plaintext: seq<byte>, newKey: nat, randomLength: nat, room: nat)
    | Deliver(who: nat, epoch: nat, counter: nat, room: nat, sequential: bool)

  /** New keys are fresh, chains stay below 2^32 messages, and only what was sent is delivered. */
  ghost predicate Possible(w: World, a: Action) {
    && a.who < 2
    && (a.Encrypt? ==>
          && a.newKey !in w.h.keys
          && w.Of(a.who).epoch < |w.h.log|
          && |w.h.log[w.Of(a.who).epoch]| + 1 < TWO32)
    && (a.Deliver? ==> a.epoch < |w.h.log| && a.counter < |w.h.log[a.epoch]|)
  }

  function Step(w: World, a: Action): World
    requires WorldInv(w) && Possible(w, a)
  {
    var p := w.Of(a.who);
    match a
    case Deliver(who, e, i, room, sequential) =>
      w.With(who, Delivered(w.h, p, e, i, room, sequential))
    case Encrypt(who, plaintext, newKey, randomLength, room) =>
      var (st, message) := Encrypted(p.st, plaintext, newKey, randomLength, room);
      if message.None? then w.With(who, p.(st := st))
      else if p.st.sender.Some? then
        w.With(who, p.(st := st)).(h := WithMessage(w.h, p.epoch, plaintext))
      else
        w.With(who, p.(st := st, epoch := |w.h.keys|)).(h := WithMessage(WithEpoch(w.h, newKey), |w.h.keys|, plaintext))
  }

  lemma OtherParty(w: World, who: nat)
    requires WorldInv(w) && who < 2
    ensures w.Of(who).st.sender.Some? && w.Of(1 - who).st.sender.Some? ==> w.Of(who).epoch != w.Of(1 - who).epoch
    ensures w.Of(who).st.sender.None? ==> w.Of(who).epoch == w.h.Last()
  {
    hide ChainsValid, ShelfValid, Accounted, RootAt, ChainAt;
  }

  lemma EpochBound(h: History, who: nat, p: Party)
    requires PartyInv(h, who, p)
    ensures p.epoch < |h.keys| && (p.st.sender.Some? <==> p.epoch % 2 == who)
  {
    hide ChainsValid, ShelfValid, Accounted, RootAt, ChainAt;
  }

  /** The world after a party's step, from what holds of each party separately. */
  lemma WorldAfter(w: World, who: nat, h': History, p': Party)
    requires WorldInv(w) && who < 2 && Extends(w.h, h') && h'.Valid()
    requires PartyInv(h', who, p')
    requires w.Of(1 - who).st.sender.Some? ==> |h'.log[w.Of(1 - who).epoch]| == |w.h.log[w.Of(1 - who).epoch]|
    requires |h'.keys| == |w.h.keys| ==> p'.epoch >= w.Of(who).epoch
    requires |h'.keys| > |w.h.keys| ==> |h'.keys| == |w.h.keys| + 1 && p'.epoch == |w.h.keys| && p'.st.sender.Some?
                                        && w.Of(1 - who).epoch == w.h.Last()
    ensures WorldInv(w.With(who, p').(h := h'))
  {
    hide PartyInv;
    EpochBound(h', who, p');
    PartyMono(w.h, h', 1 - who, w.Of(1 - who));
  }

  /** Every step of either party, and every delivery by the network, keeps the invariant; what
   *  was decrypted stays on record, and nothing on record decrypts again. */
  lemma EncryptStep(w: World, a: Action)
    requires WorldInv(w) && Possible(w, a) && a.Encrypt?
    ensures WorldInv(Step(w, a))
  {
    if Encrypted(w.Of(a.who).st, a.plaintext, a.newKey, a.randomLength, a.room).1.None? {
      RefusedStep(w, a);
    } else if w.Of(a.who).st.sender.Some? {
      ChainStep(w, a);
    } else {
      TurnStep(w, a);
    }
    hide WorldInv, Possible, Step, Encrypted;
  }

  lemma RefusedStep(w: World, a: Action)
    requires WorldInv(w) && Possible(w, a) && a.Encrypt?
    requires Encrypted(w.Of(a.who).st, a.plaintext, a.newKey, a.randomLength, a.room).1.None?
    ensures WorldInv(Step(w, a))
  {
    var Encrypt(who, plaintext, newKey, randomLength, room) := a;
    var p := w.Of(who);
    var st := Encrypted(p.st, plaintext, newKey, randomLength, room).0;
    OtherParty(w, who);
    ErrorKeeps(w.h, who, p, st.lastError);
    EncryptRefused(p.st, plaintext, newKey, randomLength, room);
    hide PartyInv, Encrypted;
    WorldAfter(w, who, w.h, p.(st := st));
  }

  lemma ChainStep(w: World, a: Action)
    requires WorldInv(w) && Possible(w, a) && a.Encrypt? && w.Of(a.who).st.sender.Some?
    requires Encrypted(w.Of(a.who).st, a.plaintext, a.newKey, a.randomLength, a.room).1.Some?
    ensures WorldInv(Step(w, a))
  {
    var Encrypt(who, plaintext, newKey, randomLength, room) := a;
    var p := w.Of(who);
    var st := Encrypted(p.st, plaintext, newKey, randomLength, room).0;
    OtherParty(w, who);
    EncryptOnChain(w.h, who, p, plaintext, newKey, randomLength, room);
    hide PartyInv, Encrypted;
    WorldAfter(w, who, WithMessage(w.h, p.epoch, plaintext), p.(st := st));
  }

  lemma TurnStep(w: World, a: Action)
    requires WorldInv(w) && Possible(w, a) && a.Encrypt? && w.Of(a.who).st.sender.None?
    requires Encrypted(w.Of(a.who).st, a.plaintext, a.newKey, a.randomLength, a.room).1.Some?
    ensures WorldInv(Step(w, a))
  {
    hide WorldInv, PartyInv, Encrypted, KeysAgree, ChainsValid, ShelfValid, Accounted;
    PartyOf(w, a.who);
    PartyParts(w.h, a.who, w.Of(a.who));
    var Encrypt(who, plaintext, newKey, randomLength, room) := a;
    var p := w.Of(who);
    var st := Encrypted(p.st, plaintext, newKey, randomLength, room).0;
    OtherParty(w, who);
    NewTurn(w, who);
    EncryptOnNewChain(w.h, who, p, plaintext, newKey, randomLength, room);
    EncryptLeavesSender(p.st, plaintext, newKey, randomLength, room);
    WorldAfter(w, who, WithMessage(WithEpoch(w.h, newKey), |w.h.keys|, plaintext), p.(st := st, epoch := |w.h.keys|));
  }

  lemma EncryptRefused(st: State, plaintext: seq<byte>, newKey: nat, randomLength: nat, room: nat)
    requires st.Valid() && Encrypted(st, plaintext, newKey, randomLength, room).1.None?
    ensures var st' := Encrypted(st, plaintext, newKey, randomLength, room).0; st' == st.(lastError := st'.lastError)
  {
  }

  lemma EncryptLeavesSender(st: State, plaintext: seq<byte>, newKey: nat, randomLength: nat, room: nat)
    requires st.Valid() && Encrypted(st, plaintext, newKey, randomLength, room).1.Some?
    ensures Encrypted(st, plaintext, newKey, randomLength, room).0.sender.Some?
  {
  }

  lemma NewTurn(w: World, who: nat)
    requires WorldInv(w) && who < 2 && w.Of(who).st.sender.None?
    ensures w.Of(1 - who).epoch == w.h.Last() == w.Of(who).epoch
  {
    OtherParty(w, who);
    hide ChainsValid, ShelfValid, Accounted, RootAt, ChainAt;
  }

  lemma DeliverStep(w: World, a: Action)
    requires WorldInv(w) && Possible(w, a) && a.Deliver?
    ensures WorldInv(Step(w, a))
  {
    var Deliver(who, e, i, room, sequential) := a;
    var p := w.Of(who);
    DeliveryKeeps(w.h, who, p, e, i, room, sequential);
    DeliveredEpoch(w.h, who, p, e, i, room, sequential);
    hide PartyInv, Delivered;
    WorldAfter(w, who, w.h, Delivered(w.h, p, e, i, room, sequential));
  }

  lemma DeliveredEpoch(h: History, who: nat, p: Party, e: nat, i: nat, room: nat, sequential: bool)
    requires PartyInv(h, who, p) && e < |h.log| && i < |h.log[e]|
    ensures p.epoch <= Delivered(h, p, e, i, room, sequential).epoch <= p.epoch + 1
  {
    hide PartyInv, Decrypted, Delivered, SentMessage, Shelve, PastMessage, WithReceiver, Erased, Stored, FindSkipped;
    PartyParts(h, who, p);
    if Decrypted(p.st, SentMessage(h, e, i), room, sequential).1.Some? {
      AcceptedState(h, p, e, i, room, sequential);
      FindKeptChain(h, who, p, e);
      if !KeepsChain(p, e) {
        AcceptedIsNext(h, who, p, e, i, room, sequential);
      }
    } else {
      RefusedEpoch(h, p, e, i, room, sequential);
    }
  }

  lemma RefusedEpoch(h: History, p: Party, e: nat, i: nat, room: nat, sequential: bool)
    requires h.Valid() && p.st.Valid() && Aligned(p.Kept()) && e < |h.log| && i < |h.log[e]|
    requires Decrypted(p.st, SentMessage(h, e, i), room, sequential).1.None?
    ensures var p' := Delivered(h, p, e, i, room, sequential);
      p'.epoch == p.epoch && p'.evicted == p.evicted
  {
    hide Decrypted, SentMessage;
  }

  // ----- whole runs -----

  function Start(secret: seq<byte>, ratchetKey: nat): World {
    World(History(secret, [ratchetKey], [[]]),
          Party(InitialAlice(secret, ratchetKey), 0, [], {}, {}),
          Party(InitialBob(secret, ratchetKey), 0, [], {}, {}))
  }

  lemma StartKeeps(secret: seq<byte>, ratchetKey: nat)
    ensures WorldInv(Start(secret, ratchetKey))
  {
    var w := Start(secret, ratchetKey);
    assert ChainFor(w.h, 0, w.bob.st.receivers[0]);
    assert Stored(w.alice.Kept()) == {} && Stored(w.bob.Kept()) == {};
  }

  lemma StepKeeps(w: World, a: Action)
    requires WorldInv(w) && Possible(w, a)
    ensures WorldInv(Step(w, a))
  {
    if a.Encrypt? {
      EncryptStep(w, a);
    } else {
      DeliverStep(w, a);
    }
  }

  /** A run: every action is possible when its turn comes. */
  ghost predicate IsRun(w: World, actions: seq<Action>)
    requires WorldInv(w)
    decreases |actions|
  {
    actions != [] ==>
      Possible(w, actions[0]) && (StepKeeps(w, actions[0]); IsRun(Step(w, actions[0]), actions[1..]))
  }

  ghost function After(w: World, actions: seq<Action>): (r: World)
    requires WorldInv(w) && IsRun(w, actions)
    ensures WorldInv(r)
    decreases |actions|
  {
    if actions == [] then w
    else (StepKeeps(w, actions[0]); After(Step(w, actions[0]), actions[1..]))
  }

  /** A run from the very beginning. */
  ghost predicate IsRunFromStart(secret: seq<byte>, ratchetKey: nat, actions: seq<Action>) {
    StartKeeps(secret, ratchetKey);
    IsRun(Start(secret, ratchetKey), actions)
  }

  ghost function Reached(secret: seq<byte>, ratchetKey: nat, actions: seq<Action>): (w: World)
    requires IsRunFromStart(secret, ratchetKey, actions)
    ensures WorldInv(w)
  {
    StartKeeps(secret, ratchetKey);
    After(Start(secret, ratchetKey), actions)
  }

  /** In every reachable state the roots are at most one epoch apart, and a party with no sender
   *  chain holds the peer's newest key at the front of its receiver chains. */
  lemma ReachableStates(secret: seq<byte>, ratchetKey: nat, actions: seq<Action>)
    requires IsRunFromStart(secret, ratchetKey, actions)
    ensures var w := Reached(secret, ratchetKey, actions);
            && -1 <= w.alice.epoch - w.bob.epoch <= 1
            && w.alice.st.root == RootAt(secret, w.h.keys, w.alice.epoch)
            && w.bob.st.root == RootAt(secret, w.h.keys, w.bob.epoch)
            && (forall who: nat :: who < 2 && w.Of(who).st.sender.None? ==>
                  w.Of(who).st.receivers != [] && w.Of(who).st.receivers[0].ratchetKey == w.h.keys[w.h.Last()])
  {
    var w := Reached(secret, ratchetKey, actions);
    StartKeeps(secret, ratchetKey);
    hide WorldInv, PartyInv, After, IsRun, RootAt;
    LogGrows(Start(secret, ratchetKey), actions);
    EpochsApart(w);
    forall who: nat | who < 2 && w.Of(who).st.sender.None?
      ensures w.Of(who).st.receivers != [] && w.Of(who).st.receivers[0].ratchetKey == w.h.keys[w.h.Last()]
    {
      NewestInFront(w, who);
    }
  }

  lemma EpochsApart(w: World)
    requires WorldInv(w)
    ensures -1 <= w.alice.epoch - w.bob.epoch <= 1
    ensures w.alice.st.root == RootAt(w.h.secret, w.h.keys, w.alice.epoch)
    ensures w.bob.st.root == RootAt(w.h.secret, w.h.keys, w.bob.epoch)
    ensures w.h.Valid()
  {
    hide ShelfValid, Accounted, RootAt, ChainAt, ChainsValid;
  }

  lemma NewestInFront(w: World, who: nat)
    requires WorldInv(w) && who < 2 && w.Of(who).st.sender.None? && w.h.Valid()
    ensures w.Of(who).st.receivers != [] && w.Of(who).st.receivers[0].ratchetKey == w.h.keys[w.h.Last()]
  {
    hide ShelfValid, Accounted, RootAt, ChainAt;
    OtherParty(w, who);
    assert ChainFor(w.h, w.Of(who).Top() - 2 * 0, w.Of(who).st.receivers[0]);
  }

  /** A message that arrives decrypts exactly when it is receivable, and to what was sent. */
  lemma DeliveredPlaintext(w: World, who: nat, e: nat, i: nat, room: nat, sequential: bool)
    requires WorldInv(w) && who < 2 && e < |w.h.log| && i < |w.h.log[e]|
    ensures var plaintext := Decrypted(w.Of(who).st, SentMessage(w.h, e, i), room, sequential).1;
            && (plaintext.Some? ==> plaintext.value == w.h.log[e][i])
            && (plaintext.Some? <==>
                  room >= CbcLength(|w.h.log[e][i]|) && Receivable(w.Of(who), e, i, sequential))
  {
    if room >= CbcLength(|w.h.log[e][i]|) {
      DeliveryOutcome(w.h, who, w.Of(who), e, i, room, sequential);
    }
  }

  /** No run gets stuck: the peer's current chain always decrypts, from the receiver's index (or
   *  from its start, when it is new) up to 2000 messages ahead; where the order is insisted on, the next
   *  message of a kept chain does. */
  lemma NeverStuck(w: World, who: nat, i: nat, room: nat, sequential: bool)
    requires WorldInv(w) && who < 2
    requires var peer := w.Of(1 - who);
             && peer.st.sender.Some? && i < |w.h.log[peer.epoch]|
             && (if KeepsChain(w.Of(who), peer.epoch)
                 then ChainOf(w.Of(who), peer.epoch).index <= i
                      <= ChainOf(w.Of(who), peer.epoch).index + 2000
                      && (sequential ==> i == ChainOf(w.Of(who), peer.epoch).index)
                 else i <= 2000)
             && room >= CbcLength(|w.h.log[peer.epoch][i]|)
    ensures var e := w.Of(1 - who).epoch;
            Decrypted(w.Of(who).st, SentMessage(w.h, e, i), room, sequential).1 == Some(w.h.log[e][i])
  {
    CurrentChainWithinReach(w, who);
    hide PartyInv, Decrypted, CbcLength;
    DeliveryOutcome(w.h, who, w.Of(who), w.Of(1 - who).epoch, i, room, sequential);
  }

  /** The peer's current chain is one the receiver keeps, or the very next one it can derive. */
  lemma CurrentChainWithinReach(w: World, who: nat)
    requires WorldInv(w) && who < 2 && w.Of(1 - who).st.sender.Some?
    ensures KeepsChain(w.Of(who), w.Of(1 - who).epoch)
         || (w.Of(who).st.sender.Some? && w.Of(1 - who).epoch == w.Of(who).epoch + 1)
  {
    OtherParty(w, who);
    OtherParty(w, 1 - who);
    hide ShelfValid, Accounted, RootAt, ChainAt, ChainFor;
  }

  // ----- no message decrypts twice -----

  lemma DecryptedGrows(w: World, a: Action, who: nat)
    requires WorldInv(w) && Possible(w, a) && who < 2
    ensures w.Of(who).decrypted <= Step(w, a).Of(who).decrypted
  {
    hide Delivered, WorldInv, PartyInv, Decrypted, Encrypted, SentMessage;
    if a.Deliver? {
      PartyOf(w, a.who);
      DeliveryKeeps(w.h, a.who, w.Of(a.who), a.epoch, a.counter, a.room, a.sequential);
    }
  }

  lemma PartyOf(w: World, who: nat)
    requires WorldInv(w) && who < 2
    ensures PartyInv(w.h, who, w.Of(who)) && PartyInv(w.h, 1 - who, w.Of(1 - who))
  {
    hide PartyInv;
  }

  lemma {:induction false} DecryptedStays(w: World, actions: seq<Action>, who: nat)
    requires WorldInv(w) && IsRun(w, actions) && who < 2
    ensures w.Of(who).decrypted <= After(w, actions).Of(who).decrypted
    decreases |actions|
  {
    hide WorldInv, Step, Possible;
    if actions != [] {
      StepKeeps(w, actions[0]);
      DecryptedGrows(w, actions[0], who);
      DecryptedStays(Step(w, actions[0]), actions[1..], who);
    }
  }

  ghost function WithDelivery(w: World, who: nat, e: nat, i: nat, room: nat, sequential: bool): (w': World)
    requires WorldInv(w) && who < 2 && e < |w.h.log| && i < |w.h.log[e]|
    ensures WorldInv(w')
  {
    StepKeeps(w, Deliver(who, e, i, room, sequential));
    Step(w, Deliver(who, e, i, room, sequential))
  }

  /** A message that decrypted once never decrypts again, whatever happens in between. */
  lemma NoReplay(w: World, who: nat, e: nat, i: nat, room: nat, sequential: bool,
                 actions: seq<Action>, room': nat, sequential': bool)
    requires WorldInv(w) && who < 2 && e < |w.h.log| && i < |w.h.log[e]|
    requires Decrypted(w.Of(who).st, SentMessage(w.h, e, i), room, sequential).1.Some?
    requires IsRun(WithDelivery(w, who, e, i, room, sequential), actions)
    ensures var w' := After(WithDelivery(w, who, e, i, room, sequential), actions);
            && e < |w'.h.log| && i < |w'.h.log[e]|
            && Decrypted(w'.Of(who).st, SentMessage(w'.h, e, i), room', sequential').1.None?
  {
    hide PartyInv, WorldInv, Delivered, Decrypted, After, IsRun, SentMessage;
    PartyOf(w, who);
    var w1 := WithDelivery(w, who, e, i, room, sequential);
    DeliveryKeeps(w.h, who, w.Of(who), e, i, room, sequential);
    assert (e, i) in w1.Of(who).decrypted && w1.h == w.h;
    DecryptedStays(w1, actions, who);
    LogGrows(w1, actions);
    var w' := After(w1, actions);
    PartyOf(w', who);
    assert w1.h.log[e] <= w'.h.log[e];
    DeliveryKeeps(w'.h, who, w'.Of(who), e, i, room', sequential');
  }

  lemma StepExtends(w: World, a: Action)
    requires WorldInv(w) && Possible(w, a)
    ensures Extends(w.h, Step(w, a).h)
  {
    assert w.h.Valid();
    hide PartyInv, Encrypted, Delivered;
    var p := w.Of(a.who);
    if a.Encrypt? {
      if p.st.sender.Some? {
        assert Extends(w.h, WithMessage(w.h, p.epoch, a.plaintext));
      } else {
        assert Extends(w.h, WithMessage(WithEpoch(w.h, a.newKey), |w.h.keys|, a.plaintext));
      }
    }
    assert Extends(w.h, w.h);
  }

  lemma {:induction false} LogGrows(w: World, actions: seq<Action>)
    requires WorldInv(w) && IsRun(w, actions)
    ensures Extends(w.h, After(w, actions).h)
    decreases |actions|
  {
    hide WorldInv, Step, Possible;
    if actions != [] {
      StepKeeps(w, actions[0]);
      StepExtends(w, actions[0]);
      LogGrows(Step(w, actions[0]), actions[1..]);
      ExtendsTransitive(w.h, Step(w, actions[0]).h, After(w, actions).h);
    } else {
      assert Extends(w.h, w.h);
    }
  }

  lemma ExtendsTransitive(a: History, b: History, c: History)
    requires Extends(a, b) && Extends(b, c)
    ensures Extends(a, c)
  {
    forall e | 0 <= e < |a.log|
      ensures a.log[e] <= c.log[e]
    {
      assert a.log[e] <= b.log[e] && b.log[e] <= c.log[e];
    }
  }

  // ----- the account of every counter -----

  /** For each chain a party keeps, the counters it has moved past are the disjoint union of
   *  those decrypted, those stored as skipped keys and those evicted. */
  lemma CountersAccounted(w: World, who: nat, e: nat)
    requires WorldInv(w) && who < 2 && KeepsChain(w.Of(who), e)
    ensures var p := w.Of(who);
            var past := set c: nat | 0 <= c < ChainOf(p, e).index :: (e, c);
            && past == (set x | x in p.decrypted && x.0 == e) + (set x | x in Stored(p.Kept()) && x.0 == e)
                       + (set x | x in p.evicted && x.0 == e)
            && p.decrypted !! Stored(p.Kept()) && p.decrypted !! p.evicted && Stored(p.Kept()) !! p.evicted
            && |p.st.skipped| <= 40
            && (forall a, b ::
                  0 <= a < b < |p.st.skipped| && p.st.skipped[a].ratchetKey == p.st.skipped[b].ratchetKey ==>
                  p.st.skipped[a].index > p.st.skipped[b].index)
  {
    var p := w.Of(who);
    forall a, b | 0 <= a < b < |p.st.skipped| && p.st.skipped[a].ratchetKey == p.st.skipped[b].ratchetKey
      ensures p.st.skipped[a].index > p.st.skipped[b].index
    {
      assert EntryFor(w.h, p.epochs[a], p.st.skipped[a]) && EntryFor(w.h, p.epochs[b], p.st.skipped[b]);
      KeysDistinct(w.h, p.epochs[a], p.epochs[b]);
    }
    AccountOfChain(p, e);
  }

  lemma AccountOfChain(p: Party, e: nat)
    requires Accounted(p) && KeepsChain(p, e)
    ensures (set c: nat | 0 <= c < ChainOf(p, e).index :: (e, c))
         == (set x | x in p.decrypted && x.0 == e) + (set x | x in Stored(p.Kept()) && x.0 == e)
            + (set x | x in p.evicted && x.0 == e)
  {
    var past := set c: nat | 0 <= c < ChainOf(p, e).index :: (e, c);
    hide Stored;
    forall x: Slot
      ensures x in past <==> x in Seen(p) && x.0 == e
    {
    }
  }

  /** A skipped key is evicted only by a delivery that leaves the store full. */
  lemma EvictedOnlyWhenFull(h: History, who: nat, p: Party, e: nat, i: nat, room: nat, sequential: bool)
    requires PartyInv(h, who, p) && e < |h.log| && i < |h.log[e]|
    ensures var p' := Delivered(h, p, e, i, room, sequential);
            && p.evicted <= p'.evicted
            && (p'.evicted != p.evicted ==> |p'.st.skipped| == 40)
  {
    hide Delivered, Decrypted, PartyInv, SentMessage, OntoNewChain, OntoChain, Moved, ShelfValid, Accounted;
    PartyParts(h, who, p);
    if Decrypted(p.st, SentMessage(h, e, i), room, sequential).1.Some? {
      AcceptedState(h, p, e, i, room, sequential);
      FindKeptChain(h, who, p, e);
      hide Moved, FromShelf;
      if !KeepsChain(p, e) {
        AcceptedIsNext(h, who, p, e, i, room, sequential);
        NewChainShelf(h, who, p, e, i);
        MovedEvicts(h, p.Kept(), OntoNewChain(h, p, e, i).Kept(), e, 0, i);
      } else if i >= ChainOf(p, e).index {
        var k := FindChain(p.st.receivers, h.keys[e]);
        OnChainShelf(h, who, p, k, e, i);
        MovedEvicts(h, p.Kept(), OntoChain(h, p, k, e, i).Kept(), e, p.st.receivers[k].chain.index,
                    i - p.st.receivers[k].chain.index);
      } else {
        ShelfEvicts(p, FindSkipped(p.st.skipped, h.keys[e], i, SealedMessage(h, e, i)));
      }
    } else {
      RefusedEpoch(h, p, e, i, room, sequential);
    }
  }

  lemma MovedEvicts(h: History, s: Shelf, r: Shelf, e: nat, index: nat, n: nat)
    requires Moved(h, s, r, e, index, n)
    ensures s.evicted <= r.evicted && (r.evicted != s.evicted ==> |r.skipped| == 40)
  {
    hide ShelfValid, NothingFrom, Stored;
  }

  lemma ShelfEvicts(p: Party, j: nat)
    requires Aligned(p.Kept()) && j < |p.epochs|
    ensures FromShelf(p, j).evicted == p.evicted
  {
  }

  /** A message on a chain that is not kept is accepted only if it is of the next epoch. */
  lemma AcceptedIsNext(h: History, who: nat, p: Party, e: nat, i: nat, room: nat, sequential: bool)
    requires PartyInv(h, who, p) && e < |h.log| && i < |h.log[e]| && !KeepsChain(p, e)
    requires Decrypted(p.st, SentMessage(h, e, i), room, sequential).1.Some?
    ensures p.st.sender.Some? && e == p.epoch + 1
  {
    PartyParts(h, who, p);
    hide PartyInv, KeepsChain, DecryptedWellFormed, Accounted, ShelfValid, ChainsValid;
    assert room >= CbcLength(|h.log[e][i]|);
    DeliveryOutcome(h, who, p, e, i, room, sequential);
  }
}
