/** The keys of an account (src/account.cpp): one-time keys, fallback keys and signed prekeys. */
module Accounts {
  import opened Words
  import opened BoundedList

  const MAX_ONE_TIME_KEYS := 100

  datatype KeyPair = KeyPair(public: seq<byte>, private: nat)

  datatype OneTimeKey = OneTimeKey(id: u32, published: bool, key: KeyPair)

  datatype Account = Account(identity: KeyPair, oneTimeKeys: seq<OneTimeKey>, nextOneTimeKeyId: u32,
                             numFallbackKeys: nat, currentFallback: OneTimeKey, prevFallback: OneTimeKey,
                             numPrekeys: nat, currentPrekey: OneTimeKey, prevPrekey: OneTimeKey, nextPrekeyId: u32)

  // ----- looking keys up -----

  /** The place of the first one-time key with this public key, or the number of keys. */
  function FindKey(keys: seq<OneTimeKey>, public: seq<byte>): (i: nat)
    ensures i <= |keys|
    ensures i < |keys| ==> keys[i].key.public == public
    ensures forall k :: 0 <= k < i ==> keys[k].key.public != public
  {
    if keys == [] || keys[0].key.public == public then 0 else 1 + FindKey(keys[1..], public)
  }

  /** The fallback key with this public key, among those there are. */
  function FindFallback(a: Account, public: seq<byte>): Option<OneTimeKey> {
    if a.numFallbackKeys >= 1 && a.currentFallback.key.public == public then Some(a.currentFallback)
    else if a.numFallbackKeys >= 2 && a.prevFallback.key.public == public then Some(a.prevFallback)
    else None
  }

  /** lookup_key */
  function LookupKey(a: Account, public: seq<byte>): Option<OneTimeKey> {
    var i := FindKey(a.oneTimeKeys, public);
    if i < |a.oneTimeKeys| then Some(a.oneTimeKeys[i]) else FindFallback(a, public)
  }

  /** lookup_prekey: both slots, whether or not they have ever been filled. */
  function LookupPrekey(a: Account, public: seq<byte>): Option<OneTimeKey> {
    if a.currentPrekey.key.public == public then Some(a.currentPrekey)
    else if a.prevPrekey.key.public == public then Some(a.prevPrekey)
    else None
  }

  // ----- changing them -----

  /** remove_key: a one-time key goes, a fallback key stays; the id is returned in either case. */
  function Removed(a: Account, public: seq<byte>): (Account, Option<u32>) {
    var i := FindKey(a.oneTimeKeys, public);
    if i < |a.oneTimeKeys| then
      (a.(oneTimeKeys := Erased(a.oneTimeKeys, i)), Some(a.oneTimeKeys[i].id))
    else
      var fallback := FindFallback(a, public);
      (a, if fallback.Some? then Some(fallback.value.id) else None)
  }

  /** generate_one_time_keys, once the random bytes have been made into pairs. */
  function Generated(a: Account, pairs: seq<KeyPair>): (r: Account)
    requires |a.oneTimeKeys| <= MAX_ONE_TIME_KEYS
    ensures |r.oneTimeKeys| <= MAX_ONE_TIME_KEYS
  {
    if pairs == [] then a
    else
      var b := Generated(a, pairs[..|pairs| - 1]);
      var id := Wrap32(b.nextOneTimeKeyId + 1);
      b.(oneTimeKeys := Inserted(b.oneTimeKeys, MAX_ONE_TIME_KEYS, 0, OneTimeKey(id, false, pairs[|pairs| - 1])),
         nextOneTimeKeyId := id)
  }

  function WithPrekey(a: Account, pair: KeyPair): Account {
    var id := Wrap32(a.nextPrekeyId + 1);
    a.(numPrekeys := if a.numPrekeys < 2 then a.numPrekeys + 1 else a.numPrekeys,
       prevPrekey := a.currentPrekey, currentPrekey := OneTimeKey(id, false, pair), nextPrekeyId := id)
  }

  function WithFallback(a: Account, pair: KeyPair): Account {
    var id := Wrap32(a.nextOneTimeKeyId + 1);
    a.(numFallbackKeys := if a.numFallbackKeys < 2 then a.numFallbackKeys + 1 else a.numFallbackKeys,
       prevFallback := a.currentFallback, currentFallback := OneTimeKey(id, false, pair), nextOneTimeKeyId := id)
  }

  /** mark_keys_as_published leaves prekeys alone. */
  function Published(a: Account): Account {
    a.(oneTimeKeys := seq(|a.oneTimeKeys|, i requires 0 <= i < |a.oneTimeKeys| => a.oneTimeKeys[i].(published := true)),
       currentFallback := a.currentFallback.(published := true))
  }

  // ----- what every operation keeps -----

  /** Ids fall from the newest key to the oldest and none has been handed out ahead of the counter;
   *  no public key is there twice. */
  ghost predicate WellKept(a: Account) {
    && |a.oneTimeKeys| <= MAX_ONE_TIME_KEYS && a.numFallbackKeys <= 2
    && IdsBelow(a.oneTimeKeys, a.nextOneTimeKeyId) && IdsFall(a.oneTimeKeys) && PublicsDiffer(a.oneTimeKeys)
    && (a.numFallbackKeys >= 1 ==> a.currentFallback.id <= a.nextOneTimeKeyId)
    && (a.numFallbackKeys >= 1 ==> IdAbsent(a.oneTimeKeys, a.currentFallback.id))
  }

  ghost predicate IdsBelow(keys: seq<OneTimeKey>, top: nat) {
    forall i :: 0 <= i < |keys| ==> keys[i].id <= top
  }

  ghost predicate IdsFall(keys: seq<OneTimeKey>) {
    forall i, j :: 0 <= i < j < |keys| ==> keys[i].id > keys[j].id
  }

  ghost predicate PublicsDiffer(keys: seq<OneTimeKey>) {
    forall i, j :: 0 <= i < j < |keys| ==> keys[i].key.public != keys[j].key.public
  }

  ghost predicate IdAbsent(keys: seq<OneTimeKey>, id: u32) {
    forall i :: 0 <= i < |keys| ==> keys[i].id != id
  }

  ghost predicate Fresh(a: Account, pair: KeyPair) {
    forall i :: 0 <= i < |a.oneTimeKeys| ==> a.oneTimeKeys[i].key.public != pair.public
  }

  lemma RemovedKeeps(a: Account, public: seq<byte>)
    requires WellKept(a)
    ensures WellKept(Removed(a, public).0)
  {
    var i, b := FindKey(a.oneTimeKeys, public), Removed(a, public).0;
    if i < |a.oneTimeKeys| {
      ErasedAt(a.oneTimeKeys, i);
      hide Removed;
      KeysKept(a, b, i);
    }
  }

  lemma ErasedAt(keys: seq<OneTimeKey>, i: nat)
    requires i < |keys|
    ensures |Erased(keys, i)| == |keys| - 1
    ensures forall k :: 0 <= k < |keys| - 1 ==> Erased(keys, i)[k] == keys[if k < i then k else k + 1]
  {
  }

  lemma KeysKept(a: Account, b: Account, i: nat)
    requires WellKept(a) && i < |a.oneTimeKeys| && |b.oneTimeKeys| == |a.oneTimeKeys| - 1
    requires b == a.(oneTimeKeys := b.oneTimeKeys)
    requires forall k :: 0 <= k < |b.oneTimeKeys| ==> b.oneTimeKeys[k] == a.oneTimeKeys[if k < i then k else k + 1]
    ensures WellKept(b)
  {
  }

  lemma WithFallbackKeeps(a: Account, pair: KeyPair)
    requires WellKept(a) && a.nextOneTimeKeyId + 1 < TWO32
    ensures WellKept(WithFallback(a, pair))
  {
  }

  ghost predicate AllFresh(a: Account, pairs: seq<KeyPair>) {
    && (forall k :: 0 <= k < |pairs| ==> Fresh(a, pairs[k]))
    && (forall i, j :: 0 <= i < j < |pairs| ==> pairs[i].public != pairs[j].public)
  }

  /** The newest keys come first, then what room there is for the old ones. */
  function NewestFirst(a: Account, pairs: seq<KeyPair>): (r: seq<OneTimeKey>)
    requires a.nextOneTimeKeyId + |pairs| < TWO32
    ensures |r| == |pairs| + |a.oneTimeKeys|
  {
    seq(|pairs|, k requires 0 <= k < |pairs| =>
      OneTimeKey(a.nextOneTimeKeyId + |pairs| - k, false, pairs[|pairs| - 1 - k])) + a.oneTimeKeys
  }

  function FirstHundred(keys: seq<OneTimeKey>): seq<OneTimeKey> {
    if |keys| < 100 then keys else keys[..100]
  }

  /** Generating keys puts them in front, newest first, and cuts the list at a hundred. */
  lemma {:induction false} GeneratedKeys(a: Account, pairs: seq<KeyPair>)
    requires |a.oneTimeKeys| <= MAX_ONE_TIME_KEYS && a.nextOneTimeKeyId + |pairs| < TWO32
    ensures Generated(a, pairs) == a.(oneTimeKeys := FirstHundred(NewestFirst(a, pairs)),
                                      nextOneTimeKeyId := a.nextOneTimeKeyId + |pairs|)
  {
    hide FirstHundred, NewestFirst, Inserted;
    if pairs == [] {
      NoneNew(a, pairs);
    } else {
      GeneratedKeys(a, pairs[..|pairs| - 1]);
      OneNewer(a, pairs);
    }
  }

  /** Key by key: new ones are unpublished, with the id after that of the key made before; then come the old ones. */
  lemma GeneratedAt(a: Account, pairs: seq<KeyPair>, k: nat)
    requires |a.oneTimeKeys| <= 100 && a.nextOneTimeKeyId + |pairs| < TWO32
    ensures var b, n := Generated(a, pairs), |pairs|;
      && |b.oneTimeKeys| == (if n + |a.oneTimeKeys| <= 100 then n + |a.oneTimeKeys| else 100)
      && (k < |b.oneTimeKeys| ==>
            b.oneTimeKeys[k] == if k < n then OneTimeKey(a.nextOneTimeKeyId + n - k, false, pairs[n - 1 - k])
                                else a.oneTimeKeys[k - n])
  {
    GeneratedKeys(a, pairs);
    hide Generated;
  }

  lemma NoneNew(a: Account, pairs: seq<KeyPair>)
    requires pairs == [] && |a.oneTimeKeys| <= MAX_ONE_TIME_KEYS
    ensures FirstHundred(NewestFirst(a, pairs)) == a.oneTimeKeys
  {
  }

  lemma OneNewer(a: Account, pairs: seq<KeyPair>)
    requires pairs != [] && a.nextOneTimeKeyId + |pairs| < TWO32
    ensures var key := OneTimeKey(a.nextOneTimeKeyId + |pairs|, false, pairs[|pairs| - 1]);
      var before := FirstHundred(NewestFirst(a, pairs[..|pairs| - 1]));
      && |before| <= MAX_ONE_TIME_KEYS
      && Inserted(before, MAX_ONE_TIME_KEYS, 0, key) == FirstHundred(NewestFirst(a, pairs))
  {
    var key := OneTimeKey(a.nextOneTimeKeyId + |pairs|, false, pairs[|pairs| - 1]);
    var all := NewestFirst(a, pairs[..|pairs| - 1]);
    assert NewestFirst(a, pairs) == [key] + all;
    hide NewestFirst;
    InsertedFront(FirstHundred(all), MAX_ONE_TIME_KEYS, key);
  }

  /** Keys of fresh pairs keep the list in order. */
  lemma GeneratedKeeps(a: Account, pairs: seq<KeyPair>)
    requires WellKept(a) && AllFresh(a, pairs) && a.nextOneTimeKeyId + |pairs| < TWO32
    ensures WellKept(Generated(a, pairs))
  {
    GeneratedKeys(a, pairs);
    NewestIds(a, pairs);
    NewestPublics(a, pairs);
    hide Generated, NewestFirst, AllFresh;
    HundredKept(NewestFirst(a, pairs));
    hide IdsBelow, IdsFall, PublicsDiffer, IdAbsent, FirstHundred;
  }

  lemma NewestIds(a: Account, pairs: seq<KeyPair>)
    requires WellKept(a) && a.nextOneTimeKeyId + |pairs| < TWO32
    ensures IdsBelow(NewestFirst(a, pairs), a.nextOneTimeKeyId + |pairs|) && IdsFall(NewestFirst(a, pairs))
    ensures a.numFallbackKeys >= 1 ==> IdAbsent(NewestFirst(a, pairs), a.currentFallback.id)
  {
    hide PublicsDiffer;
  }

  lemma NewestPublics(a: Account, pairs: seq<KeyPair>)
    requires PublicsDiffer(a.oneTimeKeys) && AllFresh(a, pairs) && a.nextOneTimeKeyId + |pairs| < TWO32
    ensures PublicsDiffer(NewestFirst(a, pairs))
  {
    var all, n := NewestFirst(a, pairs), |pairs|;
    forall i, j | 0 <= i < j < |all|
      ensures all[i].key.public != all[j].key.public
    {
      if i < n {
        assert all[i].key == pairs[n - 1 - i] && Fresh(a, pairs[n - 1 - i]);
      }
    }
  }

  lemma HundredKept(keys: seq<OneTimeKey>)
    ensures |FirstHundred(keys)| <= MAX_ONE_TIME_KEYS
    ensures forall top: nat :: IdsBelow(keys, top) ==> IdsBelow(FirstHundred(keys), top)
    ensures forall id: u32 :: IdAbsent(keys, id) ==> IdAbsent(FirstHundred(keys), id)
    ensures IdsFall(keys) ==> IdsFall(FirstHundred(keys))
    ensures PublicsDiffer(keys) ==> PublicsDiffer(FirstHundred(keys))
  {
  }

  /** Publishing twice is publishing once, and leaves the account in order. */
  lemma PublishedKeeps(a: Account)
    requires WellKept(a)
    ensures WellKept(Published(a)) && Published(Published(a)) == Published(a)
    ensures Unpublished(Published(a).oneTimeKeys) == 0
  {
    NoneUnpublished(Published(a).oneTimeKeys);
  }

  /** Every key is found afterwards just where it was before, the one-time keys marked as published. */
  lemma PublishedFinds(a: Account, public: seq<byte>)
    ensures LookupPrekey(Published(a), public) == LookupPrekey(a, public)
    ensures var before, after := LookupKey(a, public), LookupKey(Published(a), public);
      && before.Some? == after.Some?
      && (before.Some? ==> after.value == before.value.(published := after.value.published))
      && (FindKey(a.oneTimeKeys, public) < |a.oneTimeKeys| ==> after.Some? && after.value.published)
  {
    var b := Published(a);
    var i, j := FindKey(a.oneTimeKeys, public), FindKey(b.oneTimeKeys, public);
    assert forall k :: 0 <= k < |a.oneTimeKeys| ==> b.oneTimeKeys[k] == a.oneTimeKeys[k].(published := true);
    assert i == j by {
      if i < |a.oneTimeKeys| {
        assert b.oneTimeKeys[i].key.public == public;
      }
    }
  }

  /** How many keys mark_keys_as_published counts. */
  function Unpublished(keys: seq<OneTimeKey>): nat {
    if keys == [] then 0
    else Unpublished(keys[..|keys| - 1]) + if keys[|keys| - 1].published then 0 else 1
  }

  lemma {:induction false} NoneUnpublished(keys: seq<OneTimeKey>)
    requires forall k :: 0 <= k < |keys| ==> keys[k].published
    ensures Unpublished(keys) == 0
  {
    if keys != [] {
      NoneUnpublished(keys[..|keys| - 1]);
    }
  }

  /** A key that has been used and removed is not found again, unless it is a fallback key too. */
  lemma RemovedIsGone(a: Account, public: seq<byte>)
    requires WellKept(a)
    ensures LookupKey(Removed(a, public).0, public) == FindFallback(a, public)
    ensures Removed(a, public).1.None? <==> LookupKey(a, public).None?
  {
    var i, b := FindKey(a.oneTimeKeys, public), Removed(a, public).0;
    if i < |a.oneTimeKeys| {
      ErasedAt(a.oneTimeKeys, i);
      assert forall k :: 0 <= k < |b.oneTimeKeys| ==> b.oneTimeKeys[k].key.public != public;
    }
  }

  /** Removing one key leaves every other key to be found as before. */
  lemma RemovedLeavesOthers(a: Account, public: seq<byte>, other: seq<byte>)
    requires WellKept(a) && other != public
    ensures LookupKey(Removed(a, public).0, other) == LookupKey(a, other)
  {
    hide WellKept, Erased;
    var i := FindKey(a.oneTimeKeys, public);
    if i < |a.oneTimeKeys| {
      FoundAfterErase(a.oneTimeKeys, i, other);
    }
  }

  lemma FoundAfterErase(keys: seq<OneTimeKey>, i: nat, other: seq<byte>)
    requires i < |keys| && keys[i].key.public != other
    ensures var left := Erased(keys, i);
      var j, k := FindKey(keys, other), FindKey(left, other);
      && (j < |keys| <==> k < |left|) && (j < |keys| ==> keys[j] == left[k])
  {
    ErasedAt(keys, i);
    hide Erased, FindKey;
    var left, j := Erased(keys, i), FindKey(keys, other);
    var k := if j < i then j else j - 1;
    forall n | 0 <= n < k
      ensures left[n].key.public != other
    {
      assert left[n] == keys[if n < i then n else n + 1];
    }
    if j < |keys| {
      assert left[k] == keys[j];
    }
    FirstIs(left, k, other);
  }

  lemma FirstIs(keys: seq<OneTimeKey>, k: nat, public: seq<byte>)
    requires k <= |keys| && (k < |keys| ==> keys[k].key.public == public)
    requires forall n :: 0 <= n < k ==> keys[n].key.public != public
    ensures FindKey(keys, public) == k
  {
    hide FindKey;
  }

  /** A new prekey does not hide the one before it, and pushes out the one before that. */
  lemma PrekeysRotate(a: Account, pair: KeyPair, public: seq<byte>)
    ensures var b := WithPrekey(a, pair);
      && LookupPrekey(b, public)
           == (if public == pair.public then Some(OneTimeKey(b.nextPrekeyId, false, pair))
               else if public == a.currentPrekey.key.public then Some(a.currentPrekey) else None)
      && b.nextPrekeyId == (if a.nextPrekeyId == 0xFFFF_FFFF then 0 else a.nextPrekeyId + 1)
      && b.numPrekeys == (if a.numPrekeys == 0 then 1 else if a.numPrekeys == 1 then 2 else a.numPrekeys)
      && b.oneTimeKeys == a.oneTimeKeys && forall name :: LookupKey(b, name) == LookupKey(a, name)
  {
    hide FindKey;
  }

  /** Which key is found: the first one-time key of that name; else the current fallback key, if there is one; else
   *  the one before it, if there are two. */
  lemma FoundKey(a: Account, public: seq<byte>, i: nat)
    requires i <= |a.oneTimeKeys| && forall k :: 0 <= k < i ==> a.oneTimeKeys[k].key.public != public
    ensures i < |a.oneTimeKeys| && a.oneTimeKeys[i].key.public == public ==>
      LookupKey(a, public) == Some(a.oneTimeKeys[i])
    ensures i == |a.oneTimeKeys| ==>
      LookupKey(a, public)
        == if a.numFallbackKeys > 0 && a.currentFallback.key.public == public then Some(a.currentFallback)
           else if a.numFallbackKeys > 1 && a.prevFallback.key.public == public then Some(a.prevFallback) else None
  {
    if i == |a.oneTimeKeys| || a.oneTimeKeys[i].key.public == public {
      FirstIs(a.oneTimeKeys, i, public);
    }
    hide FindKey;
  }

  /** The id is that of the key that would have been found; only a one-time key goes, and nothing else changes. */
  lemma RemovedId(a: Account, public: seq<byte>)
    ensures var (b, id) := Removed(a, public);
      && id == (if LookupKey(a, public).Some? then Some(LookupKey(a, public).value.id) else None)
      && b == a.(oneTimeKeys := b.oneTimeKeys)
      && ((forall k :: 0 <= k < |a.oneTimeKeys| ==> a.oneTimeKeys[k].key.public != public) ==> b == a)
  {
  }

  lemma RemovedRest(a: Account, public: seq<byte>, i: nat)
    requires i < |a.oneTimeKeys| && a.oneTimeKeys[i].key.public == public
    requires forall k :: 0 <= k < i ==> a.oneTimeKeys[k].key.public != public
    ensures Removed(a, public).0.oneTimeKeys == a.oneTimeKeys[..i] + a.oneTimeKeys[i + 1..]
  {
    FirstIs(a.oneTimeKeys, i, public);
    hide FindKey;
  }

  /** A new fallback key is found at once, the one before it stays to be found, and the one before that goes. */
  lemma FallbacksRotate(a: Account, pair: KeyPair, public: seq<byte>)
    requires forall k :: 0 <= k < |a.oneTimeKeys| ==> a.oneTimeKeys[k].key.public != public
    ensures var b := WithFallback(a, pair);
      && LookupKey(b, public)
           == (if public == pair.public then Some(b.currentFallback)
               else if a.numFallbackKeys > 0 && public == a.currentFallback.key.public then Some(a.currentFallback)
               else None)
      && b.currentFallback == OneTimeKey(b.nextOneTimeKeyId, false, pair)
      && b.nextOneTimeKeyId == (if a.nextOneTimeKeyId == 0xFFFF_FFFF then 0 else a.nextOneTimeKeyId + 1)
      && b.numFallbackKeys == (if a.numFallbackKeys == 0 then 1 else if a.numFallbackKeys == 1 then 2
                               else a.numFallbackKeys)
      && b.oneTimeKeys == a.oneTimeKeys && forall name :: LookupPrekey(b, name) == LookupPrekey(a, name)
  {
    FirstIs(a.oneTimeKeys, |a.oneTimeKeys|, public);
    hide FindKey;
  }

  /** Only the one-time keys and the current fallback key are marked, and nothing but the mark changes. */
  lemma PublishedMarks(a: Account)
    ensures var b := Published(a);
      && b == a.(oneTimeKeys := b.oneTimeKeys, currentFallback := b.currentFallback)
      && b.currentFallback == OneTimeKey(a.currentFallback.id, true, a.currentFallback.key)
      && b.prevFallback == a.prevFallback && |b.oneTimeKeys| == |a.oneTimeKeys|
      && forall k :: 0 <= k < |a.oneTimeKeys| ==>
           b.oneTimeKeys[k] == OneTimeKey(a.oneTimeKeys[k].id, true, a.oneTimeKeys[k].key)
  {
  }

  /** The count is that of the keys not marked before. */
  lemma {:induction false} UnpublishedCount(keys: seq<OneTimeKey>)
    ensures Unpublished(keys) == |set i | 0 <= i < |keys| && !keys[i].published|
  {
    if keys != [] {
      var n := |keys| - 1;
      UnpublishedCount(keys[..n]);
      var before, all := set i | 0 <= i < n && !keys[..n][i].published, set i | 0 <= i < |keys| && !keys[i].published;
      assert all == before + if keys[n].published then {} else {n};
    }
  }

  // ----- the object -----

  class AccountObject {
    var identity: KeyPair
    var oneTimeKeys: seq<OneTimeKey>
    var nextOneTimeKeyId: u32
    var numFallbackKeys: nat
    var currentFallback: OneTimeKey
    var prevFallback: OneTimeKey
    var numPrekeys: nat
    var currentPrekey: OneTimeKey
    var prevPrekey: OneTimeKey
    var nextPrekeyId: u32

    ghost function Value(): Account
      reads this
    {
      Account(identity, oneTimeKeys, nextOneTimeKeyId, numFallbackKeys, currentFallback, prevFallback,
              numPrekeys, currentPrekey, prevPrekey, nextPrekeyId)
    }

    /** The search over the one-time keys. */
    method Search(public: seq<byte>) returns (i: nat)
      ensures i == FindKey(oneTimeKeys, public)
    {
      i := 0;
      while i < |oneTimeKeys|
        invariant i <= |oneTimeKeys|
        invariant i + FindKey(oneTimeKeys[i..], public) == FindKey(oneTimeKeys, public)
      {
        if oneTimeKeys[i].key.public == public {
          return;
        }
        assert oneTimeKeys[i..][1..] == oneTimeKeys[i + 1..];
        i := i + 1;
      }
    }

    method Lookup(public: seq<byte>) returns (key: Option<OneTimeKey>)
      ensures key == LookupKey(Value(), public)
    {
      var i := Search(public);
      if i < |oneTimeKeys| {
        return Some(oneTimeKeys[i]);
      }
      if numFallbackKeys >= 1 && currentFallback.key.public == public {
        return Some(currentFallback);
      }
      if numFallbackKeys >= 2 && prevFallback.key.public == public {
        return Some(prevFallback);
      }
      return None;
    }

    method LookupPrekeyIn(public: seq<byte>) returns (key: Option<OneTimeKey>)
      ensures key == LookupPrekey(Value(), public)
    {
      if currentPrekey.key.public == public {
        return Some(currentPrekey);
      } else if prevPrekey.key.public == public {
        return Some(prevPrekey);
      }
      return None;
    }

    method RemoveKey(public: seq<byte>) returns (id: Option<u32>)
      modifies this`oneTimeKeys
      ensures (Value(), id) == Removed(old(Value()), public)
    {
      var i := Search(public);
      if i < |oneTimeKeys| {
        id := Some(oneTimeKeys[i].id);
        oneTimeKeys := Erased(oneTimeKeys, i);
        return;
      }
      if numFallbackKeys >= 1 && currentFallback.key.public == public {
        return Some(currentFallback.id);
      }
      if numFallbackKeys >= 2 && prevFallback.key.public == public {
        return Some(prevFallback.id);
      }
      return None;
    }

    /** generate_one_time_keys; the pairs are what the random bytes are made into. */
    method GenerateOneTimeKeys(pairs: seq<KeyPair>, randomLength: nat) returns (ok: bool)
      requires |oneTimeKeys| <= MAX_ONE_TIME_KEYS
      modifies this`oneTimeKeys, this`nextOneTimeKeyId
      ensures ok == (randomLength >= 32 * |pairs|)
      ensures Value() == if ok then Generated(old(Value()), pairs) else old(Value())
    {
      if randomLength < 32 * |pairs| {
        return false;
      }
      ghost var a := Value();
      var i := 0;
      while i < |pairs|
        invariant 0 <= i <= |pairs|
        invariant |oneTimeKeys| <= MAX_ONE_TIME_KEYS
        invariant Value() == Generated(a, pairs[..i])
      {
        assert pairs[..i + 1][..i] == pairs[..i];
        nextOneTimeKeyId := Wrap32(nextOneTimeKeyId + 1);
        oneTimeKeys := Inserted(oneTimeKeys, MAX_ONE_TIME_KEYS, 0, OneTimeKey(nextOneTimeKeyId, false, pairs[i]));
        i := i + 1;
      }
      assert pairs[..i] == pairs;
      return true;
    }

    method GeneratePrekey(pair: KeyPair, randomLength: nat) returns (ok: bool)
      modifies this`numPrekeys, this`prevPrekey, this`currentPrekey, this`nextPrekeyId
      ensures ok == (randomLength >= 32)
      ensures Value() == if ok then WithPrekey(old(Value()), pair) else old(Value())
    {
      if randomLength < 32 {
        return false;
      }
      if numPrekeys < 2 {
        numPrekeys := numPrekeys + 1;
      }
      prevPrekey := currentPrekey;
      nextPrekeyId := Wrap32(nextPrekeyId + 1);
      currentPrekey := OneTimeKey(nextPrekeyId, false, pair);
      return true;
    }

    method GenerateFallbackKey(pair: KeyPair, randomLength: nat) returns (ok: bool)
      modifies this`numFallbackKeys, this`prevFallback, this`currentFallback, this`nextOneTimeKeyId
      ensures ok == (randomLength >= 32)
      ensures Value() == if ok then WithFallback(old(Value()), pair) else old(Value())
    {
      if randomLength < 32 {
        return false;
      }
      if numFallbackKeys < 2 {
        numFallbackKeys := numFallbackKeys + 1;
      }
      prevFallback := currentFallback;
      nextOneTimeKeyId := Wrap32(nextOneTimeKeyId + 1);
      currentFallback := OneTimeKey(nextOneTimeKeyId, false, pair);
      return true;
    }

    /** mark_keys_as_published */
    method MarkKeysAsPublished() returns (count: nat)
      modifies this`oneTimeKeys, this`currentFallback
      ensures Value() == Published(old(Value())) && count == Unpublished(old(oneTimeKeys))
    {
      ghost var was := oneTimeKeys;
      count := 0;
      var i := 0;
      while i < |oneTimeKeys|
        invariant 0 <= i <= |oneTimeKeys| == |was|
        invariant currentFallback == old(currentFallback) && count == Unpublished(was[..i])
        invariant forall k :: 0 <= k < i ==> oneTimeKeys[k] == was[k].(published := true)
        invariant forall k :: i <= k < |was| ==> oneTimeKeys[k] == was[k]
      {
        assert was[..i + 1][..i] == was[..i];
        if !oneTimeKeys[i].published {
          oneTimeKeys := oneTimeKeys[i := oneTimeKeys[i].(published := true)];
          count := count + 1;
        }
        i := i + 1;
      }
      currentFallback := currentFallback.(published := true);
      assert was[..i] == was;
      assert oneTimeKeys == Published(old(Value())).oneTimeKeys;
    }
  }
}
