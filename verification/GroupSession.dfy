/** Group sessions (src/inbound_group_session.c, src/outbound_group_session.c): the two-point
 *  ratchet cache of the receiver, message exchange, and export and import of a session. */
module GroupSession {
  import opened Words
  import opened Megolm

  datatype Error =
    | SUCCESS
    | OUTPUT_BUFFER_TOO_SMALL
    | BAD_MESSAGE_VERSION
    | BAD_MESSAGE_FORMAT
    | BAD_MESSAGE_MAC
    | BAD_SESSION_KEY
    | UNKNOWN_MESSAGE_INDEX
    | BAD_SIGNATURE
    | INVALID_BASE64

  const PROTOCOL_VERSION := 3

  // ----- the ratchet cache -----

  /** The earliest known ratchet and the most recent one. */
  datatype Cache<K> = Cache(initial: State<K>, latest: State<K>) {
    ghost predicate Valid() { initial.Valid() && latest.Valid() }
  }

  /** _get_megolm: the moved cache, and the ratchet at index i if the index is known. */
  function Lookup<K>(h: Hmac<K>, s: Cache<K>, i: u32): (r: (Cache<K>, Option<State<K>>))
    requires s.Valid()
    ensures r.0.Valid() && (r.1.Some? ==> r.1.value.Valid())
  {
    if Wrap32(i - s.latest.counter) < TWO31 then
      var moved := Steps(h, s.latest, Wrap32(i - s.latest.counter));
      (s.(latest := moved), Some(moved))
    else if Wrap32(i - s.initial.counter) >= TWO31 then
      (s, None)
    else
      (s, Some(Steps(h, s.initial, Wrap32(i - s.initial.counter))))
  }

  /** The cache-free meaning of an index: the initial ratchet stepped up to it. */
  function RatchetAt<K>(h: Hmac<K>, initial: State<K>, i: u32): State<K>
    requires initial.Valid()
  {
    Steps(h, initial, Wrap32(i - initial.counter))
  }

  /** A cache whose latest ratchet is d steps past its initial one. */
  function CacheAt<K>(h: Hmac<K>, initial: State<K>, d: nat): (s: Cache<K>)
    requires initial.Valid()
    ensures s.Valid()
  {
    Cache(initial, Steps(h, initial, d))
  }

  /** How far past the initial ratchet a request moves the latest one. */
  function Moved(c: u32, d: nat, i: u32): nat {
    if Wrap32(i - Wrap32(c + d)) < TWO31 then d + Wrap32(i - Wrap32(c + d)) else d
  }

  function MovedAll(c: u32, d: nat, requests: seq<u32>): nat {
    if requests == [] then d
    else Moved(c, MovedAll(c, d, requests[..|requests| - 1]), requests[|requests| - 1])
  }

  function LookupAll<K>(h: Hmac<K>, s: Cache<K>, requests: seq<u32>): (r: Cache<K>)
    requires s.Valid()
    ensures r.Valid()
  {
    if requests == [] then s
    else Lookup(h, LookupAll(h, s, requests[..|requests| - 1]), requests[|requests| - 1]).0
  }

  /** What one lookup does from any reachable cache, wrap-around included. */
  lemma LookupFromDistance<K>(h: Hmac<K>, initial: State<K>, d: nat, i: u32)
    requires initial.Valid()
    ensures var jump := Wrap32(i - Wrap32(initial.counter + d));
            var (s, answer) := Lookup(h, CacheAt(h, initial, d), i);
            && s == CacheAt(h, initial, Moved(initial.counter, d, i))
            && (answer.None? <==> jump >= TWO31 && Wrap32(i - initial.counter) >= TWO31)
            && (answer.Some? ==>
                  answer.value
                    == if jump < TWO31 then Steps(h, initial, d + jump) else RatchetAt(h, initial, i))
  {
    hide Steps, Wrap32;
    StepsCounter(h, initial, d);
    StepsCompose(h, initial, d, Wrap32(i - Wrap32(initial.counter + d)));
  }

  lemma {:induction false} RunFromDistance<K>(h: Hmac<K>, initial: State<K>, requests: seq<u32>)
    requires initial.Valid()
    ensures LookupAll(h, Cache(initial, initial), requests)
         == CacheAt(h, initial, MovedAll(initial.counter, 0, requests))
  {
    hide Steps, Wrap32, Moved;
    if requests == [] {
      StepsZero(h, initial);
    } else {
      var n := |requests| - 1;
      RunFromDistance(h, initial, requests[..n]);
      LookupFromDistance(h, initial, MovedAll(initial.counter, 0, requests[..n]), requests[n]);
    }
  }

  ghost predicate Near(c: u32, requests: seq<u32>) {
    forall k :: 0 <= k < |requests| ==> Wrap32(requests[k] - c) < TWO31
  }

  lemma MovedNear(c: u32, d: nat, i: u32)
    requires d < TWO31 && Wrap32(i - c) < TWO31
    ensures Moved(c, d, i) < TWO31
    ensures Wrap32(i - Wrap32(c + d)) < TWO31 ==> d + Wrap32(i - Wrap32(c + d)) == Wrap32(i - c)
  {
  }

  lemma {:induction false} MovedAllNear(c: u32, requests: seq<u32>)
    requires Near(c, requests)
    ensures MovedAll(c, 0, requests) < TWO31
  {
    hide Moved, Wrap32;
    if requests != [] {
      var n := |requests| - 1;
      MovedAllNear(c, requests[..n]);
      MovedNear(c, MovedAll(c, 0, requests[..n]), requests[n]);
    }
  }

  /** While every index asked for is less than 2^31 past the first known one, the order and
   *  number of the requests never changes an answer. */
  lemma CacheIsTransparent<K>(h: Hmac<K>, initial: State<K>, requests: seq<u32>, i: u32)
    requires initial.Valid()
    requires Near(initial.counter, requests) && Wrap32(i - initial.counter) < TWO31
    ensures Lookup(h, LookupAll(h, Cache(initial, initial), requests), i).1
         == Some(RatchetAt(h, initial, i))
  {
    hide Steps, Wrap32, Moved;
    var d := MovedAll(initial.counter, 0, requests);
    RunFromDistance(h, initial, requests);
    MovedAllNear(initial.counter, requests);
    MovedNear(initial.counter, d, i);
    LookupFromDistance(h, initial, d, i);
  }

  // ----- exactly when the cache is transparent -----

  /** A hash that counts: it tells apart every number of rehashes. */
  function CountingHmac(): Hmac<int> { (k: int, seed: nat) => k + 1 }

  lemma {:induction false} CountingR0(initial: State<int>, n: nat)
    requires initial.Valid()
    ensures Steps(CountingHmac(), initial, n).data[0]
         == initial.data[0] + (initial.counter + n) / TWO24 - initial.counter / TWO24
  {
    if n > 0 {
      CountingR0(initial, n - 1);
      StepsCounter(CountingHmac(), initial, n);
      CountingCarry(initial.counter + n);
    }
  }

  lemma QuotientCarry(x: int, d: int)
    requires d > 1
    ensures x / d == (x - 1) / d + (if x % d == 0 then 1 else 0)
  {
    FloorBelow(x, d);
    if x % d == 0 {
      DivideIs(x - 1, d, x / d - 1, d - 1);
    } else {
      DivideIs(x - 1, d, x / d, x % d - 1);
    }
  }

  lemma WrapKeepsLow(x: int)
    ensures Wrap32(x) % TWO24 == x % TWO24
  {
    FloorBelow(x, TWO32);
    AddMultiple(Wrap32(x), x / TWO32 * 256, TWO24);
  }

  lemma CountingCarry(x: int)
    requires x >= 1
    ensures x / TWO24 == (x - 1) / TWO24 + (if Level(Wrap32(x)) == 0 then 1 else 0)
  {
    QuotientCarry(x, TWO24);
    WrapKeepsLow(x);
    hide Wrap32;
  }

  lemma CyclesDiffer(initial: State<int>, m: nat, n: nat)
    requires initial.Valid() && m + TWO32 <= n
    ensures Steps(CountingHmac(), initial, m) != Steps(CountingHmac(), initial, n)
  {
    hide Steps;
    CountingR0(initial, m);
    CountingR0(initial, n);
  }

  /** A request answered from the latest ratchet, after any run of requests. */
  lemma AnswerAfterRun<K>(h: Hmac<K>, initial: State<K>, requests: seq<u32>, i: u32)
    requires initial.Valid()
    requires Wrap32(i - Wrap32(initial.counter + MovedAll(initial.counter, 0, requests))) < TWO31
    ensures Lookup(h, LookupAll(h, Cache(initial, initial), requests), i).1
         == Some(Steps(h, initial, MovedAll(initial.counter, 0, requests + [i])))
  {
    hide Steps, Wrap32;
    var d := MovedAll(initial.counter, 0, requests);
    assert (requests + [i])[..|requests|] == requests;
    RunFromDistance(h, initial, requests);
    LookupFromDistance(h, initial, d, i);
  }

  ghost predicate TransparentAt<K(!new)>(h: Hmac<K>, initial: State<K>, requests: seq<u32>, i: u32)
    requires initial.Valid()
  {
    Lookup(h, LookupAll(h, Cache(initial, initial), requests), i).1
      == Some(RatchetAt(h, initial, i))
  }

  /** Over all requests, near or far: a request answered from the latest ratchet gets the
   *  ratchet its index means, under every HMAC, if and only if the total distance walked
   *  stays below 2^32. */
  lemma TransparentIffNoFullCycle(initial: State<int>, requests: seq<u32>, i: u32)
    requires initial.Valid()
    requires Wrap32(i - Wrap32(initial.counter + MovedAll(initial.counter, 0, requests))) < TWO31
    ensures (forall h: Hmac<int> :: TransparentAt(h, initial, requests, i))
       <==> MovedAll(initial.counter, 0, requests + [i]) < TWO32
  {
    hide TransparentAt, Steps, LookupAll, Lookup, MovedAll, Wrap32;
    var total := MovedAll(initial.counter, 0, requests + [i]);
    TotalIsOffset(initial.counter, requests, i);
    if total >= TWO32 {
      FullCycleShows(initial, requests, i);
    } else {
      forall h: Hmac<int>
        ensures TransparentAt(h, initial, requests, i)
      {
        NoCycleNoDifference(h, initial, requests, i);
      }
    }
  }

  lemma NoCycleNoDifference<K(!new)>(h: Hmac<K>, initial: State<K>, requests: seq<u32>, i: u32)
    requires initial.Valid()
    requires Wrap32(i - Wrap32(initial.counter + MovedAll(initial.counter, 0, requests))) < TWO31
    requires MovedAll(initial.counter, 0, requests + [i]) == Wrap32(i - initial.counter)
    ensures TransparentAt(h, initial, requests, i)
  {
    hide Steps, LookupAll, Lookup, MovedAll, Wrap32;
    AnswerAfterRun(h, initial, requests, i);
  }

  lemma FullCycleShows(initial: State<int>, requests: seq<u32>, i: u32)
    requires initial.Valid()
    requires Wrap32(i - Wrap32(initial.counter + MovedAll(initial.counter, 0, requests))) < TWO31
    requires Wrap32(i - initial.counter) + TWO32 <= MovedAll(initial.counter, 0, requests + [i])
    ensures !TransparentAt(CountingHmac(), initial, requests, i)
  {
    hide Steps, LookupAll, Lookup;
    AnswerAfterRun(CountingHmac(), initial, requests, i);
    CyclesDiffer(initial, Wrap32(i - initial.counter), MovedAll(initial.counter, 0, requests + [i]));
  }

  /** Two requests and a third take the cache once round the whole cycle: from counter 0 by 2^31 - 1, by
   *  2^31 - 1 again, and by 2 to index 0. The answer is then the ratchet 2^32 steps on. */
  lemma FullCycle(initial: State<int>)
    requires initial.Valid() && initial.counter == 0
    ensures MovedAll(0, 0, [0x7FFF_FFFF, 0xFFFF_FFFE, 0]) == TWO32
    ensures !TransparentAt(CountingHmac(), initial, [0x7FFF_FFFF, 0xFFFF_FFFE], 0)
  {
    var requests: seq<u32> := [0x7FFF_FFFF, 0xFFFF_FFFE];
    assert requests[..1] == [0x7FFF_FFFF] && requests[..1][..0] == [];
    assert MovedAll(0, 0, requests[..1]) == 0x7FFF_FFFF;
    assert MovedAll(0, 0, requests) == 0xFFFF_FFFE;
    assert (requests + [0])[..2] == requests && requests + [0] == [0x7FFF_FFFF, 0xFFFF_FFFE, 0];
    assert MovedAll(0, 0, requests + [0]) == TWO32;
    hide TransparentAt, MovedAll;
    FullCycleShows(initial, requests, 0);
  }

  lemma TotalIsOffset(c: u32, requests: seq<u32>, i: u32)
    requires Wrap32(i - Wrap32(c + MovedAll(c, 0, requests))) < TWO31
    ensures var total := MovedAll(c, 0, requests + [i]);
            && (total < TWO32 ==> total == Wrap32(i - c))
            && (total >= TWO32 ==> Wrap32(i - c) + TWO32 <= total)
  {
    assert (requests + [i])[..|requests|] == requests;
    OffsetArithmetic(c, MovedAll(c, 0, requests), i);
  }

  lemma OffsetArithmetic(c: u32, d: nat, i: u32)
    ensures var total := d + Wrap32(i - Wrap32(c + d));
            && (total < TWO32 ==> total == Wrap32(i - c))
            && (total >= TWO32 ==> Wrap32(i - c) + TWO32 <= total)
  {
  }

  // ----- messages -----

  type PublicKey = seq<byte>

  /** A ciphertext with its MAC, opened only by the ratchet data it was sealed under. */
  datatype Sealed<K> = Sealed(key: seq<K>, plaintext: seq<byte>)

  /** A decoded group message; absent fields are None. The signature verifies under signer. */
  datatype GroupMessage<K> = GroupMessage(
    version: byte, index: Option<u32>, ciphertext: Option<Sealed<K>>, signer: PublicKey)

  /** _encrypt: the message at the sender's ratchet. */
  function MessageAt<K>(at: State<K>, plaintext: seq<byte>, signer: PublicKey): GroupMessage<K> {
    GroupMessage(PROTOCOL_VERSION, Some(at.counter), Some(Sealed(at.data, plaintext)), signer)
  }

  datatype Verdict<K> = Verdict(cache: Cache<K>, error: Error, plaintext: seq<byte>)

  /** _decrypt: the first failing check decides; a bad MAC is found after the cache moved. */
  function Judge<K(==)>(h: Hmac<K>, s: Cache<K>, signer: PublicKey, msg: GroupMessage<K>, room: nat): Verdict<K>
    requires s.Valid()
  {
    if msg.version != PROTOCOL_VERSION then Verdict(s, BAD_MESSAGE_VERSION, [])
    else if msg.index.None? || msg.ciphertext.None? then Verdict(s, BAD_MESSAGE_FORMAT, [])
    else if msg.signer != signer then Verdict(s, BAD_SIGNATURE, [])
    else if room < CbcLength(|msg.ciphertext.value.plaintext|) then Verdict(s, OUTPUT_BUFFER_TOO_SMALL, [])
    else
      var (moved, answer) := Lookup(h, s, msg.index.value);
      if answer.None? then Verdict(moved, UNKNOWN_MESSAGE_INDEX, [])
      else if answer.value.data != msg.ciphertext.value.key then Verdict(moved, BAD_MESSAGE_MAC, [])
      else Verdict(moved, SUCCESS, msg.ciphertext.value.plaintext)
  }

  /** The sender's ratchet starts at start; the receiver was given it at step e and has since
   *  served any requests at all within range. Then the sender's message number k, up to
   *  2^31 - 1 past the shared point, decrypts to what was sent. */
  lemma EveryMessageDecrypts<K>(h: Hmac<K>, start: State<K>, e: nat, k: nat, requests: seq<u32>,
                                plaintext: seq<byte>, signer: PublicKey, room: nat)
    requires start.Valid() && e <= k < e + TWO31
    requires Near(Steps(h, start, e).counter, requests)
    requires room >= CbcLength(|plaintext|)
    ensures var shared := Steps(h, start, e);
            var s := LookupAll(h, Cache(shared, shared), requests);
            var verdict := Judge(h, s, signer, MessageAt(Steps(h, start, k), plaintext, signer), room);
            verdict.error == SUCCESS && verdict.plaintext == plaintext
  {
    hide Steps, LookupAll, Lookup, CbcLength;
    SenderFound(h, start, e, k, requests);
  }

  lemma SenderFound<K>(h: Hmac<K>, start: State<K>, e: nat, k: nat, requests: seq<u32>)
    requires start.Valid() && e <= k < e + TWO31 && Near(Steps(h, start, e).counter, requests)
    ensures var shared := Steps(h, start, e);
      var m := Steps(h, start, k);
      && Lookup(h, LookupAll(h, Cache(shared, shared), requests), m.counter).1 == Some(m)
  {
    hide Steps, LookupAll, Lookup, Wrap32, Near;
    var shared := Steps(h, start, e);
    var index := Steps(h, start, k).counter;
    StepsCounter(h, start, e);
    StepsCounter(h, start, k);
    StepsCompose(h, start, e, k - e);
    OffsetFromShared(start.counter, e, k);
    CacheIsTransparent(h, shared, requests, index);
  }

  lemma OffsetFromShared(c: u32, e: nat, k: nat)
    requires e <= k < e + TWO32
    ensures Wrap32(Wrap32(c + k) - Wrap32(c + e)) == k - e
  {
  }

  /** A session exported at i and imported elsewhere agrees with the original from i on. */
  lemma ExportAgrees<K>(h: Hmac<K>, initial: State<K>, i: u32, j: u32)
    requires initial.Valid()
    requires Wrap32(i - initial.counter) <= Wrap32(j - initial.counter)
    ensures RatchetAt(h, initial, i).counter == i
    ensures RatchetAt(h, RatchetAt(h, initial, i), j) == RatchetAt(h, initial, j)
  {
    hide Steps, Wrap32;
    var a, b := Wrap32(i - initial.counter), Wrap32(j - initial.counter);
    StepsCounter(h, initial, a);
    StepsCompose(h, initial, a, b - a);
    OffsetsSubtract(initial.counter, i, j);
  }

  lemma OffsetsSubtract(c: u32, i: u32, j: u32)
    requires Wrap32(i - c) <= Wrap32(j - c)
    ensures Wrap32(c + Wrap32(i - c)) == i
    ensures Wrap32(j - i) == Wrap32(j - c) - Wrap32(i - c)
  {
  }

  // ----- the session objects -----

  class Outbound<K(==)> {
    const ratchet: Ratchet<K>
    const signer: PublicKey

    ghost predicate Valid()
      reads this, ratchet
    {
      ratchet.Valid()
    }

    constructor (hmac: Hmac<K>, random: seq<K>, signer: PublicKey)
      requires |random| == PARTS
      ensures Valid() && fresh(ratchet) && fresh(ratchet.data)
      ensures ratchet.hmac == hmac && this.signer == signer
      ensures ratchet.Value() == State(random, 0)
    {
      this.ratchet := new Ratchet(hmac, random, 0);
      this.signer := signer;
    }

    method Encrypt(plaintext: seq<byte>) returns (msg: GroupMessage<K>)
      requires Valid()
      modifies ratchet`counter, ratchet.data
      ensures Valid()
      ensures msg == MessageAt(old(ratchet.Value()), plaintext, signer)
      ensures ratchet.Value() == Step(ratchet.hmac, old(ratchet.Value()))
    {
      msg := GroupMessage(PROTOCOL_VERSION, Some(ratchet.counter), Some(Sealed(ratchet.data[..], plaintext)), signer);
      ratchet.Advance();
    }
  }

  class Inbound<K(==)> {
    const initial: Ratchet<K>
    const latest: Ratchet<K>
    const signer: PublicKey
    var verified: bool
    var lastError: Error

    ghost predicate Valid()
      reads this, initial, latest
    {
      && initial.Valid() && latest.Valid()
      && initial != latest && initial.data != latest.data
      && initial.hmac == latest.hmac
    }

    ghost function Value(): (s: Cache<K>)
      reads this, initial, latest, initial.data, latest.data
      requires Valid()
      ensures s.Valid()
    {
      Cache(initial.Value(), latest.Value())
    }

    /** The two megolm_init calls of _init_group_session_keys. */
    constructor (hmac: Hmac<K>, shared: State<K>, signer: PublicKey, signedShare: bool)
      requires shared.Valid()
      ensures Valid() && fresh(latest) && fresh(latest.data) && latest.hmac == hmac
      ensures Value() == Cache(shared, shared)
      ensures this.signer == signer && verified == signedShare && lastError == SUCCESS
    {
      this.initial := new Ratchet(hmac, shared.data, shared.counter);
      this.latest := new Ratchet(hmac, shared.data, shared.counter);
      this.signer := signer;
      this.verified := signedShare;
      this.lastError := SUCCESS;
    }

    /** _get_megolm: the caller receives a copy. */
    method GetMegolm(index: u32) returns (result: Option<State<K>>)
      requires Valid()
      modifies this`lastError, latest`counter, latest.data
      ensures Valid() && (Value(), result) == Lookup(latest.hmac, old(Value()), index)
      ensures lastError == if result.None? then UNKNOWN_MESSAGE_INDEX else old(lastError)
    {
      if Wrap32(index - latest.counter) < TWO31 {
        latest.AdvanceTo(index);
        return Some(State(latest.data[..], latest.counter));
      } else if Wrap32(index - initial.counter) >= TWO31 {
        lastError := UNKNOWN_MESSAGE_INDEX;
        return None;
      } else {
        var copy := new Ratchet(initial.hmac, initial.data[..], initial.counter);
        copy.AdvanceTo(index);
        return Some(State(copy.data[..], copy.counter));
      }
    }

    method Decrypt(msg: GroupMessage<K>, room: nat) returns (plaintext: Option<seq<byte>>)
      requires Valid()
      modifies this`lastError, this`verified, latest`counter, latest.data
      ensures Valid()
      ensures var verdict := Judge(latest.hmac, old(Value()), signer, msg, room);
              && Value() == verdict.cache
              && (verdict.error == SUCCESS ==>
                    plaintext == Some(verdict.plaintext) && verified && lastError == old(lastError))
              && (verdict.error != SUCCESS ==>
                    plaintext == None && verified == old(verified) && lastError == verdict.error)
    {
      if msg.version != PROTOCOL_VERSION {
        lastError := BAD_MESSAGE_VERSION;
        return None;
      }
      if msg.index.None? || msg.ciphertext.None? {
        lastError := BAD_MESSAGE_FORMAT;
        return None;
      }
      if msg.signer != signer {
        lastError := BAD_SIGNATURE;
        return None;
      }
      if room < CbcLength(|msg.ciphertext.value.plaintext|) {
        lastError := OUTPUT_BUFFER_TOO_SMALL;
        return None;
      }
      var megolm := GetMegolm(msg.index.value);
      if megolm.None? {
        return None;
      }
      if megolm.value.data != msg.ciphertext.value.key {
        lastError := BAD_MESSAGE_MAC;
        return None;
      }
      verified := true;
      return Some(msg.ciphertext.value.plaintext);
    }
  }

}
