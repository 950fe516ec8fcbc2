# Verification of libolm

libolm implements two ratchet protocols, their wire and storage formats, and the field arithmetic and
symmetric primitives under them. This project models that code in Dafny and proves what it is for:

- **Megolm** (`Megolm`, `GroupSession`, `GroupKeys`, `GroupMessages`, `GroupRules`). The jumping advance of
  the group ratchet equals the one-step advance for every pair of 32-bit counters; the receiver's two-point
  cache never changes an answer within range; the bytes a sender puts in its buffer give every receiver within
  range the plaintext; and on arbitrary bytes it is said exactly which messages are received.
- **Double Ratchet** (`BoundedList`, `DoubleRatchet`, `RatchetHistory`, `RatchetParty`, `RatchetDelivery`,
  `RatchetProtocol`, `RatchetRules`, `Accounts`, `Session`, `SessionRules`). Two ratchets and a network that
  reorders, drops, duplicates and reflects messages, as a state machine. An invariant over every run gives
  agreement, progress in both directions, no replay, and an account of every counter. Session setup is carried
  down to bytes, and over every run it is decided which kind of message a session writes.
- **Field and scalar arithmetic** (`Recoding`, `SlidingWindow`, `AbelianGroup`, `ScalarMult`, `Bitwise`,
  `Limbs`, `FieldMul`, `FieldChains`, `FieldBytes`, `DonnaField`, `DonnaLadder`, `DonnaChain`, `DonnaBytes`,
  `Curve25519`, `Fermat`, `Rfc7748`, `LadderMeaning`). Signed limbs modulo 2^255 - 19 with their overflow
  bounds, canonical serialisation, addition chains, the ladder of RFC 7748 and what it computes in a group, and
  two signed-digit recodings over an abstract abelian group.
- **Codecs and primitives** (`Message`, `MessageCodec`, `MessageFormats`, `Base64`, `Sha256`, `Hkdf`, `Cbc`,
  `Aes`, `AesRounds`, `AesCbc`, `CipherSuite`, `Pickle`, `PickleEncoding`, `PickleFormats`, `PickleCuts`).
  Round trips through shared buffers, a tolerant parser, streaming hashes, CBC and AES in place. What the
  standards and the documentation say of single bytes and constants is stated in `WireLayout`, `PickleLayout`,
  `Base64Standard` and `AesStandard`.

`Words` holds the fixed-width integers that the other modules share.

Objects whose methods update fields are classes; buffers are arrays; each method is specified by a function
on values, and the theorems are lemmas about those functions. Shifts and masks by constants are written as
the division and remainder they are; widths are subset types, so that every assignment to a 32-bit or 64-bit
variable carries the proof that it fits.

## How the protocols are abstracted

Keys of the Double Ratchet are terms: two derivations agree exactly when they derive the same from the same
inputs. A Diffie-Hellman secret is the unordered pair of its private keys, a public key is named by its
private key, and a sealed plaintext opens under the key it was sealed with. `Session` carries these names to
bytes through a `Wire`, whose length laws hold for all arguments and whose inverse laws are asked only of the
keys and ciphertexts that a statement is about; `Session.WireExists` and `Session.FirstWire` build such a
`Wire`. HMAC is a parameter of `Megolm`; `GroupMessages` fills it in with the HMAC of `Hkdf`. The block
transform of SHA-256, the key schedule of AES, Ed25519 signatures and random bytes are parameters.

## Findings

What the code does not keep, with the exact condition under which it does:

- **A one-time key equal to the prekey** (src/session.cpp:113-115, 231-233). The two sides derive the same
  secret, and the first message decrypts, if and only if the one-time key, when there is one, is not the
  prekey itself: `Session.SecretsAgreeIff`, `Session.FirstMessage`. The outbound side counts four secrets,
  the inbound side three. (The secret is hashed over a prefix of four or three bytes, as the code has it;
  that prefix lies within the first of the secrets, `Session.PrefixLength`.) `Session.PrekeyAsOneTime` is the
  failing case for every choice of keys: the account holds its prekey and nothing else.
- **A cut list** (include/olm/pickle.hh:120-146). A session pickle of version 1 that has lost its end is taken for a whole
  one if and only if the cut falls between two items of the skipped-key list, and then the session lacks the
  keys that were cut off: `PickleCuts.CutSession`, with an input in `PickleCuts.LostSkippedKey`. Session
  pickles of version 0x80000001, accounts and group sessions are refused at every cut:
  `PickleCuts.CutLogging`, `PickleCuts.CutAccount`, `PickleCuts.CutGroup`. The MAC around a pickle is what
  keeps this from showing.
- **A full list** (include/olm/list.hh:66-78). The comment says that the end of the list is discarded when an
  insertion makes it longer than its capacity. Read as inserting first and cutting afterwards, an insertion at
  the end of a full list would discard the new item; the code keeps the new item and overwrites the last one.
  (Read as making room first, the two agree.) An overlong list therefore keeps its first items and its last:
  `BoundedList.List.Insert`, `Pickle.LongListKeepsEnds`.
- **The group ratchet cache after a full cycle** (src/inbound_group_session.c:335-355). An answer from the
  latest ratchet is the ratchet that the index means, under every HMAC, if and only if the total distance the
  cache has moved is below 2^32: `GroupSession.TransparentIffNoFullCycle`. Three
  requests reach 2^32, and the last is answered with a ratchet a whole cycle too far: `GroupSession.FullCycle`.
  Requests less than 2^31 past the initial counter never do: `GroupSession.CacheIsTransparent`.
- **Ciphertexts that are not whole blocks** (src/crypto.cpp:204-226). The decryption loop stays inside its
  buffers if and only if the length is a positive multiple of 16, `Cbc.StaysInsideIff`, and the MAC check
  alone does not ensure that, `PickleEncoding.GoodMacAnyLength`. No sender of this library produces such
  input: `PickleEncoding.OpenedClosed`, `GroupMessages.EveryMessageArrives`.
- **Base64 is not injective** (src/base64.cpp:106-157). Encoding gives back the characters that were decoded
  if and only if every one of them is a digit of the alphabet and the bits of the last one that no byte takes
  are zero: `Base64.EncodeUndoesDecodeIff`. The decoder ignores top bits and takes characters outside the
  alphabet too. Inputs of both kinds: `Base64.StrayBit`, `Base64.ForeignCharacters`.
- **Matching ignores the prekey** (src/session.cpp:264-294). On arbitrary bytes a session matches if and
  only if the fields are good, and sender, base key and one-time key are its own, `Session.MatchesIff`; two
  sessions that differ in the prekey alone match the same messages, `Session.MatchesSame`.

What the comment at src/megolm.c:123-126 supposes, that the 256-step case belongs to R(0) alone, holds:
`Megolm.WrapCaseIsForR0`. Where comments and code differ, the code is followed: HKDF takes the salt before the
info (src/crypto.cpp:257-262), unlike the parameter names of include/olm/crypto.h; `is_sequential` is not
consulted when a message starts a new chain (src/ratchet.cpp:560-566), as `RatchetProtocol.DeliveredPlaintext`
states; pre-key messages carry the prekey under tag 0x2A (src/message.cpp:249), which the table in docs/olm.md
does not have, `WireLayout.PreKeyLayout`; and a group message whose signature is bad still tells its index to
the caller (src/inbound_group_session.c:391-393), `GroupRules.ToldIff`.

## Model

| member | source | states |
|---|---|---|
| Megolm.Ratchet.Advance | src/megolm.c:85-104 | the new data and counter are those of one specification step: the parts from the level of the new counter on are rehashed, all from one part |
| Megolm.Ratchet.AdvanceTo | src/megolm.c:106-154 | the state after a jump to any 32-bit target, wrap-around included, is that of (target - counter) mod 2^32 single steps |
| Megolm.Ratchet.RehashFrom | src/megolm.c:85-104 | the parts from j on become the hashes of the old part j, in an order that reads it before it is overwritten |
| Megolm.CrossBlocks | src/megolm.c:106-154 | crossing s boundaries of one part, none of a coarser one, is s rehashes of that part, the last of which reseeds the finer parts |
| Megolm.JumpLands | src/megolm.c:113-140 | every boundary a jump of part j crosses belongs to part j, it lands on the target with the finer bits cleared, and the rest of the distance is what remains |
| Megolm.WrapCaseIsForR0 | src/megolm.c:120-131 | 256 steps are taken just when j = 0, the target is below the counter, and their top bytes agree |
| Megolm.PartsByFormula | docs/megolm.md:40-68 | one specification step is the documented recurrence, case by case: which part is rehashed at multiples of 2^24, 2^16 and 2^8, and from which |
| GroupSession.Inbound.constructor | src/inbound_group_session.c:119-126 | a fresh session holds the shared state as both its earliest and its latest ratchet |
| GroupSession.Inbound.GetMegolm | src/inbound_group_session.c:335-355 | cache and answer are those of the specification; the earliest ratchet is never moved; an index before it is refused |
| GroupSession.Inbound.Decrypt | src/inbound_group_session.c:360-440 | cache, outcome, error and verified flag after a message, with the checks in the order of the code |
| GroupRules.JudgedIff | src/inbound_group_session.c:360-440 | a message decrypts if and only if version, fields, signer, room, index and key are right, with the error of each failure and whether the cache has moved |
| GroupSession.Outbound.Encrypt | src/outbound_group_session.c:230-279 | the message is sealed at the ratchet before the step, and the ratchet moves by one step |
| GroupSession.CacheIsTransparent | src/inbound_group_session.c:335-355 | after any requests within 2^31 of the initial counter, an index is answered with the initial ratchet stepped up to it |
| GroupRules.KnownIff | src/inbound_group_session.c:335-355 | an index is known just when it is less than 2^31 past the latest or the earliest ratchet, modulo 2^32; the answer is that ratchet stepped up to it, and only the latest ever moves |
| GroupSession.TransparentIffNoFullCycle | src/inbound_group_session.c:335-355 | an answer from the latest ratchet is right under every HMAC if and only if the total distance walked stays below 2^32 |
| GroupSession.FullCycle | src/inbound_group_session.c:335-355 | an input: from counter 0 three requests walk 2^32 steps in all, and the last answer is not the ratchet its index means |
| GroupSession.EveryMessageDecrypts | src/inbound_group_session.c:360-440 | every message up to 2^31 - 1 past the shared point decrypts, whatever was requested before |
| GroupSession.ExportAgrees | src/inbound_group_session.c:501-540 | a session exported at i agrees with the original at every later index |
| GroupKeys.ExportImport | src/inbound_group_session.c:501-540 | importing what was exported gives back counter, ratchet and signing key, unverified |
| GroupKeys.SharedKey | src/inbound_group_session.c:99-140 | a shared session key is accepted, and verified, just when its signature is good |
| GroupKeys.KindsDoNotMix | src/inbound_group_session.c:99-188 | an exported key is refused as a session key and the other way round |
| GroupKeys.ImportIff | src/inbound_group_session.c:99-188 | on arbitrary characters: accepted if and only if length and version byte are right and a shared key is signed; the fields at their offsets, the error of each failure, and whether the key counts as verified |
| GroupKeys.KeyLayout | docs/megolm.md:193-234 | the version at 0, the counter big-endian at 1, the ratchet at 5, the public key at 133 |
| GroupKeys.ExportedSessionAgrees | src/inbound_group_session.c:501-540 | a session exported as characters and imported holds the original's ratchet at every later index |
| GroupKeys.StoreCounter | src/inbound_group_session.c:524-527 | shifting the counter left and storing its top byte writes it most significant byte first |
| GroupKeys.ExportKey | src/inbound_group_session.c:520-540 | base64 over the raw key at the buffer's tail leaves the encoding of version, index, ratchet and key |
| GroupMessages.GroupEncrypt | src/outbound_group_session.c:281-312 | the buffer holds the base64 of header, ciphertext, MAC and signature at the old ratchet, the ratchet has moved one step; a buffer too small changes nothing |
| GroupMessages.EncryptAt | src/outbound_group_session.c:230-279 | header, ciphertext in its gap, MAC and signature stand one behind the other in the buffer |
| GroupMessages.DecryptRaw | src/inbound_group_session.c:360-440 | cache, error, verified flag, index told and plaintext in the buffer are those of the specification, for arbitrary bytes; the bad signature is among the errors, see GroupRules.ReceivedIff and RefusedAs |
| GroupMessages.GroupDecrypt | src/inbound_group_session.c:442-461 | the same from base64 that is decoded where it stands, bad base64 included; the index is told once version and fields are good |
| GroupMessages.EveryMessageArrives | src/inbound_group_session.c:360-440 | the bytes of every message up to 2^31 - 1 past the shared point pass base64, parsing, signature, MAC and CBC, and give the receiver the plaintext |
| GroupMessages.SentIsJudgedReceived | src/inbound_group_session.c:442-461 | the same of the characters that GroupEncrypt leaves and GroupDecrypt reads |
| GroupRules.ReceivedIff | src/inbound_group_session.c:360-440 | on arbitrary bytes, with any cache and any verification: received if and only if version and fields are good, the last 64 bytes verify over the rest, there is room, the index is known, the MAC is right and the padding is there; and what the plaintext is |
| GroupRules.RefusedAs | src/inbound_group_session.c:373-433 | the error of each failing check, in the order of the checks; a bad signature leaves the cache as it was |
| GroupRules.ToldIff | src/inbound_group_session.c:386-393 | the caller is told the index if and only if version and fields are good |
| GroupRules.SentLayout | docs/megolm.md:238-275 | version and two tagged fields, 8 bytes of HMAC over these, 64 bytes of signature over all before |
| GroupRules.KeysAre | docs/megolm.md:122-130 | the keys are cut from 80 bytes of HKDF over the four parts in order, without salt, for MEGOLM_KEYS |
| GroupRules.SeedIsPart | docs/megolm.md:162-172 | part j is rehashed with HMAC over the one byte j |
| BoundedList.List.Insert | include/olm/list.hh:66-83 | the item is at its place, later ones have moved up, the last has gone if the list was full; at the end of a full list it replaces the last |
| BoundedList.List.Erase | include/olm/list.hh:52-58 | the item is gone and the later ones have moved down |
| BoundedList.InsertedItems | include/olm/list.hh:66-83 | the specification of an insertion, item by item, for every place in a list that is full or not |
| BoundedList.ErasedItems | include/olm/list.hh:52-58 | the specification of an erasure, item by item |
| DoubleRatchet.Ratchet.InitialiseAsAlice | src/ratchet.cpp:217-234 | root and first sender chain come from the shared secret, with no receiver chain |
| DoubleRatchet.Ratchet.InitialiseAsBob | src/ratchet.cpp:196-214 | root and first receiver chain come from the shared secret, with no sender chain |
| DoubleRatchet.Ratchet.Encrypt | src/ratchet.cpp:428-488 | state and message are those of the specification; a missing sender chain is derived from the newest receiver chain with 32 random bytes; a refused call changes only the error |
| RatchetRules.EncryptsIff | src/ratchet.cpp:423-446 | from every valid state a message comes out if and only if there is a sender chain or 32 random bytes, and room for the message; the error and the unchanged state otherwise |
| RatchetRules.EncryptsTo | src/ratchet.cpp:448-488 | version, counter, key and seal of the message, and the whole next state, with and without a sender chain |
| DoubleRatchet.Ratchet.CreateChainKey | src/ratchet.cpp:42-65 | new root and chain come from the old root and one shared secret, the index from zero |
| DoubleRatchet.Ratchet.AdvanceChainKey | src/ratchet.cpp:68-78 | one derivation, and the index up by one modulo 2^32 |
| DoubleRatchet.Ratchet.TryExistingChain | src/ratchet.cpp:110-144 | succeeds just when the counter is at or past the index, at most 2000 ahead, and the key so many steps on opens the message |
| DoubleRatchet.Ratchet.TryNewChain | src/ratchet.cpp:147-182 | succeeds just when there is a sender chain, the counter is at most 2000, and the chain derived from it opens the message |
| DoubleRatchet.Ratchet.MovePast | src/ratchet.cpp:631-640 | the chain stands just past the message, the keys passed over are stored newest first, at most 40 |
| DoubleRatchet.Ratchet.Decrypt | src/ratchet.cpp:510-641 | state and plaintext are those of the specification; a failure changes nothing but the error |
| RatchetRules.MalformedRefused | src/ratchet.cpp:510-544 | the error of a message of another version, with fields missing, without room, or with a key of another length |
| RatchetRules.UnknownKeyOpensIff | src/ratchet.cpp:147-182 | from every valid state, a message with a key no receiver chain has opens if and only if there is a sender chain, its counter is at most 2000 and the derived chain fits; the error of each failure |
| RatchetRules.KnownKeyOpensIff | src/ratchet.cpp:546-611 | a message with a known key opens if and only if a stored key fits or, from the index on and at most 2000 ahead, the chain does; the error of each failure |
| RatchetRules.MovesPast | src/ratchet.cpp:631-641 | the chain stands one past the message, the keys passed over are in front of the stored ones, the last first, 40 in all, and nothing else has changed |
| RatchetRules.StartsChain | src/ratchet.cpp:613-641 | a new chain is in front of at most five, the root has moved on, and the sender chain is used up |
| RatchetRules.UsesStoredKey | src/ratchet.cpp:563-590 | a stored key that opened a message is gone, and nothing else has changed |
| RatchetParty.DeliveryOutcome | src/ratchet.cpp:546-611 | a message decrypts if and only if it is receivable: on a kept chain at most 2000 ahead, stored as skipped, or first of the next epoch |
| RatchetParty.ShelveKeeps | src/ratchet.cpp:631-636 | storing the keys passed over keeps the store valid, and stored and evicted together grow by exactly these counters |
| RatchetDelivery.DeliveryKeeps | src/ratchet.cpp:510-641 | a delivery keeps a party's invariant and adds to what was decrypted just the message, which was not there |
| RatchetProtocol.StartKeeps | src/ratchet.cpp:196-234 | the invariant holds of two ratchets set up from the same secret |
| RatchetProtocol.StepKeeps | src/ratchet.cpp:428-641 | every encryption and every delivery, failed ones too, keeps the invariant of both parties |
| RatchetProtocol.ReachableStates | src/ratchet.cpp:428-641 | in every reachable state the epochs differ by at most one, both roots are those of the history, and a party without sender chain has the peer's newest key in front |
| RatchetProtocol.DeliveredPlaintext | src/ratchet.cpp:510-641 | in every reachable state a delivery succeeds if and only if the message is receivable and there is room, and gives the plaintext sent |
| RatchetProtocol.NeverStuck | src/ratchet.cpp:110-182 | every message of the peer's current chain at most 2000 ahead decrypts, whatever has happened before; in sequential mode the next message of a kept chain does |
| RatchetRules.CanAlwaysSend | src/ratchet.cpp:423-488 | in every reachable state either party can encrypt with 32 random bytes, and the message is the newest of its epoch |
| RatchetRules.WhatIsSentIsRead | src/ratchet.cpp:428-641 | and the peer decrypts it, unless more than 2000 messages before it are missing |
| RatchetProtocol.NoReplay | src/ratchet.cpp:563-641 | a message that decrypted once never decrypts again, after any further run |
| RatchetProtocol.CountersAccounted | src/ratchet.cpp:613-641 | the counters below a kept chain's index are the disjoint union of decrypted, stored and evicted; stored ones are distinct, newest first, at most 40 |
| RatchetProtocol.EvictedOnlyWhenFull | src/ratchet.cpp:631-636 | a delivery evicts a key only if it leaves the store full |
| Accounts.RemovedKeeps | src/account.cpp:57-85 | removing a key keeps the account in order |
| Accounts.GeneratedKeys | src/account.cpp:283-299 | generated keys stand in front, newest first, and the list is cut at a hundred |
| Accounts.GeneratedAt | src/account.cpp:283-299 | key by key: id, mark and pair of every new key, and the old keys behind them |
| Accounts.GeneratedKeeps | src/account.cpp:283-299 | generation from fresh pairs keeps ids falling and public keys distinct |
| Accounts.WithFallbackKeeps | src/account.cpp:436-452 | a new fallback key keeps the account in order |
| Accounts.FallbacksRotate | src/account.cpp:436-452 | a new fallback key is found at once, the one before stays to be found, the one before that goes; the count stops at two |
| Accounts.PublishedKeeps | src/account.cpp:258-269 | publishing keeps the account in order, a second time changes nothing, and none is left unpublished |
| Accounts.PublishedFinds | src/account.cpp:258-269 | every key is found as before, one-time keys marked as published, prekeys untouched |
| Accounts.PublishedMarks | src/account.cpp:258-269 | all one-time keys and the current fallback key are marked, the previous one and all else is not touched |
| Accounts.UnpublishedCount | src/account.cpp:258-269 | the count returned is the number of keys that were not marked |
| Accounts.RemovedIsGone | src/account.cpp:57-85 | a removed key is not found again unless it is a fallback key |
| Accounts.RemovedLeavesOthers | src/account.cpp:57-85 | every other key is found as before |
| Accounts.RemovedId | src/account.cpp:57-85 | the id returned is that of the key that lookup finds, and nothing but the one-time keys changes |
| Accounts.RemovedRest | src/account.cpp:57-67 | the first one-time key of that name goes and the others stay in order |
| Accounts.FoundKey | src/account.cpp:32-55 | lookup finds the first one-time key, else the current fallback key if there is one, else the previous if there are two |
| Accounts.PrekeysRotate | src/account.cpp:305-326 | a new prekey leaves the current one to be found as the previous, and drops the one before |
| Accounts.AccountObject.Lookup | src/account.cpp:32-55 | the first matching one-time key, else the fallback keys that are in use |
| Accounts.AccountObject.LookupPrekeyIn | src/account.cpp:374-383 | the current prekey, else the previous one |
| Accounts.AccountObject.RemoveKey | src/account.cpp:57-85 | a one-time key is erased; a fallback key stays; the id is returned |
| Accounts.AccountObject.GenerateOneTimeKeys | src/account.cpp:283-299 | the account after generation, or unchanged when random bytes are short |
| Accounts.AccountObject.GeneratePrekey | src/account.cpp:305-326 | the current prekey becomes the previous one, the id is one up |
| Accounts.AccountObject.GenerateFallbackKey | src/account.cpp:436-452 | the current fallback key becomes the previous one, the id is one up |
| Accounts.AccountObject.MarkKeysAsPublished | src/account.cpp:258-269 | every one-time key and the current fallback key are marked; the count is of those that were not |
| Session.BodyRoundTrip | src/message.cpp:184-242 | decoding the bytes of a ratchet message gives the message |
| Session.BodyLength | src/message.cpp:169-181 | the bytes of a ratchet message are as long as was computed beforehand |
| Session.PrefixLength | src/session.cpp:113-115 | the bytes that are hashed are the first three or four of the first secret |
| Session.SecretsAgreeIff | src/session.cpp:84-115 | both sides derive the same secret if and only if the one-time key, if any, is not the prekey |
| Session.MatchesIff | src/session.cpp:264-294 | arbitrary bytes match if and only if the fields are good, the sender is the session's (in the message, expected, or both the same), and so are base and one-time key |
| Session.MatchesSame | src/session.cpp:264-294 | the sessions that match given bytes are just those with the same identity, base and one-time key; the prekey plays no part |
| Session.MatchesWritten | src/session.cpp:264-294 | a pre-key message that a session wrote matches if and only if identity, base and one-time key are the same and the expected identity is too |
| Session.PreKeyMessagesMatch | src/session.cpp:332-380 | as long as a session has received nothing, every message it sends matches every session with its keys |
| Session.InboundSucceeds | src/session.cpp:145-238 | setup from a pre-key message to keys the account holds succeeds and records the message's keys |
| SessionRules.OutboundIff | src/session.cpp:57-122 | outbound setup succeeds if and only if there are 64 random bytes and the signature is good; the keys recorded in each case, and the secret |
| SessionRules.InboundIff | src/session.cpp:145-238 | on arbitrary bytes inbound setup succeeds if and only if the fields are good, the sender is the expected one, the body has a ratchet key, and the account holds the keys; the error of each failure and what is recorded |
| SessionRules.FieldsMean | src/session.cpp:126-142 | the fields asked for, by tag, with 32 bytes for each key |
| Session.FirstMessage | src/session.cpp:57-238 | the first message's bytes set up a matching session; roots agree and the plaintext comes out if and only if the one-time key, if any, is not the prekey |
| Session.PrekeyAsOneTime | src/session.cpp:188-233 | the failing case: with a prekey and nothing else in the account, setup succeeds, the roots differ and the message does not decrypt |
| Session.SessionObject.NewOutboundSession | src/session.cpp:57-122 | the session after setup, after a bad signature, and when random bytes are short |
| Session.SessionObject.NewInboundSession | src/session.cpp:145-238 | the session after setup from arbitrary bytes, with the error of the first failing check |
| Session.SessionObject.MatchesInboundSession | src/session.cpp:264-294 | the answer is that of the specification on arbitrary bytes |
| Session.SessionObject.EncryptMessage | src/session.cpp:332-380 | session and bytes in the buffer are those of the specification, pre-key header included; refusals too |
| Session.SessionObject.DecryptMessage | src/session.cpp:415-451 | session and plaintext are those of the specification; the received flag is set on success only |
| SessionRules.DecryptSetsFlag | src/session.cpp:415-451 | a decryption that gives a plaintext leaves the received flag set; one that fails leaves flag, keys and ratchet as they were |
| SessionRules.DecryptsBody | src/session.cpp:415-451 | what is decrypted is the message field of a pre-key message, else the message; a missing field and the ratchet's errors are passed on |
| SessionRules.EncryptsIffRoom | src/session.cpp:332-380 | an encryption succeeds if and only if there is room, four keys of 32 bytes included before anything was received, and randomness; flag and keys stay |
| SessionRules.FlagIffReceived | src/session.cpp:332-451 | over every run the flag is set if and only if it was or some decryption gave a plaintext |
| SessionRules.EveryMessageWritten | src/session.cpp:332-380 | over every run of a fresh session: until a decryption gave a plaintext each message is a pre-key message with the session's keys, from then on the body alone, of the length computed beforehand |
| Message.SkipUnknownField | src/message.cpp:144-164 | a well-formed field of wire type 0 or 2 is skipped whole |
| Message.ParseFields | src/message.cpp:200-242 | parsing the bytes of any fields keeps the last value of every known one |
| Message.UnknownFieldIgnored | src/message.cpp:144-164 | an unknown field among the fields does not change what is kept |
| WireLayout.NumberKept | src/message.cpp:107-120 | a number is kept modulo 2^32, however long its varint |
| WireLayout.BrokenNumberKept | src/message.cpp:107-120 | a number that the input breaks off in is kept as far as it goes |
| WireLayout.LongStringDropped | src/message.cpp:123-164 | a string longer than what is left is not kept, and nothing is read after it |
| WireLayout.OtherTypesEnd | src/message.cpp:144-164 | nothing is read from a field of another wire type on |
| MessageCodec.VarintEncode | src/message.cpp:34-46 | the bytes are the varint of the number, and nothing else is written |
| MessageCodec.VarintDecode | src/message.cpp:48-63 | the value is that of the varint's bytes, reduced to the width of the result |
| MessageCodec.SkipUnknownAt | src/message.cpp:144-164 | on arbitrary bytes the position moves forward and stays within the input |
| MessageFormats.UnknownFieldInMessage | src/message.cpp:200-242 | a well-formed unknown field between fields does not change what a message reads as |
| MessageFormats.NormalRoundTrip | src/message.cpp:184-242 | reading a written message gives version, ratchet key, counter and ciphertext |
| MessageFormats.PreKeyRoundTrip | src/message.cpp:273-343 | reading a written pre-key message gives its five fields |
| MessageFormats.GroupRoundTrip | src/message.cpp:365-418 | reading a written group message gives version, index and ciphertext |
| WireLayout.NormalLayout | docs/olm.md:224-228 | version, then three fields under the documented tags |
| WireLayout.PreKeyLayout | src/message.cpp:273-290 | version, then five fields under their tags, in the order of the code |
| WireLayout.GroupLayout | docs/megolm.md:254-257 | version, then two fields under the documented tags |
| WireLayout.VarintBytes | docs/olm.md:219-222 | byte i holds the digit of weight 128^i in its low bits, and its high bit says whether more follow |
| MessageFormats.NormalLengthExact | src/message.cpp:169-181 | the length computed beforehand is the length written |
| MessageFormats.PreKeyLengthExact | src/message.cpp:256-270 | the length computed beforehand is the length written |
| MessageFormats.EncodeNormal | src/message.cpp:184-197 | once the caller has filled the gaps the buffer holds the message, and nothing around it has changed |
| MessageFormats.EncodePreKey | src/message.cpp:273-290 | once the caller has filled the five gaps the buffer holds the message |
| MessageFormats.EncodeGroup | src/message.cpp:365-378 | once the caller has filled the gap the buffer holds the message; the gap ends where it does |
| MessageFormats.DecodeNormal | src/message.cpp:200-242 | on arbitrary bytes the reader holds what the specification reads, every slice within the input |
| MessageFormats.DecodePreKey | src/message.cpp:293-343 | on arbitrary bytes the reader holds what the specification reads, every slice within the input |
| MessageFormats.DecodeGroup | src/message.cpp:380-418 | on arbitrary bytes the reader holds what the specification reads, every slice within the input |
| Recoding.SignedNibbles | lib/ed25519/src/ge.c:386-412 | the 64 digits lie in [-8, 8] and their radix-16 value is that of the bytes |
| SlidingWindow.Slide | lib/ed25519/src/ge.c:25-58 | for values below 2^253 the digits keep the value, and each is zero or odd of magnitude at most 15 |
| ScalarMult.Accumulate | lib/ed25519/src/ge.c:98-130 | the loop over two digit strings computes the combination of their values |
| ScalarMult.DoubleScalarMult | lib/ed25519/src/ge.c:67-130 | the result is a*A + b*B in any abelian group |
| ScalarMult.Select | lib/ed25519/src/ge.c:356-373 | the masked walk over the table gives b * 256^pos * B for b in [-8, 8] |
| ScalarMult.ScalarMultBase | lib/ed25519/src/ge.c:386-434 | the result is a*B for every a with a[31] at most 127 |
| Bitwise.XorSwaps | lib/curve25519-donna/curve25519-donna.c:709-722 | masked exclusive ors exchange two words or leave them |
| Bitwise.XorByteBits | src/crypto.cpp:40-48 | every bit of an exclusive or is the sum of two bits without a carry |
| Limbs.ProductValue | lib/curve25519-donna/curve25519-donna.c:99-180 | the schoolbook columns with doubled odd products have the product of the two values |
| Limbs.FoldedProduct | lib/ed25519/src/fe.c:526-557 | folding the upper columns with 19 keeps the product modulo 2^255 - 19 |
| Limbs.CanonicalUnique | lib/ed25519/src/fe.c:1363-1387 | two numbers in [0, p) that are congruent are equal |
| FieldMul.ColumnsFit | lib/ed25519/src/fe.c:526-557 | under the input bounds no column nor any partial sum of it overflows 64 bits, nor the prepared multiples 32 |
| FieldMul.CarryChain | lib/ed25519/src/fe.c:686-755 | the twelve carries meet the output bounds and keep the value modulo p |
| FieldMul.FeMul | lib/ed25519/src/fe.c:558-767 | the output meets its bounds and is congruent to the product, also when the arrays are the same |
| FieldMul.FeSq | lib/ed25519/src/fe.c:984-1129 | the output meets its bounds and is congruent to the square |
| FieldMul.FeSq2 | lib/ed25519/src/fe.c:1147-1302 | the output meets its bounds and is congruent to twice the square |
| FieldChains.FeInvert | lib/ed25519/src/fe.c:366-450 | the output is congruent to the power 2^255 - 21, which is p - 2 |
| FieldChains.FePow22523 | lib/ed25519/src/fe.c:883-966 | the output is congruent to the power 2^252 - 3 |
| FieldBytes.EstimateExact | lib/ed25519/src/fe.c:1363-1387 | the estimated quotient is the quotient of the value by p, rounded down |
| FieldBytes.FeToBytes | lib/ed25519/src/fe.c:1388-1493 | the 32 bytes are the least natural number congruent to the limbs |
| FieldBytes.FeFromBytes | lib/ed25519/src/fe.c:299-362 | the limbs meet their bounds and are congruent to the low 255 bits |
| FieldBytes.ReadThenWrite | lib/ed25519/src/fe.c:299-362 | writing what was read gives the low 255 bits reduced modulo p |
| DonnaField.ColumnsFit | lib/curve25519-donna/curve25519-donna.c:88-98 | no column nor any partial sum of it reaches 14 * 2^54 |
| DonnaField.FProduct | lib/curve25519-donna/curve25519-donna.c:99-203 | the columns are those of the product of inputs below 2^27 |
| DonnaField.FSquareInner | lib/curve25519-donna/curve25519-donna.c:345-400 | the columns are those of the square |
| DonnaField.FReduceDegree | lib/curve25519-donna/curve25519-donna.c:206-236 | the ten limbs are the columns folded with 19, within the bound the next step needs |
| DonnaField.FReduceCoefficients | lib/curve25519-donna/curve25519-donna.c:279-323 | every limb ends below 2^26 and the value is kept modulo p |
| DonnaField.FMul | lib/curve25519-donna/curve25519-donna.c:329-337 | the output is below 2^26 and congruent to the product, also over an input |
| DonnaField.FSquare | lib/curve25519-donna/curve25519-donna.c:411-421 | the output is below 2^26 and congruent to the square |
| DonnaLadder.LadderIsRfc | lib/curve25519-donna/curve25519-donna.c:737-767 | swapping around every bit gives what the deferred swaps of section 5 of RFC 7748 give |
| DonnaLadder.SwapConditional | lib/curve25519-donna/curve25519-donna.c:709-722 | the limbs are exchanged just when iswap is one |
| DonnaLadder.FMonty | lib/curve25519-donna/curve25519-donna.c:625-700 | the limbs hold one step of the formulas of RFC 7748, which StepOnCurve gives in coordinates, below 2^26 |
| DonnaLadder.StepOnCurve | lib/curve25519-donna/curve25519-donna.c:646-700 | the step in coordinates: doubling on v^2 = u^3 + 486662 u^2 + u, and addition of two points of known difference |
| DonnaLadder.CMult | lib/curve25519-donna/curve25519-donna.c:727-771 | after 256 steps the limbs hold the fraction of the plain integer ladder, below 2^26 |
| DonnaChain.CRecip | lib/curve25519-donna/curve25519-donna.c:777-841 | the output is congruent to the power 2^255 - 21 |
| DonnaBytes.MaskMeansP | lib/curve25519-donna/curve25519-donna.c:562-573 | limbs within their bits hold at least p just when the mask says so |
| DonnaBytes.FullyReduce | lib/curve25519-donna/curve25519-donna.c:472-551 | the borrow and carry passes bring every limb within its bits and keep the value modulo p |
| DonnaBytes.FContract | lib/curve25519-donna/curve25519-donna.c:472-612 | the 32 bytes are the least natural number congruent to the limbs |
| DonnaBytes.FExpand | lib/curve25519-donna/curve25519-donna.c:425-444 | the limbs hold the low 255 bits exactly |
| DonnaBytes.ExpandThenContract | lib/curve25519-donna/curve25519-donna.c:425-612 | writing what was read gives the low 255 bits reduced modulo p |
| Curve25519.ClampedScalar | lib/curve25519-donna/curve25519-donna.c:848-851 | the clamped secret is a multiple of eight in [2^254, 2^255) that agrees with the secret in between |
| Curve25519.Curve25519Donna | lib/curve25519-donna/curve25519-donna.c:844-860 | the bytes are the quotient modulo p of the 256-step ladder at the clamped secret and the low 255 bits of the base point |
| Rfc7748.AgreesWithRfc | lib/curve25519-donna/curve25519-donna.c:727-771 | for every clamped secret and every point, that quotient is the function X25519 of section 5 of RFC 7748, whose ladder has 255 steps |
| Rfc7748.LadderScales | lib/curve25519-donna/curve25519-donna.c:737-767 | a leading clear bit multiplies the coordinates of either point by a power of 4u |
| LadderMeaning.LadderIsMultiple | lib/curve25519-donna/curve25519-donna.c:727-771 | in any group whose x-coordinates add by these formulas, over any bits the two rungs are n times the base point and n + 1 times, n the number spelt |
| LadderMeaning.TopBitsSpell | lib/curve25519-donna/curve25519-donna.c:735-767 | the bits gone through spell the little-endian scalar |
| LadderMeaning.ResultIsMultiple | lib/curve25519-donna/curve25519-donna.c:844-860 | the function that curve25519_donna computes is the quotient modulo p of coordinates of the multiple by the scalar, zero for a zero denominator |
| Fermat.PowerIsOne | lib/curve25519-donna/curve25519-donna.c:777-841 | a prime divides a^(p - 1) - 1 unless it divides a, so that the power crecip raises to is an inverse |
| Base64.RoundTrip | src/base64.cpp:56-157 | decoding undoes encoding, for every byte string |
| Base64.EncodeUndoesDecodeIff | src/base64.cpp:106-157 | encoding undoes decoding, for every string the decoder takes, if and only if all characters are digits and no bits of the last one were dropped |
| Base64.StrayBit | src/base64.cpp:106-157 | an input: two digits whose last bit is dropped |
| Base64.ForeignCharacters | src/base64.cpp:106-157 | two inputs: characters outside the alphabet, and one with its top bit set, are decoded and not given back |
| Base64.LengthRoundTrip | src/base64.cpp:50-104 | the decoded length of an encoded length is the length |
| Base64.PromisedOverlaps | include/olm/base64.hh:34-62 | raw input at the buffer's tail and decoding in place are among the overlaps that EncodeBase64 and DecodeBase64 allow |
| Base64.EncodeBase64 | src/base64.cpp:56-92 | the output holds the encoding of what the input held before, nothing else changed, also when they overlap |
| Base64.DecodeBase64 | src/base64.cpp:106-157 | the output holds the decoding of what the input held before, also when they overlap |
| Base64Standard.Alphabet | src/base64.cpp:22-31 | digit by digit the alphabet of section 4 of RFC 4648 |
| Base64Standard.AnyCharacter | src/base64.cpp:33-45 | what decoding takes each of the 256 characters for |
| Base64Standard.GroupBits | src/base64.cpp:56-92 | three bytes are the bits of four characters, the most significant first |
| Base64.LengthsByGroup | src/base64.cpp:95-104 | the length decoded from any number of characters, and that one over whole groups is refused |
| Base64Standard.Lengths | src/base64.cpp:50-54 | a last group of one byte takes two characters, one of two takes three, without padding |
| Sha256.Context.Update | lib/crypto-algorithms/sha256.c:100-113 | the context that has absorbed m has absorbed m and the input, wherever a message is split |
| Sha256.Context.Final | lib/crypto-algorithms/sha256.c:115-159 | the digest is the fold of the block transform over the message padded as in section 5.1.1 of FIPS 180-4 |
| Sha256.OutputWords | lib/crypto-algorithms/sha256.c:147-158 | every word of the digest is stored most significant byte first |
| Sha256.LengthBytes | lib/crypto-algorithms/sha256.c:135-144 | so is the length in bits |
| Sha256.PaddedShape | lib/crypto-algorithms/sha256.c:121-145 | the message, the byte 0x80, as few zeros as there can be, and the length |
| Sha256.InitialWords | lib/crypto-algorithms/sha256.c:86-98 | the initial words are the fractions of the square roots of the first eight primes |
| Hkdf.HmacSha256 | src/crypto.cpp:241-255 | the result is HMAC as in section 2 of RFC 2104, long keys included |
| Hkdf.HmacFormula | src/crypto.cpp:51-99 | HMAC of a key of at most 64 bytes: two hashes, over the key xored with 0x36 and with 0x5C |
| Hkdf.HmacLongKey | src/crypto.cpp:51-65 | a longer key is replaced by its hash |
| Hkdf.HkdfSha256 | src/crypto.cpp:257-299 | the output is Expand of Extract as in sections 2.2 and 2.3 of RFC 5869, the last block cut |
| Hkdf.ExtractFormula | src/crypto.cpp:257-276 | the salt is the key of the extraction, 32 zeros when there is none |
| Hkdf.ExpandFormula | src/crypto.cpp:277-299 | block n is an HMAC over the block before it, the info and the byte n, from 1 |
| Hkdf.ExpandPrefix | src/crypto.cpp:277-296 | asking for fewer bytes gives a prefix of what asking for more gives |
| Cbc.CbcRoundTrip | src/crypto.cpp:173-226 | unchaining and unpadding undo padding and chaining, for every length |
| Cbc.PaddedShape | src/crypto.cpp:166-201 | 1 to 16 bytes of padding, each saying how many there are |
| Cbc.ChainedBlock | src/crypto.cpp:173-201 | block j is the encryption of block j xored with the ciphertext before it, or the initial vector |
| Cbc.UnchainedBlock | src/crypto.cpp:204-226 | for arbitrary ciphertexts, block j is the decryption of block j xored with the ciphertext before it |
| Cbc.EncryptCbc | src/crypto.cpp:173-201 | the output holds the chained padded input as it was before, also in place, and nothing else changed |
| Cbc.DecryptCbc | src/crypto.cpp:204-226 | the output holds the unchained input as it was before, also in place, and the length says what the padding says |
| Cbc.StaysInsideIff | src/crypto.cpp:214-225 | the decryption loop stays within n bytes if and only if n is a positive multiple of 16 |
| Aes.SubstitutionInverse | lib/crypto-algorithms/aes.c:47-85 | the inverse table undoes the table for all 256 bytes |
| Aes.ByteBack | lib/crypto-algorithms/aes.c:723-900 | the inverse column mix undoes the column mix, byte by byte |
| AesRounds.DecryptedEncrypted | lib/crypto-algorithms/aes.c:907-1047 | the inverse rounds under the keys in reverse undo the rounds, for 10, 12 and 14 rounds and all round keys |
| AesRounds.EncryptState | lib/crypto-algorithms/aes.c:907-978 | the state in the 4x4 array goes through the rounds of the specification |
| AesRounds.DecryptState | lib/crypto-algorithms/aes.c:980-1047 | the state in the 4x4 array goes through the inverse rounds |
| AesStandard.RoundFormula | lib/crypto-algorithms/aes.c:935-959 | a byte after a round, by section 5.1 of FIPS 197: substituted, moved, multiplied by 2, 3, 1, 1, and the key added |
| AesStandard.LastRoundFormula | lib/crypto-algorithms/aes.c:945-959 | the last round does not mix |
| AesStandard.FirstKeyFormula | lib/crypto-algorithms/aes.c:911-935 | the input and the first four words of the schedule |
| AesStandard.SubstitutionFormula | lib/crypto-algorithms/aes.c:47-65 | the table is the affine image of the multiplicative inverse, section 5.1.1 of FIPS 197 |
| AesStandard.ShiftFormula | lib/crypto-algorithms/aes.c:664-689 | row r moves left by r places |
| AesRounds.MixColumns | lib/crypto-algorithms/aes.c:723-803 | every column is multiplied by the matrix of section 5.1.3 of FIPS 197 |
| AesRounds.InvMixColumns | lib/crypto-algorithms/aes.c:813-900 | every column is multiplied by the inverse matrix |
| AesCbc.AesInverse | lib/crypto-algorithms/aes.c:907-1047 | decryption of bytes undoes encryption for every block and key schedule |
| AesCbc.AesEncrypt | lib/crypto-algorithms/aes.c:907-978 | the output array holds the block cipher's value at the input |
| AesCbc.AesDecrypt | lib/crypto-algorithms/aes.c:980-1047 | the output array holds the inverse cipher's value at the input |
| AesCbc.AesCbcRoundTrip | src/crypto.cpp:173-226 | CBC over AES recovers every message |
| CipherSuite.AesPrimitives | src/cipher.cpp:31-50 | AES under any key schedule meets what the cipher asks of its block cipher |
| CipherSuite.PlaintextOfCiphertext | src/cipher.cpp:64-143 | decrypting what was encrypted under the same derived keys gives the plaintext |
| CipherSuite.KeysAndMac | src/cipher.cpp:31-50 | AES key, MAC key and initial vector are 32, 32 and 16 bytes of HKDF without salt, in this order; the MAC is the first 8 bytes of an HMAC |
| CipherSuite.CiphertextBlocks | src/cipher.cpp:64-97 | block j of the ciphertext under the first key and the initial vector |
| CipherSuite.CipherEncrypt | src/cipher.cpp:64-97 | ciphertext at its place and the MAC over the whole output at its end, nothing else changed; short buffers refused |
| CipherSuite.CipherDecrypt | src/cipher.cpp:106-143 | the plaintext is written only if the MAC is right, else memory is untouched |
| Pickle.NumberRoundTrip | src/pickle.cpp:18-55 | reading a big-endian number gives it back, for 4 and 8 bytes and any width |
| Pickle.PickleNumber | src/pickle.cpp:18-45 | the bytes written are the big-endian ones, from the last back to the first |
| Pickle.UnpickleNumber | src/pickle.cpp:27-55 | the value of the bytes, or a null position when they are not all there |
| Pickle.ListLawful | include/olm/pickle.hh:111-146 | a list within its capacity is read back whole wherever it stands, and no byte more |
| Pickle.CountedLawful | src/account.cpp:655-785 | one or two optional keys are read back as their count says |
| Pickle.LongListKeepsEnds | include/olm/pickle.hh:124-146 | a list over its capacity is read as its first items and its last one |
| Pickle.UnpickleList | include/olm/pickle.hh:124-146 | the loop reads what the specification reads, on arbitrary bytes |
| PickleEncoding.OpenedClosed | src/pickle_encoding.c:44-92 | opening what was closed under the same key gives the raw bytes |
| PickleEncoding.ClosedLayout | src/pickle_encoding.c:44-65 | the ciphertext, then 8 bytes of HMAC over it, under keys derived for Pickle |
| PickleEncoding.OpensIff | src/pickle_encoding.c:67-92 | arbitrary whole blocks and 8 more bytes open if and only if these are the MAC and the padding is there |
| PickleEncoding.GoodMacAnyLength | src/pickle_encoding.c:67-92 | a good MAC can stand behind any bytes, and only whole blocks keep decryption inside them |
| PickleEncoding.EncOutput | src/pickle_encoding.c:44-65 | raw bytes at the buffer's tail become the base64 of ciphertext and MAC, in one buffer, in the length announced |
| PickleEncoding.EncInput | src/pickle_encoding.c:67-92 | base64, MAC and CBC are undone in one buffer, or the error of the failing step is returned |
| PickleEncoding.PickleRoundTrip | src/pickle_encoding.c:44-92 | what was closed and encoded is decoded and opened to the raw bytes |
| PickleFormats.SessionRoundTrip | src/session.cpp:525-585 | a session is read back with every field, all bytes are consumed, and a byte more is noticed |
| PickleFormats.LoggingSessionRead | src/session.cpp:555-585 | a pickle of version 0x80000001 reads the same, with any number in place of its chain index |
| PickleFormats.SessionPickle | src/session.cpp:525-585 | the same through encryption, MAC and base64 |
| PickleFormats.SessionLength | src/session.cpp:525-537 | the announced length of a session is exact |
| PickleFormats.AccountRoundTrip | src/account.cpp:655-785 | an account is read back with every key its counts mark present, and a byte more is noticed |
| PickleFormats.AccountPickle | src/account.cpp:655-785 | the same through encryption, MAC and base64 |
| PickleFormats.AccountLength | src/account.cpp:655-680 | the announced length of an account is exact |
| PickleFormats.InboundRoundTrip | src/inbound_group_session.c:190-286 | an inbound group session is read back with both ratchets, key and flag |
| PickleFormats.OutboundRoundTrip | src/outbound_group_session.c:77-168 | an outbound group session is read back with ratchet and key pair |
| PickleFormats.GroupLength | src/inbound_group_session.c:190-200 | the announced lengths of the group sessions are exact |
| PickleLayout.SessionLayout | src/session.cpp:540-552 | field by field, the bytes of a session of version 1 |
| PickleLayout.RatchetLayout | src/ratchet.cpp:375-384 | field by field, the bytes of a ratchet |
| PickleLayout.AccountLayout | src/account.cpp:683-708 | field by field, the bytes of an account of version 10005 |
| PickleLayout.InboundLayout | src/inbound_group_session.c:203-229 | field by field, the bytes of an inbound group session of version 2 |
| PickleLayout.OutboundLayout | src/outbound_group_session.c:90-115 | field by field, the bytes of an outbound group session |
| PickleLayout.SessionVersions | src/session.cpp:555-575 | any other version of a session is refused as unknown |
| PickleLayout.AccountVersions | src/account.cpp:711-745 | which versions of an account are read, of an older layout, refused for their keys, or unknown |
| PickleLayout.GroupVersions | src/inbound_group_session.c:250-256 | any other version of a group session is refused as unknown |
| PickleLayout.FirstInbound | src/inbound_group_session.c:267-274 | version 1 of an inbound group session has no flag, and is taken to be verified |
| PickleCuts.ListCut | include/olm/pickle.hh:124-146 | a list that is cut short is read as the items before the cut if it falls between items, and refused otherwise |
| PickleCuts.CutSession | src/session.cpp:555-585 | a session of version 1 cut to k bytes is accepted if and only if k is where a skipped key begins, and then lacks the keys from there on; every other cut is corrupted |
| PickleCuts.LostSkippedKey | src/ratchet.cpp:387-403 | an input: a session one message ahead of its first; the last 68 bytes of its pickle, its skipped key, go missing unnoticed |
| PickleCuts.CutLogging | src/session.cpp:555-585 | a session of version 0x80000001 is refused at every cut |
| PickleCuts.CutAccount | src/account.cpp:711-785 | an account is refused at every cut |
| PickleCuts.CutGroup | src/inbound_group_session.c:231-286 | group sessions of either side are refused at every cut |

## Left out

- Session.SessionObject.NewInboundSession: requires identity key and prekey to be present with 32 bytes once the checked
  fields are good, because the code copies both without a look (src/session.cpp:168-171).
- CipherSuite.CipherDecrypt: excludes input with a right MAC over a ciphertext that is not of whole blocks,
  on which the code leaves its buffers; see Findings.
- Cbc.DecryptCbc: takes whole blocks only, for the same reason.
- PickleEncoding.EncInput: the same exclusion.
- GroupMessages.DecryptRaw: the same exclusion.
- GroupMessages.GroupDecrypt: the same exclusion, and the plaintext buffer lies apart from the message.
- RatchetProtocol.StepKeeps: a run uses a fresh private key for every new chain and sends fewer than 2^32
  messages on each; message forgery is outside the term algebra.
- GroupSession.EveryMessageDecrypts: keeps ciphertext and signer abstract; GroupMessages has the bytes.
- GroupSession.Inbound.Decrypt: the same; GroupMessages.DecryptRaw has the bytes.
- GroupSession.Outbound.Encrypt: the same; GroupMessages.EncryptAt has the bytes.
- Accounts.AccountObject.GeneratePrekey: the signature made over the new prekey is not part of the account here.
- Accounts.GeneratedKeeps: key ids stay below 2^32; they wrap around in the code and in Generated.
- Session.FirstMessage: the pre-key message is opened under an account that holds the keys used; the cipher
  stays a table of what was sealed, as in the ratchet.
- Session.SessionObject.EncryptMessage: plaintexts are more than 4096 bytes short of 2^64, and bytes that a
  refused encryption had already written to the buffer are not described.
- Sha256.Context.Update: pieces are shorter than 2^32 bytes, the width of the code's own length arguments.
- Sha256.Context.Final: the 64 rounds of the block transform are a parameter.
- AesCbc.AesEncrypt: the key schedule is a parameter; the results hold for every schedule.
- AesRounds.MixColumns: the multiplication table gf_mul is modelled as the multiplication it tabulates.
- ScalarMult.DoubleScalarMult: the group operations stand for the curve's field formulas, which are not
  shown to form a group; the precomputed tables are assumed to hold the multiples they are named for.
- Rfc7748.AgreesWithRfc: takes as a hypothesis that 2^255 - 19 is prime; Fermat's little theorem is proved
  from it, the primality itself is not.
- LadderMeaning.LadderIsMultiple: takes as a hypothesis that coordinates on the curve add by the formulas of the
  step; the group law of the curve is not part of this model.
- Megolm.Ratchet.AdvanceTo: HMAC is any function; that ratchet values do not repeat is not claimed.
- Session ids, JSON output, descriptions, error strings, publish times, clearing of memory, constant-time
  behaviour and the quality of randomness.
- The short-authentication-string and public-key-encryption objects, which are thin calls over the
  primitives.
- Account pickles of versions 2 to 4, whose version is told apart but whose layout is not read.
- Ed25519 signing and verification beyond the scalar multiplications: sc.c, SHA-512 and the precomputed
  tables are not part of this model.
- AES in counter modes, the 64-bit build of curve25519-donna, and the ciphers that libolm does not call.
