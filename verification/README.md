# A verified model of the Mesui core

Mesui is a serverless chat application: phones find each other over Bluetooth and iroh, carry each
other's messages, and agree on time without a server. This project models the parts of it whose
promises are about whole runs, and proves those promises for all runs and all inputs.

| file | what it models |
|---|---|
| `Cluster.dfy`, `Clock.dfy`, `ClockRuns.dfy`, `ClockSources.dfy` | the calibrated internal clock: four-timestamp peer exchange (section 8 of RFC 5905), clustering and median, two-source network time, high-water mark, and every field as a function of the calls made |
| `Payloads.dfy` | the byte strings that are signed, hashed or MACed |
| `Relay.dfy`, `RelayRuns.dfy` | the relay's bounded replay cache |
| `KeyRing.dfy`, `KeyRingRuns.dfy` | the ring of rotating node keys against an unbounded ledger |
| `Mailbox.dfy`, `ClockedMailbox.dfy` | the mailbox gate and its replay ledger, alone and driven by the internal clock |
| `Base64.dfy`, `Texts.dfy`, `Snapshot.dfy` | base64url (section 5 of RFC 4648) and the `dc://node` snapshot |
| `Governor.dfy`, `GovernorRuns.dfy` | the token-bucket governor |
| `Frames.dfy` | Bluetooth frame reassembly |
| `AddFriend.dfy`, `QrFrames.dfy`, `Collector.dfy` | the add-friend link, its animated QR frames and their collector |
| `Bloom.dfy` | friend matching by Bloom filter |
| `Common.dfy` | shared types and the saturating arithmetic of Rust |

What the source updates in place is a class here; each of its methods is proved against a function
or relation on values, and the theorems about runs are proved about those. Hash-map iteration order
and ties in `min_by_key` are arbitrary choices. Signatures, MACs, hashes, HKDF, URL parsing and the
JVM's Base64 and UTF-8 are function parameters; where a theorem needs something of them (no collision
on two given inputs, a decoder that inverts the encoder) it is a `requires` of that theorem. Times are
integers with 64-bit ranges; `LocalMs`, `RelayMs` and `MailMs` are the readings for which the source's
unchecked additions do not overflow. Bitwise operations of the codec are written as arithmetic: a shift
left is a multiplication modulo 2^32 and an "or" of disjoint bits a sum.

## Where the code and its documentation differ

The model follows the code.

- `docs/SECURITY-PROTOCOL.md:158` says the internal clock never decreases. The mark is reset whenever
  the offset changes (`clock.rs:268-271`). `NowCanDecrease` is a run on which it falls; `DecreasesIff`
  says exactly when it does for arbitrary local readings, `FallsIff` when the local clock only rises.
- `clock.rs:25-27` concludes that replay is never possible because the network drifts slowly. The drift
  bound is `DriftRate`, but the offset can also drop at once: when network time goes stale, and, with no
  wait at all, when two readings disagree (`clock.rs:156-159`) or an agreeing pair is refused
  (`clock.rs:148-151`). `ResetReplays` is a run with rising local time on which a mailbox accepts a write
  twice; `ClockReplaysIff` says exactly when one does, and `SmallShiftsAtMostOnce` gives a condition on the
  offsets alone under which none does.
- `relay.rs:9` says an identical ticket is taken only once. The fifth ticket of an origin evicts one of that
  origin's own entries, as `relay.rs:168` announces, and the evicted ticket is taken again:
  `FifthTicketReplays`. `AtMostOnce` holds up to four, and `ReplayedIff` in `RelayRuns.dfy` is exact.
- A ticket verifies up to and including expiry + 2 min, but its entry is kept only strictly before that
  instant (`relay.rs:107` and `relay.rs:165`), so there it can be taken twice: `BoundaryReplays`.
- `mailbox.rs:142-143` says no replay inside the window escapes. `ThirdCallReplays` is a run on which one
  does, `ReplayedIff` in `Mailbox.dfy` says exactly when, and `AtMostOnce` excludes it for clocks that never
  go back by 4 min or more.
- `governor.rs:19` and `governor.rs:75-79` say the share falls along a curve without a cliff as the load goes
  from 0.6 to 1. `load_share` runs along the curve the other way round (`governor.rs:108-109`): just above
  0.6 the share drops to the floor (`LoadCliff`), then rises with the load, and falls again at 1.
  `LoadLowersShareIff` is exact; for the battery the promise holds (`BatteryCurveIsGentle`).
- `BleChannel.kt:66-70` drops the buffer at an oversized header, so what follows it depends on the chunking:
  `OversizedHeaderBreaksIndependence` and, exactly, `ChunkingIndependentIff`.

## Model

| member | source | states |
|---|---|---|
| `Cluster.SortUnstable` | crates/core/src/clock.rs:230-230 | sorting yields the one sorted arrangement of the multiset of offsets, whatever order they came in |
| `Cluster.LongestRun` | crates/core/src/clock.rs:231-245 | the scan over neighbouring pairs ends on the segment `PeakBounds` names |
| `Cluster.PeakBoundsArePeak` | crates/core/src/clock.rs:231-245 | that segment is the first among the longest segments whose neighbouring gaps are at most 60 s |
| `Cluster.PeakCharacterised` | crates/core/src/clock.rs:219-251 | a cluster is such a longest segment with at least 3 members; there is none exactly when every such segment has fewer than 3 |
| `Cluster.PeakCluster` | crates/core/src/clock.rs:219-251 | the method returns the cluster of the multiset of offsets: map iteration order does not matter |
| `Cluster.ConsensusIsASample` | crates/core/src/clock.rs:200-215 | the median offset is one of the samples |
| `Cluster.MedianIff` | crates/core/src/clock.rs:210-212 | the member returned is the one with fewer than half of the cluster above it and at most half below it: of two middle elements the upper |
| `Cluster.ConsensusIff` | crates/core/src/clock.rs:200-251 | an offset is the consensus exactly when it is that middle of the first longest segment with gaps of at most 60 s, and that segment has 3 members |
| `Cluster.MajorityInterval` | crates/core/src/clock.rs:200-251 | a strict majority of at least 3 inside any interval of width at most 60 s forces the consensus into that interval, whatever the other samples are |
| `Clock.InternalClock.constructor` | crates/core/src/clock.rs:69-90 | the initial state |
| `Clock.InternalClock.RestoreHighWater` | crates/core/src/clock.rs:94-99 | a persisted mark is capped at a plausible date and never lowers the current one |
| `Clock.InternalClock.TrustPeer` | crates/core/src/clock.rs:106-108 | only the trust set changes |
| `Clock.InternalClock.DistrustPeer` | crates/core/src/clock.rs:111-114 | trust and sample of the peer go together |
| `Clock.InternalClock.OnNetworkSync` | crates/core/src/clock.rs:134-166 | the first reading is held back; a second source adopts, or clears network time, as `NetworkSync` says |
| `Clock.InternalClock.OnPeerExchange` | crates/core/src/clock.rs:170-197 | untrusted, malformed and slow exchanges are refused and change nothing; others record the clamped four-timestamp offset with saturating arithmetic |
| `Clock.InternalClock.CollectFresh` | crates/core/src/clock.rs:220-226 | exactly the samples of the last 30 min are collected, with multiplicity |
| `Clock.InternalClock.PeerCluster` | crates/core/src/clock.rs:219-251 | the cluster of the fresh samples |
| `Clock.InternalClock.SourceAt` | crates/core/src/clock.rs:120-128 | which source is in force |
| `Clock.InternalClock.EffectiveOffsetAt` | crates/core/src/clock.rs:200-215 | fresh network time first, then the median of the cluster, then zero |
| `Clock.InternalClock.Now` | crates/core/src/clock.rs:257-280 | the whole new state, and that the value returned is always the high-water mark |
| `ClockRuns.RunsStayReachable` | crates/core/src/clock.rs:134-215 | after every run all offsets are within 24 h, only trusted peers have samples, and the mark fits in 64 signed bits |
| `ClockRuns.RttIsTrueIff` | crates/core/src/clock.rs:182-189 | for honest path delays the guard measures the true delay exactly when `t4 - t1` does not saturate or there is no delay |
| `ClockRuns.HonestSample` | crates/core/src/clock.rs:170-197 | an accepted honest exchange is off by at most 2500 ms, for every true offset within 24 h |
| `ClockRuns.SymmetricIsExact` | crates/core/src/clock.rs:190-194 | with equal path delays the offset is exact, otherwise off by half their difference, rounded toward zero |
| `ClockRuns.SaturatedExchangeIsNotAccurate` | crates/core/src/clock.rs:182-197 | the saturation condition is needed: an input where an accepted exchange is off by 500 s |
| `ClockRuns.AccurateIff` | crates/core/src/clock.rs:170-197 | for given t1 and t4, every accepted reply of an honest peer within 24 h is off by at most 2500 ms if and only if `t4 - t1` fits in 64 bits |
| `ClockRuns.MajorityPinsOffset` | crates/core/src/clock.rs:200-251 | the interval result for the fresh samples of a clock state |
| `ClockRuns.HonestMajorityIsAccurate` | crates/core/src/clock.rs:170-251 | end to end over every run: with network time stale, 3 and a strict majority of fresh samples from honest peers give an offset within 2500 ms of the truth |
| `ClockRuns.AdoptionIsNearBoth` | crates/core/src/clock.rs:138-145 | an adopted offset is within 2.5 s of both readings it came from |
| `ClockRuns.AdoptionsAreSpaced` | crates/core/src/clock.rs:146-160 | over every run adoptions are at least 10 min apart in local time, pairwise, even if the local clock is set back |
| `ClockRuns.DriftPerAdoption` | crates/core/src/clock.rs:134-166 | without a peer quorum the k-th adoption is at most 2k minutes from zero, and so are the network offset and the offset last used |
| `ClockRuns.EffectiveDrift` | crates/core/src/clock.rs:200-215 | so is the offset in force at any later time |
| `ClockRuns.DriftRate` | crates/core/src/clock.rs:22-27 | hence at most 2 min + (t_k - t_1)/5 |
| `ClockRuns.OneSourceNeverAdopts` | crates/core/src/clock.rs:130-166 | readings of one source id alone never cause an adoption |
| `ClockRuns.NowIsMonotone` | crates/core/src/clock.rs:257-280 | while the offset in force is unchanged the output never decreases, for arbitrary local readings and other events in between |
| `ClockRuns.HighWaterIsTopMark` | crates/core/src/clock.rs:257-280 | after every run, for arbitrary local readings, the mark is the largest of the shifted readings and restored marks since the offset last changed |
| `ClockRuns.DecreasesIff` | crates/core/src/clock.rs:253-280 | exactly when a later output is lower, for arbitrary local readings: the offset changed in between and since that change everything read or restored was below the earlier output |
| `ClockRuns.NowTracksOffset` | crates/core/src/clock.rs:257-280 | with rising local time and no restored mark, `now` is exactly the shifted reading |
| `ClockRuns.FallsIff` | crates/core/src/clock.rs:257-280 | it then falls exactly when the offset falls by more than the local clock moved on, the ends of the 64-bit range aside |
| `ClockRuns.NowCanDecrease` | crates/core/src/clock.rs:253-280 | a run with rising local time on which the output falls |
| `ClockSources.TrustIsHistory` | crates/core/src/clock.rs:105-118 | after every run a peer is trusted exactly when it was trusted and not distrusted since |
| `ClockSources.SamplesAreHistory` | crates/core/src/clock.rs:170-197 | after every run a peer has a sample exactly when an exchange of it was taken and it was not distrusted since, and that sample is the offset of the last one, stamped with its t4 |
| `ClockSources.FreshIff` | crates/core/src/clock.rs:220-226 | a peer counts at a local time exactly when the t4 of its last exchange taken is at most 30 min before it |
| `ClockSources.HonestIsTaken` | crates/core/src/clock.rs:170-197 | an honest exchange whose wait fits in 64 bits is taken exactly when the peer is trusted and the path delay is at most 5 s, and counts exactly until t4 + 30 min; a refused one changes nothing |
| `ClockSources.NetworkIsHistory` | crates/core/src/clock.rs:130-166 | after every run the held-back reading, the network offset, its freshness, the last adoption and the offset last used are what the readings and the limits of 5 s, 2 min and 10 min determine |
| `ClockSources.NetworkTimeIff` | crates/core/src/clock.rs:141-160 | network time is set exactly when the last pair of two sources was adopted, and to its mean; any other completed pair, disagreeing, too far or too soon, leaves none |
| `ClockSources.OffsetInForce` | crates/core/src/clock.rs:200-215 | network time adopted at most 6 h ago overrides every peer; otherwise the offset is the middle of the first longest cluster of fresh samples, and zero without one |
| `ClockSources.RollbackIsHistory` | crates/core/src/clock.rs:257-266 | the rollback flag is up exactly when some reading was over a minute below the highest and none since was higher |
| `ClockedMailbox.SteadyClockAtMostOnce` | crates/core/src/mailbox.rs:189-200 | a gate timed by the internal clock accepts no write twice while the offset is steady, however the local clock is turned |
| `ClockedMailbox.SmallShiftsAtMostOnce` | crates/core/src/mailbox.rs:189-200 | with rising local time, offset changes that never outrun the local clock downwards by 4 min or more do not reopen the replay window |
| `ClockedMailbox.ClockReplaysIff` | crates/core/src/clock.rs:25-27 | with rising local time, an accepted write that passes again is accepted again exactly when there is room and some passing call in between had a shifted reading of its stamp + 9 min or more |
| `ClockedMailbox.ResetReplays` | crates/core/src/clock.rs:138-166 | a run with rising local time, three adoptions and then two disagreeing readings, on which a gate timed by the clock accepts one sealed write twice, for every MAC, secret and pair of envelopes |
| `Payloads.TicketPayloadIsInjective` | crates/core/src/relay.rs:59-69 | the signed string of a ticket fixes every field but the signature |
| `Payloads.TicketLayout` | crates/core/src/relay.rs:59-69 | every field of a signed ticket stands at its place |
| `Payloads.FingerprintInputIsInjective` | crates/core/src/identity.rs:56-67 | different part lists are hashed as different strings |
| `Payloads.FingerprintIdentifiesTicket` | crates/core/src/relay.rs:114-119 | unless the hash collides on the two, equal fingerprints mean the same ticket up to its signature |
| `Payloads.AnnouncementPayloadIsInjective` | crates/core/src/nodekey.rs:51-60 | the signed string of an announcement fixes every field but the signature |
| `Payloads.AnnouncementLayout` | crates/core/src/nodekey.rs:51-60 | every field of a signed announcement stands at its place |
| `Payloads.MacInputIsInjective` | crates/core/src/mailbox.rs:80-108 | the authenticated string fixes every field of a write but the MAC, across both option flags and all body lengths |
| `Payloads.WriteLayout` | crates/core/src/mailbox.rs:80-108 | prefix, serial, nonce and stamp of a MACed write stand at their places, then the envelope |
| `Payloads.EnvelopeLayout` | crates/core/src/mailbox.rs:80-108 | ids, optional fields behind a presence byte, kind code, sending time, hops and body of the envelope stand at their places |
| `Payloads.KindsAreApart` | crates/core/src/relay.rs:59-69 | no signed ticket, signed announcement, MACed write or fingerprint input equals one of another kind |
| `Payloads.DeriveMaterialIsInjective` | crates/core/src/mailbox.rs:29-39 | key-derivation material fixes secret, bucket and serial, for secrets of any length |
| `Relay.Verifies` | crates/core/src/relay.rs:81-111 | an accepted ticket's expiry leaves room for the skew in 64 bits, so no later comparison overflows |
| `Relay.RelayGuard.constructor` | crates/core/src/relay.rs:136-142 | an empty cache with capacity at least 1 |
| `Relay.RelayGuard.EvictOldest` | crates/core/src/relay.rs:168-180 | with at most 4 slots the loop evicts nothing below 4 and exactly one oldest slot of that origin at 4 |
| `Relay.RelayGuard.DropDead` | crates/core/src/relay.rs:181-196 | the capacity loop ends, drops no entry of the current challenge and reports exactly whether the cache is still full |
| `Relay.RelayGuard.Prune` | crates/core/src/relay.rs:164-167 | the two passes keep exactly the unexpired entries of the current challenge |
| `Relay.RelayGuard.Accept` | crates/core/src/relay.rs:151-200 | each call is one that `Accepts` allows: a refused ticket costs no live entry, an accepted one at most one, an oldest of its own origin |
| `Relay.AcceptsKeepsBounds` | crates/core/src/relay.rs:133-200 | every call keeps the size within the capacity and each origin within 4 slots |
| `RelayRuns.BoundsHoldThroughout` | crates/core/src/relay.rs:133-200 | so do all states of all runs, even when time or challenges go back |
| `RelayRuns.VerifiesIff` | crates/core/src/relay.rs:81-111 | a ticket verifies exactly when it is signed by its origin over all its fields, has a 64-byte signature and a nonzero nonce, carries the challenge, lives at most 2 h, and is within 2 min of its times |
| `RelayRuns.AcceptedIff` | crates/core/src/relay.rs:151-200 | on every run a ticket is accepted exactly when all of that holds, it is not cached, and its origin has four live slots or the cache has room |
| `RelayRuns.RunExists` | crates/core/src/relay.rs:151-200 | every sequence of calls has a run |
| `RelayRuns.EntriesAreGenuine` | crates/core/src/relay.rs:197-199 | every cached entry is what an earlier, verified and accepted call wrote |
| `RelayRuns.EntrySurvives` | crates/core/src/relay.rs:151-200 | the entry of an accepted ticket stays, with its expiry, whatever other origins present |
| `RelayRuns.AtMostOnce` | crates/core/src/relay.rs:151-200 | no ticket is accepted twice strictly before expiry + 2 min: rising time, no reused challenge, at most 4 distinct valid tickets of its origin under the challenge |
| `RelayRuns.EntryFate` | crates/core/src/relay.rs:151-200 | on every run, ties included: an accepted entry is gone if a pruning call had to remove it, and only if one was allowed to |
| `RelayRuns.GoneIff` | crates/core/src/relay.rs:164-180 | with distinct expiries an accepted entry is gone exactly when some verifying, uncached call came at its expiry + 2 min or later, or with another challenge, or found four live slots of its origin, all others expiring later |
| `RelayRuns.ReplayedIff` | crates/core/src/relay.rs:151-200 | hence exactly when an accepted ticket that verifies again is accepted again |
| `RelayRuns.BoundaryReplays` | crates/core/src/relay.rs:106-109 | a run from the empty cache: at expiry + 2 min any other ticket lets the first in again |
| `RelayRuns.FifthTicketReplays` | crates/core/src/relay.rs:168-180 | a run from the empty cache at one instant: after five unexpired tickets of an origin the first to expire is accepted again |
| `KeyRing.NodeKeyRing.constructor` | crates/core/src/nodekey.rs:101-103 | an empty ring |
| `KeyRing.NodeKeyRing.Trim` | crates/core/src/nodekey.rs:122-135 | the capacity loop keeps exactly the 32 highest serials |
| `KeyRing.NodeKeyRing.Place` | crates/core/src/nodekey.rs:118-135 | the slot after replacing, pruning and trimming |
| `KeyRing.NodeKeyRing.Upsert` | crates/core/src/nodekey.rs:108-137 | the whole new ring; slots stay strictly increasing, at most 32 long and verified |
| `KeyRing.NodeKeyRing.Current` | crates/core/src/nodekey.rs:140-147 | the node key of the valid announcement with the highest serial; none exactly when none is valid |
| `KeyRing.NodeKeyRing.Accepts` | crates/core/src/nodekey.rs:164-172 | yes exactly when a valid announcement in the ring carries the key |
| `KeyRing.NodeKeyRing.Export` | crates/core/src/nodekey.rs:151-153 | every slot once, identities in an arbitrary order |
| `KeyRing.NodeKeyRing.Restore` | crates/core/src/nodekey.rs:156-161 | upserts in order up to the first failure |
| `KeyRing.SlotUpsertKeepsOk` | crates/core/src/nodekey.rs:108-137 | an accepted announcement keeps a slot strictly increasing, within 32 and verified |
| `KeyRingRuns.RunsAgreeOnTop` | crates/core/src/nodekey.rs:108-137 | over every run, for arbitrary clocks, ring entries are ledger entries and the highest serials coincide |
| `KeyRingRuns.RunsDecideAlike` | crates/core/src/nodekey.rs:113-117 | ring and unbounded ledger accept or discard exactly the same announcements |
| `KeyRingRuns.RunsLoseNothing` | crates/core/src/nodekey.rs:118-135 | under rising time whatever the ring dropped has expired, or is below all its entries after more than 32 serials |
| `KeyRingRuns.CurrentAgrees` | crates/core/src/nodekey.rs:139-147 | whenever `current` answers under rising time it gives the ledger's answer |
| `KeyRingRuns.AcceptsIsSound` | crates/core/src/nodekey.rs:163-172 | a yes of the ring for identity, key and time is a yes of the ledger, for arbitrary clock readings |
| `KeyRingRuns.AcceptsAsLedger` | crates/core/src/nodekey.rs:108-172 | up to 32 serials, under rising time, the ring says yes exactly when the ledger does |
| `KeyRingRuns.UpsertSucceedsIff` | crates/core/src/nodekey.rs:71-112 | an upsert succeeds exactly for an unexpired announcement signed by its identity, valid for at most 30 days, with a positive serial; otherwise the ring is unchanged; other identities never are affected |
| `KeyRingRuns.RingIsSigned` | crates/core/src/nodekey.rs:105-137 | after every run everything in the ring of an identity was brought by a call, signed by that identity and unexpired then |
| `KeyRingRuns.AcceptedKeyIsSigned` | crates/core/src/nodekey.rs:163-172 | a key is accepted only if such an announcement names it, from its notBefore until just before its notAfter |
| `KeyRingRuns.NewestAnswers` | crates/core/src/nodekey.rs:105-147 | conversely an announcement in order with no lower serial than those before it is at once what `current` and `accepts` answer, for its whole validity, with nothing expired beside it |
| `KeyRingRuns.UpsertIsExact` | crates/core/src/nodekey.rs:113-137 | a slot becomes the new announcement in place of any with its serial and the unexpired rest, of these the 32 highest |
| `KeyRingRuns.ExactUpToCapacity` | crates/core/src/nodekey.rs:108-172 | up to 32 serials every key valid in the ledger is in the ring |
| `KeyRingRuns.TopSerialRises` | crates/core/src/nodekey.rs:105-137 | the highest serial of an identity never decreases |
| `KeyRingRuns.TopConverges` | crates/core/src/nodekey.rs:105-147 | the final top announcement is the same for every arrival order and duplication of the same unexpired announcements |
| `KeyRingRuns.RestoreSucceedsIff` | crates/core/src/nodekey.rs:155-161 | restoring succeeds exactly when every stored announcement verifies and is unexpired |
| `KeyRingRuns.RestoreRebuilds` | crates/core/src/nodekey.rs:149-161 | restoring an export with nothing expired rebuilds the identical ring, for every identity order |
| `Mailbox.SealedVerifies` | crates/core/src/mailbox.rs:65-75 | a sealed write verifies exactly within 5 min of its stamp |
| `Mailbox.PassesIff` | crates/core/src/mailbox.rs:110-135 | a write passes exactly when its MAC is that of its own fields under the secret and its stamp is at most 5 min off |
| `Mailbox.MacBindsEverything` | crates/core/src/mailbox.rs:110-135 | two verifying writes with one MAC are equal, unless the MAC collides on them |
| `Mailbox.NonceCache.constructor` | crates/core/src/mailbox.rs:154-159 | an empty ledger with hard cap at least 4096 |
| `Mailbox.NonceCache.CheckAndInsert` | crates/core/src/mailbox.rs:162-174 | the new ledger and answer for any stamp; the size stays within the cap; the next call cannot overflow exactly if nothing was recorded or the stamp + 9 min fits in 64 bits |
| `Mailbox.VerifyInbound` | crates/core/src/mailbox.rs:189-200 | MAC and window before the ledger; a failing write leaves the ledger alone; no stored expiry ever overflows |
| `Mailbox.SizeIsCapped` | crates/core/src/mailbox.rs:162-174 | over every run the ledger never exceeds the hard cap |
| `Mailbox.LedgerIsHistory` | crates/core/src/mailbox.rs:138-174 | over every run, for arbitrary readings, the ledger is exactly the accepted writes with no later passing reading at or past their stamp + 9 min, with their expiries |
| `Mailbox.AnswersFromHistory` | crates/core/src/mailbox.rs:161-174 | a write is accepted exactly when it verifies, no held write has its id and fewer than the cap are held |
| `Mailbox.AnswersAsFullHistory` | crates/core/src/mailbox.rs:161-174 | under rising time that is: no accepted write with its id is less than 9 min old by its stamp, and fewer than the cap distinct ids are |
| `Mailbox.AtMostOnce` | crates/core/src/mailbox.rs:119-200 | no write, nor another with its id and no later stamp, is accepted twice if no reading is 4 min or more below an earlier one |
| `Mailbox.ReplayedIff` | crates/core/src/mailbox.rs:142-143 | an accepted write that passes again, not accepted in between, is accepted again exactly when some passing call in between read its stamp + 9 min or more and there is room |
| `Mailbox.ThirdCallReplays` | crates/core/src/mailbox.rs:142-143 | a run of three passing calls from the empty ledger that accepts the same write twice |
| `Base64.EncodeText` | crates/core/src/node.rs:306-324 | the chunk loop computes `B64` |
| `Base64.AlphabetIs` | crates/core/src/node.rs:307-307 | the alphabet |
| `Base64.EncodeRecuts` | crates/core/src/node.rs:306-324 | the output is the octets' bit string cut into sextets and filled with zero bits, ⌈4n/3⌉ symbols |
| `Base64.DecodeText` | crates/core/src/node.rs:327-353 | the accumulator loop computes `Unb64`, errors included |
| `Base64.ShiftIn` | crates/core/src/node.rs:344-346 | shifting six bits into the wrapping 32-bit accumulator appends them to the pending bits |
| `Base64.Unb64Meaning` | crates/core/src/node.rs:327-353 | exactly the alphabetic texts of length not 1 mod 4 decode, to the ⌊6n/8⌋ leading octets of their bit string, as an unbounded decoder gives |
| `Base64.RoundTrip` | crates/core/src/node.rs:305-353 | `unb64(b64(x)) = x` for byte strings of any length |
| `Base64.CanonicalIff` | crates/core/src/node.rs:327-353 | a decodable text is the encoding of its value exactly when the dropped bits are zero |
| `Base64.NoSeparators` | crates/core/src/node.rs:307-307 | the output contains nothing outside the alphabet |
| `Snapshot.SockaddrRoundTrip` | crates/core/src/node.rs:259-292 | socket addresses of both families survive their byte form |
| `Snapshot.SockaddrLayout` | crates/core/src/node.rs:259-272 | address bytes, then the port, high byte first |
| `Snapshot.AdvertisedMeaning` | crates/core/src/node.rs:192-196 | an address is printed exactly when it is known, not all zero, and not in 127.0.0.0/8 or ::1 unless asked for; the list is unchanged when nothing is filtered |
| `Snapshot.HexRoundTrip` | crates/core/src/node.rs:294-303 | `unhex(hex(b)) = b`, hexadecimal digits only |
| `Snapshot.HexValueIff` | crates/core/src/node.rs:298-303 | exactly the digits of either case have a value |
| `Snapshot.UnhexIff` | crates/core/src/node.rs:298-303 | exactly the texts of an even number of digits are read, two digits a byte, high half first |
| `Snapshot.ParseNaddr` | crates/core/src/node.rs:209-252 | the pair loop computes `Parse`, errors and unknown keys included |
| `Snapshot.ParseIff` | crates/core/src/node.rs:209-252 | a text is accepted exactly when it has the prefix, every part is a pair, any version is 1, every id, address and relay decodes, and some id is named; the last id counts and the addresses are all of them in order |
| `Snapshot.PrintedPairs` | crates/core/src/node.rs:189-206 | splitting the printed text at `&` gives back its pairs |
| `Snapshot.SnapshotRoundTrip` | crates/core/src/node.rs:189-252 | parsing a printed snapshot returns the id, the advertised addresses in order and the first relay |
| `Governor.ShareBounds` | crates/core/src/governor.rs:80-111 | the share stays between 3 % and 15 % for any battery and load |
| `Governor.BatteryCurveIsGentle` | crates/core/src/governor.rs:84-100 | one percent less battery never raises the share and lowers it by less than 0.01 |
| `Governor.SmoothstepIsFlat` | crates/core/src/governor.rs:28-32 | the curve leaves both its ends no faster than a parabola |
| `Governor.ShareExtremes` | crates/core/src/governor.rs:75-111 | exactly when the share is full and exactly when it is the floor |
| `Governor.LoadLowersShareIff` | crates/core/src/governor.rs:102-111 | a higher load gives no higher share exactly when not both loads lie strictly between 0.6 and 1 |
| `Governor.LoadCliff` | crates/core/src/governor.rs:102-111 | one hundredth more load than 0.6 costs more than 0.11 of share |
| `Governor.BudgetIsNearest` | crates/core/src/governor.rs:114-116 | the budget is the share of the capacity rounded to the nearest whole number |
| `Governor.CapBounds` | crates/core/src/governor.rs:120-126 | the per-sender cap is at least the floor and at most max(6, round(0.15 capacity)) |
| `Governor.CapSharesBudget` | crates/core/src/governor.rs:118-126 | above the floor the cap is the largest with which all senders stay within the budget |
| `Governor.RelayGovernor.constructor` | crates/core/src/governor.rs:52-60 | the initial state |
| `Governor.RelayGovernor.SetBattery` | crates/core/src/governor.rs:63-66 | only battery and charging change |
| `Governor.RelayGovernor.SetLoad` | crates/core/src/governor.rs:71-73 | load clamped to 0..1, anything not finite counts as full load |
| `Governor.RelayGovernor.RegisterSender` | crates/core/src/governor.rs:132-139 | a new sender starts with full buckets; a known one is left alone |
| `Governor.RelayGovernor.DropSender` | crates/core/src/governor.rs:141-143 | only that sender goes |
| `Governor.RelayGovernor.Refill` | crates/core/src/governor.rs:146-162 | both passes over all senders, in any order |
| `Governor.RelayGovernor.TakeToken` | crates/core/src/governor.rs:164-176 | refill of everyone, then one token of one bucket, or a refusal |
| `GovernorRuns.TokensAreConserved` | crates/core/src/governor.rs:146-176 | over every interleaving, tokens held plus tokens granted are at most tokens at the start plus what the highest rate earns |
| `GovernorRuns.TokensNeverNegative` | crates/core/src/governor.rs:146-176 | no bucket goes below zero |
| `GovernorRuns.RefillIsTimeOnly` | crates/core/src/governor.rs:146-162 | while others alone make requests, however many, a bucket holds exactly what it held plus cap tokens a minute, up to the cap |
| `GovernorRuns.EarnedFormula` | crates/core/src/governor.rs:146-155 | what is earned: cap a minute, in proportion |
| `GovernorRuns.NewSenderHasFullBuckets` | crates/core/src/governor.rs:132-176 | of the requests a new sender makes at once, exactly its cap are granted in each direction, the directions not affecting each other |
| `GovernorRuns.GrantsAreBounded` | crates/core/src/governor.rs:120-187 | since registration at t0 at most C + C(T - t0)/60000 grants per direction |
| `GovernorRuns.ServiceFloor` | crates/core/src/governor.rs:118-187 | a sender granted nothing in a direction while its refill clock moved 10 s is granted its next request, whatever others, battery and load do |
| `Frames.FrameSink.constructor` | android/app/src/main/java/chat/dc/app/ble/BleChannel.kt:57-58 | an empty buffer |
| `Frames.FrameSink.Feed` | android/app/src/main/java/chat/dc/app/ble/BleChannel.kt:60-77 | the frames and residue of draining buffer plus chunk; the residue is at most 4098 bytes |
| `Frames.FrameSink.Reset` | android/app/src/main/java/chat/dc/app/ble/BleChannel.kt:79-79 | an empty buffer |
| `Frames.RestIsShort` | android/app/src/main/java/chat/dc/app/ble/BleChannel.kt:63-75 | for arbitrary bytes the residue is below one maximal frame, so the closing guard is never taken |
| `Frames.DrainSplits` | android/app/src/main/java/chat/dc/app/ble/BleChannel.kt:60-77 | draining a stream in two parts is draining it whole, unless a byte follows an oversized header |
| `Frames.ChunkingIndependentIff` | android/app/src/main/java/chat/dc/app/ble/BleChannel.kt:60-77 | every chunking of a stream yields the same frames and residue if and only if no byte follows an oversized header |
| `Frames.WireFrameIsFrame` | android/app/src/main/java/chat/dc/app/ble/BleChannel.kt:47-54 | header and body of a printed frame |
| `Frames.ChunkedCovers` | android/app/src/main/java/chat/dc/app/ble/BleChannel.kt:83-85 | the pieces are nonempty, no longer than asked, and concatenate to the frame |
| `Frames.PiecesFit` | android/app/src/main/java/chat/dc/app/ble/BleChannel.kt:83-85 | the pieces of a frame fit the link, give the frame back, and all but the last are full |
| `Frames.FramesArriveIntact` | android/app/src/main/java/chat/dc/app/ble/BleChannel.kt:47-85 | frames split at any positive sizes arrive as exactly those frames, in order, with nothing left |
| `Frames.OversizedHeaderBreaksIndependence` | android/app/src/main/java/chat/dc/app/ble/BleChannel.kt:66-70 | behind an oversized header the place of a cut decides whether the next frame survives |
| `AddFriend.PayloadRoundTrip` | android/app/src/main/java/chat/dc/app/addfriend/AddFriendPayload.kt:46-76 | every valid payload is parsed back from its link, with or without a snapshot |
| `AddFriend.ParseIff` | android/app/src/main/java/chat/dc/app/addfriend/AddFriendPayload.kt:56-76 | a text is accepted exactly when it has the prefix and the last part for each key says a field within its bounds; a missing or undecodable snapshot counts as empty |
| `QrFrames.FrameParsesBackIff` | android/app/src/main/java/chat/dc/app/addfriend/AddFriendPayload.kt:122-152 | a printed frame is parsed back to session, index and count exactly when its session id contains no `&` |
| `QrFrames.ParseFrameIff` | android/app/src/main/java/chat/dc/app/addfriend/AddFriendPayload.kt:139-152 | a text is a frame exactly when it has the prefix and says a session, a count and an index below it |
| `QrFrames.NoiseIff` | android/app/src/main/java/chat/dc/app/addfriend/AddFriendPayload.kt:157-157 | a text is noise exactly when the noise flag occurs in it |
| `QrFrames.ChunkIff` | android/app/src/main/java/chat/dc/app/addfriend/AddFriendPayload.kt:154-155 | it carries data exactly when the data flag occurs and something follows the first data field |
| `QrFrames.ToIntReads` | android/app/src/main/java/chat/dc/app/addfriend/AddFriendPayload.kt:148-149 | decimal numbers are read with or without a sign |
| `QrFrames.ToIntIsNumber` | android/app/src/main/java/chat/dc/app/addfriend/AddFriendPayload.kt:148-149 | nothing but an optional sign and digits within 32 bits is read |
| `QrFrames.DataFrameReadsBack` | android/app/src/main/java/chat/dc/app/addfriend/AddFriendPayload.kt:154-157 | a data frame is not noise and yields exactly its data |
| `QrFrames.NoiseFrameIsNoise` | android/app/src/main/java/chat/dc/app/addfriend/AddFriendPayload.kt:134-137 | a noise frame is recognised |
| `Collector.FrameCollector.constructor` | android/app/src/main/java/chat/dc/app/addfriend/AddFriendPayload.kt:163-183 | the initial state |
| `Collector.FrameCollector.Assemble` | android/app/src/main/java/chat/dc/app/addfriend/AddFriendPayload.kt:216-220 | segments in index order, absent and undecodable ones skipped |
| `Collector.FrameCollector.Snapshot` | android/app/src/main/java/chat/dc/app/addfriend/AddFriendPayload.kt:208-227 | the new state and the report; the payload is parsed once |
| `Collector.FrameCollector.OnFrame` | android/app/src/main/java/chat/dc/app/addfriend/AddFriendPayload.kt:185-196 | noise and foreign frames change nothing but time; the first frame locks; data is stored by index |
| `Collector.FrameCollector.Reset` | android/app/src/main/java/chat/dc/app/addfriend/AddFriendPayload.kt:199-206 | back to the initial state |
| `Collector.Pigeonhole` | android/app/src/main/java/chat/dc/app/addfriend/AddFriendPayload.kt:210-210 | counting keys suffices: n keys below n are all of them |
| `Collector.SentFramesAdd` | android/app/src/main/java/chat/dc/app/addfriend/AddFriendPayload.kt:122-157 | every frame of the sender is genuine and adds its index |
| `Collector.CollectsExactly` | android/app/src/main/java/chat/dc/app/addfriend/AddFriendPayload.kt:160-228 | once locked to a genuine session, after any interleaving the payload is the sender's exactly when every index was seen and the collecting time is over, and absent otherwise |
| `Collector.CollectorIsHistory` | android/app/src/main/java/chat/dc/app/addfriend/AddFriendPayload.kt:185-196 | over every run, genuine or not: the first frame locks session, count and time, and the chunks are the latest ones of exactly the indices seen for it |
| `Collector.ReportIsExact` | android/app/src/main/java/chat/dc/app/addfriend/AddFriendPayload.kt:208-227 | nothing is reported before the first frame; then the number of distinct indices, the count and the time since the lock |
| `Collector.ReportShowsPayload` | android/app/src/main/java/chat/dc/app/addfriend/AddFriendPayload.kt:208-227 | on a genuine session the report is complete exactly when all indices are seen and the time is over, and then shows the sender's payload |
| `Collector.PayloadIsFinal` | android/app/src/main/java/chat/dc/app/addfriend/AddFriendPayload.kt:179-224 | once there is a payload no later event changes it |
| `Bloom.Pack` | android/app/src/main/java/chat/dc/app/friendlink/FriendLink.kt:106-110 | every bit of the bytes equals the entry of the boolean array |
| `Bloom.AddId` | android/app/src/main/java/chat/dc/app/friendlink/FriendLink.kt:89-89 | exactly the seven bits of an id are added; the weight grows by at most 7 |
| `Bloom.BuildBloom` | android/app/src/main/java/chat/dc/app/friendlink/FriendLink.kt:86-111 | the filter is exactly the bits of the friends' ids and of the least number of padding ids that reaches the target; every friend's id hits; the weight is between 700 and 706; none exactly when no number of padding rounds reaches the target, where the source loops for ever |
| `Bloom.PaddingStalls` | android/app/src/main/java/chat/dc/app/friendlink/FriendLink.kt:92-105 | after 2^32 counted rounds the padding ids repeat, so the weight no longer grows |
| `Bloom.DayOfMeaning` | android/app/src/main/java/chat/dc/app/friendlink/FriendLink.kt:66-66 | slots are grouped in days of 144, counted toward zero |
| `Bloom.Le8Value` | android/app/src/main/java/chat/dc/app/friendlink/FriendLink.kt:61-62 | eight bytes, least significant first, for every 64-bit number |
| `Bloom.DayKeySuffices` | android/app/src/main/java/chat/dc/app/friendlink/FriendLink.kt:65-69 | within a day an id depends on the secret through that day's key alone |
| `Bloom.SlotIdsDiffer` | android/app/src/main/java/chat/dc/app/friendlink/FriendLink.kt:65-69 | ids of different slots differ, unless the key derivation collides on the two |
| `Bloom.BitIndexIsLowBits` | android/app/src/main/java/chat/dc/app/friendlink/FriendLink.kt:72-82 | a position is the low ten bits of the three leading hash bytes |
| `Bloom.CandidateIff` | android/app/src/main/java/chat/dc/app/friendlink/FriendLink.kt:113-125 | a friend's candidate is the id of this slot if all its seven bits are set, else that of the slot before if all its are |
| `Bloom.CandidatesAreExact` | android/app/src/main/java/chat/dc/app/friendlink/FriendLink.kt:122-125 | exactly the friends with such a candidate are listed, once, in order, with it |
| `Bloom.FriendIsFound` | android/app/src/main/java/chat/dc/app/friendlink/FriendLink.kt:117-125 | a friend in the filter is found in the same and in the next slot |

## Left out

- Bloom.BuildBloom: bytes of the finished filter are a sequence that is reassigned, not an array written in place; the loop that never ends is the result `None`.
- Governor.RelayGovernor.Refill: rounding of `f64` and the cast of the sender count to 32 bits are not modelled; amounts are exact reals and the count is exact.
- Mailbox.NonceCache.CheckAndInsert: what a call does after a stamp within 9 min of the 64-bit limit was recorded, where the source's own comparison overflows; `verify_inbound` never records one.
- Mailbox.VerifyInbound: the constant-time comparison of MACs is equality; its timing is not modelled.
- Snapshot.SnapshotRoundTrip: IPv6 flow information and scope id are not part of an address (the source writes zeros); `EndpointAddr` keeps the parsed parts as a sequence.
- QrFrames.FrameParsesBackIff: decimal digits are ASCII only, where Kotlin also accepts other scripts' digits.
- Cryptographic primitives, the Signal and MLS handshakes, identity and entropy (`handshake.rs`, `signal_store.rs`, `identity.rs`, `entropy.rs`): calls into libraries.
- SQL-backed queue and contacts, retry, adaptive and envelope helpers: easier members, or SQLite semantics.
- iroh networking, GATT links and send pump, Android services, screens and FFI: platform input and output.
- CBOR and QR bitmap encoding, and the internals of the JVM's Base64: libraries.
- `RelayTicket::sign`, `NodeKeyAnnouncement::sign` and `hmac`: one library call behind an equality test.
