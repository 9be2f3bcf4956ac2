/**
 * The calibrated internal clock (crates/core/src/clock.rs).
 *
 * `State` and the step functions say what every operation does to the clock's fields;
 * `InternalClock` performs the operations in place and is proved against them.
 */
module Clock {
  import opened Common
  import opened Cluster

  const MAX_CORRECTION_MS := 24 * 60 * 60 * 1000
  const NETWORK_FRESH_MS := 6 * 60 * 60 * 1000
  const SAMPLE_FRESH_MS := 30 * 60 * 1000
  const MAX_RTT_MS := 5_000
  const CROSS_CHECK_TOLERANCE_MS := 5_000
  const NETWORK_ADOPTION_CAP_MS := 2 * 60_000
  const NETWORK_ADOPTION_COOLDOWN_MS := 10 * 60_000
  const ROLLBACK_SLACK_MS := 60_000
  const MAX_PLAUSIBLE_MS := 4_102_444_800_000
  const LONG_AGO := -0x4000_0000_0000_0000  // i64::MIN / 2

  /** A local reading for which the unchecked `+ 6 h` and `- 30 min` stay inside 64 bits. */
  type LocalMs = t: int | I64_MIN + SAMPLE_FRESH_MS <= t <= I64_MAX - NETWORK_FRESH_MS

  datatype Source = Unsynced | Network | Peers
  datatype ClockError = RttTooLarge | UntrustedPeer
  datatype Calibration = Calibrated(offset: int) | Rejected(error: ClockError)
  datatype PeerSample = PeerSample(offset: int, at: I64)
  datatype Reading = Reading(source: Byte, offset: int)

  datatype State = State(
    network: Option<int>,
    freshUntil: I64,
    pending: Option<Reading>,
    adoptedAt: I64,
    trusted: set<NodeId>,
    peers: map<NodeId, PeerSample>,
    highWater: nat,
    localHighWater: I64,
    lastOffset: int,
    rollback: bool)

  const INITIAL := State(None, LONG_AGO, None, LONG_AGO, {}, map[], 0, LONG_AGO, 0, false)

  /** Rust's `/ 2`, which rounds toward zero. */
  function HalfTowardZero(x: int): int { if x >= 0 then x / 2 else -(-x / 2) }

  function Correction(raw: int): int { Clamp(raw, -MAX_CORRECTION_MS, MAX_CORRECTION_MS) }

  // ---------------------------------------------------------------- peer exchange

  /** Round-trip time and offset of section 8 of RFC 5905, with the saturating steps of the source. */
  function Rtt(t1: I64, t2: I64, t3: I64, t4: I64): I64 { SatI64(SatI64(t4 - t1) - SatI64(t3 - t2)) }

  function RawOffset(t1: I64, t2: I64, t3: I64, t4: I64): int {
    HalfTowardZero(SatI64(SatI64(t2 - t1) + SatI64(t3 - t4)))
  }

  function Exchange(s: State, peer: NodeId, t1: I64, t2: I64, t3: I64, t4: I64): (State, Calibration) {
    if peer !in s.trusted then (s, Rejected(UntrustedPeer))
    else if t2 > t3 || !(0 <= Rtt(t1, t2, t3, t4) <= MAX_RTT_MS) then (s, Rejected(RttTooLarge))
    else
      var offset := Correction(RawOffset(t1, t2, t3, t4));
      (s.(peers := s.peers[peer := PeerSample(offset, t4)]), Calibrated(offset))
  }

  // ---------------------------------------------------------------- network readings

  function NetworkCleared(s: State): State { s.(network := None, freshUntil := LONG_AGO) }

  /** The pair of readings agrees, moves the clock little enough and comes after the cooldown. */
  predicate Adopts(s: State, source: Byte, local: LocalMs, network: I64) {
    && s.pending.Some? && s.pending.value.source != source
    && var offset := Correction(SatI64(network - local));
    && Abs(s.pending.value.offset - offset) <= CROSS_CHECK_TOLERANCE_MS
    && Abs(AdoptedOffset(s, local, network) - s.lastOffset) <= NETWORK_ADOPTION_CAP_MS
    && SatI64(local - s.adoptedAt) >= NETWORK_ADOPTION_COOLDOWN_MS
  }

  function AdoptedOffset(s: State, local: LocalMs, network: I64): int
    requires s.pending.Some?
  {
    HalfTowardZero(s.pending.value.offset + Correction(SatI64(network - local)))
  }

  function NetworkSync(s: State, source: Byte, local: LocalMs, network: I64): State {
    if s.pending.Some? && s.pending.value.source != source then
      if Adopts(s, source, local, network) then
        s.(pending := None, network := Some(AdoptedOffset(s, local, network)),
           freshUntil := local + NETWORK_FRESH_MS, adoptedAt := local)
      else
        NetworkCleared(s).(pending := None)
    else
      s.(pending := Some(Reading(source, Correction(SatI64(network - local)))))
  }

  // ---------------------------------------------------------------- the offset in force

  function FreshPeers(peers: map<NodeId, PeerSample>, local: LocalMs): set<NodeId> {
    set p | p in peers && peers[p].at >= local - SAMPLE_FRESH_MS
  }

  /** The offsets of the samples of `keys`, with their multiplicities. */
  ghost function OffsetsOf(peers: map<NodeId, PeerSample>, keys: set<NodeId>): (m: multiset<int>)
    requires keys <= peers.Keys
    ensures |m| == |keys|
  {
    if keys == {} then multiset{} else
      var k :| k in keys;
      multiset{peers[k].offset} + OffsetsOf(peers, keys - {k})
  }

  ghost function FreshOffsets(s: State, local: LocalMs): multiset<int> {
    OffsetsOf(s.peers, FreshPeers(s.peers, local))
  }

  predicate NetworkFresh(s: State, local: LocalMs) { s.network.Some? && local <= s.freshUntil }

  ghost predicate PeerQuorum(s: State, local: LocalMs) { Peak(FreshOffsets(s, local)).Some? }

  ghost function EffectiveOffset(s: State, local: LocalMs): int {
    if NetworkFresh(s, local) then s.network.value
    else match Consensus(FreshOffsets(s, local)) case Some(x) => x case None => 0
  }

  // ---------------------------------------------------------------- the safe "now"

  function Internal(local: LocalMs, offset: int): nat { Max(SatI64(local + offset), 0) }

  ghost function NowStep(s: State, local: LocalMs): State {
    var offset := EffectiveOffset(s, local);
    var internal := Internal(local, offset);
    var rollback := s.rollback || local < SatI64(s.localHighWater - ROLLBACK_SLACK_MS);
    s.(rollback := rollback && local <= s.localHighWater,
       localHighWater := Max(s.localHighWater, local),
       lastOffset := offset,
       highWater := if offset != s.lastOffset then internal else Max(s.highWater, internal))
  }

  function Restored(s: State, persisted: U64): State {
    s.(highWater := Max(s.highWater, Min(persisted, MAX_PLAUSIBLE_MS)))
  }

  // ---------------------------------------------------------------- the mutable clock

  /** Splitting off any member leaves the rest: the choice inside `OffsetsOf` does not matter. */
  lemma {:induction false} OffsetsOfSplit(peers: map<NodeId, PeerSample>, keys: set<NodeId>, k: NodeId)
    requires keys <= peers.Keys && k in keys
    ensures OffsetsOf(peers, keys) == multiset{peers[k].offset} + OffsetsOf(peers, keys - {k})
    decreases |keys|
  {
    var c :| c in keys && OffsetsOf(peers, keys) == multiset{peers[c].offset} + OffsetsOf(peers, keys - {c});
    if c != k {
      OffsetsOfSplit(peers, keys - {c}, k);
      OffsetsOfSplit(peers, keys - {k}, c);
      assert keys - {c} - {k} == keys - {k} - {c};
    }
  }

  class InternalClock {
    var networkOffset: Option<int>
    var networkFreshUntil: I64
    var pendingNetwork: Option<Reading>
    var lastNetworkAdoptedAt: I64
    var trustedPeers: set<NodeId>
    var peers: map<NodeId, PeerSample>
    var internalHighWater: nat
    var localHighWater: I64
    var lastOffset: int
    var rollbackDetected: bool

    ghost function Model(): State
      reads this
    {
      State(networkOffset, networkFreshUntil, pendingNetwork, lastNetworkAdoptedAt, trustedPeers, peers,
            internalHighWater, localHighWater, lastOffset, rollbackDetected)
    }

    constructor ()
      ensures Model() == INITIAL
    {
      networkOffset, networkFreshUntil, pendingNetwork := None, LONG_AGO, None;
      lastNetworkAdoptedAt, trustedPeers, peers := LONG_AGO, {}, map[];
      internalHighWater, localHighWater, lastOffset, rollbackDetected := 0, LONG_AGO, 0, false;
    }

    method RestoreHighWater(persisted: U64)
      modifies this
      ensures Model() == Restored(old(Model()), persisted)
    {
      internalHighWater := Max(internalHighWater, Min(persisted, MAX_PLAUSIBLE_MS));
    }

    method TrustPeer(peer: NodeId)
      modifies this
      ensures Model() == old(Model()).(trusted := old(trustedPeers) + {peer})
    {
      trustedPeers := trustedPeers + {peer};
    }

    method DistrustPeer(peer: NodeId)
      modifies this
      ensures Model() == old(Model()).(trusted := old(trustedPeers) - {peer}, peers := old(peers) - {peer})
    {
      trustedPeers := trustedPeers - {peer};
      peers := peers - {peer};
    }

    method OnNetworkSync(source: Byte, local: LocalMs, network: I64)
      modifies this
      ensures Model() == NetworkSync(old(Model()), source, local, network)
    {
      var clamped := Correction(SatI64(network - local));
      var pending := pendingNetwork;
      pendingNetwork := None;
      if pending.Some? && pending.value.source != source {
        if Abs(pending.value.offset - clamped) <= CROSS_CHECK_TOLERANCE_MS {
          var adopted := HalfTowardZero(pending.value.offset + clamped);
          var delta := adopted - lastOffset;
          var cooling := SatI64(local - lastNetworkAdoptedAt) < NETWORK_ADOPTION_COOLDOWN_MS;
          if Abs(delta) > NETWORK_ADOPTION_CAP_MS || cooling {
            networkOffset, networkFreshUntil := None, LONG_AGO;
          } else {
            networkOffset := Some(adopted);
            networkFreshUntil := local + NETWORK_FRESH_MS;
            lastNetworkAdoptedAt := local;
          }
        } else {
          networkOffset, networkFreshUntil := None, LONG_AGO;
        }
      } else {
        pendingNetwork := Some(Reading(source, clamped));
      }
    }

    method OnPeerExchange(peer: NodeId, t1: I64, t2: I64, t3: I64, t4: I64) returns (r: Calibration)
      modifies this
      ensures (Model(), r) == Exchange(old(Model()), peer, t1, t2, t3, t4)
    {
      if peer !in trustedPeers {
        return Rejected(UntrustedPeer);
      }
      var rtt := SatI64(SatI64(t4 - t1) - SatI64(t3 - t2));
      if t2 > t3 {
        return Rejected(RttTooLarge);
      }
      if !(0 <= rtt <= MAX_RTT_MS) {
        return Rejected(RttTooLarge);
      }
      var raw := HalfTowardZero(SatI64(SatI64(t2 - t1) + SatI64(t3 - t4)));
      var clamped := Correction(raw);
      peers := peers[peer := PeerSample(clamped, t4)];
      return Calibrated(clamped);
    }

    /** Reads the fresh samples out of the peer map in an arbitrary order. */
    method CollectFresh(local: LocalMs) returns (offsets: seq<int>)
      ensures multiset(offsets) == FreshOffsets(Model(), local)
    {
      offsets := [];
      var rest := FreshPeers(peers, local);
      while rest != {}
        invariant rest <= peers.Keys
        invariant multiset(offsets) + OffsetsOf(peers, rest) == FreshOffsets(Model(), local)
        decreases rest
      {
        var p :| p in rest;
        OffsetsOfSplit(peers, rest, p);
        offsets := offsets + [peers[p].offset];
        rest := rest - {p};
      }
    }

    method PeerCluster(local: LocalMs) returns (cluster: Option<seq<int>>)
      ensures cluster == Peak(FreshOffsets(Model(), local))
    {
      var offsets := CollectFresh(local);
      cluster := PeakCluster(offsets);
    }

    method SourceAt(local: LocalMs) returns (r: Source)
      ensures r == (if NetworkFresh(Model(), local) then Network
                    else if PeerQuorum(Model(), local) then Peers else Unsynced)
    {
      var cluster := PeerCluster(local);
      r := if networkOffset.Some? && local <= networkFreshUntil then Network
           else if cluster.Some? then Peers else Unsynced;
    }

    method EffectiveOffsetAt(local: LocalMs) returns (offset: int)
      ensures offset == EffectiveOffset(Model(), local)
    {
      if networkOffset.Some? && local <= networkFreshUntil {
        return networkOffset.value;
      }
      var cluster := PeerCluster(local);
      if cluster.None? {
        return 0;
      }
      var v := SortUnstable(cluster.value);
      PeakIsSorted(Arrange(FreshOffsets(Model(), local)));
      SortedIsUnique(v, cluster.value);
      offset := v[|v| / 2];
    }

    method Now(local: LocalMs) returns (now: int)
      modifies this
      ensures Model() == NowStep(old(Model()), local)
      ensures now == internalHighWater
    {
      hide EffectiveOffset;
      var offset := EffectiveOffsetAt(local);
      if local < SatI64(localHighWater - ROLLBACK_SLACK_MS) {
        rollbackDetected := true;
      }
      if local > localHighWater {
        localHighWater := local;
        rollbackDetected := false;
      }
      var internal := Max(SatI64(local + offset), 0);
      if offset != lastOffset {
        lastOffset := offset;
        internalHighWater := internal;
      } else {
        internalHighWater := Max(internalHighWater, internal);
      }
      if rollbackDetected {
        return internalHighWater;
      }
      now := Max(internal, internalHighWater);
    }
  }
}
