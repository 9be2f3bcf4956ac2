/** What the internal clock promises over every sequence of calls. */
module ClockRuns {
  import opened Common
  import opened Cluster
  import opened Clock

  datatype Event =
    | Trust(peer: NodeId)
    | Distrust(peer: NodeId)
    | PeerExchange(peer: NodeId, t1: I64, t2: I64, t3: I64, t4: I64)
    | NetworkReading(source: Byte, local: LocalMs, network: I64)
    | Now(local: LocalMs)
    | Restore(persisted: U64)

  ghost function Step(s: State, e: Event): State {
    match e
    case Trust(p) => s.(trusted := s.trusted + {p})
    case Distrust(p) => s.(trusted := s.trusted - {p}, peers := s.peers - {p})
    case PeerExchange(p, t1, t2, t3, t4) => Exchange(s, p, t1, t2, t3, t4).0
    case NetworkReading(src, local, network) => NetworkSync(s, src, local, network)
    case Now(local) => NowStep(s, local)
    case Restore(persisted) => Restored(s, persisted)
  }

  ghost function Run(events: seq<Event>): State {
    if events == [] then INITIAL else Step(Run(events[..|events| - 1]), events[|events| - 1])
  }

  // ---------------------------------------------------------------- reachable states

  ghost predicate Bounded(x: int) { Abs(x) <= MAX_CORRECTION_MS }

  ghost predicate Reachable(s: State) {
    && (s.network.Some? ==> Bounded(s.network.value))
    && (s.pending.Some? ==> Bounded(s.pending.value.offset))
    && (forall p :: p in s.peers ==> Bounded(s.peers[p].offset))
    && s.peers.Keys <= s.trusted
    && Bounded(s.lastOffset)
    && s.highWater <= I64_MAX
  }

  lemma {:induction false} OffsetsFromSamples(peers: map<NodeId, PeerSample>, keys: set<NodeId>)
    requires keys <= peers.Keys
    ensures forall x :: x in OffsetsOf(peers, keys) ==> exists p :: p in keys && peers[p].offset == x
    decreases |keys|
  {
    if keys != {} {
      var k :| k in keys;
      OffsetsOfSplit(peers, keys, k);
      OffsetsFromSamples(peers, keys - {k});
    }
  }

  lemma {:induction false} EffectiveIsBounded(s: State, local: LocalMs)
    requires Reachable(s)
    ensures Bounded(EffectiveOffset(s, local))
  {
    ConsensusIsASample(FreshOffsets(s, local));
    OffsetsFromSamples(s.peers, FreshPeers(s.peers, local));
  }

  lemma {:induction false} StepStaysReachable(s: State, e: Event)
    requires Reachable(s)
    ensures Reachable(Step(s, e))
  {
    hide EffectiveOffset;
    if e.Now? { EffectiveIsBounded(s, e.local); }
  }

  /** In every reachable state all offsets are within a day and only trusted peers have samples. */
  lemma {:induction false} RunsStayReachable(events: seq<Event>)
    ensures Reachable(Run(events))
  {
    hide Step;
    if events != [] {
      RunsStayReachable(events[..|events| - 1]);
      StepStaysReachable(Run(events[..|events| - 1]), events[|events| - 1]);
    }
  }

  // ---------------------------------------------------------------- honest majority

  /** The peer's clock is exactly `theta` ahead of ours and neither path delay is negative. */
  ghost predicate Honest(theta: int, t1: int, t2: int, t3: int, t4: int) {
    t2 - (t1 + theta) >= 0 && t4 - (t3 - theta) >= 0
  }

  /** The total time two messages spent on their way: `theta` cancels out. */
  function PathDelay(t1: int, t2: int, t3: int, t4: int): int { (t4 - t1) - (t3 - t2) }

  /** The guard sees the true delay exactly when `t4 - t1` fits in 64 bits, or there is no delay at all. */
  lemma {:induction false} RttIsTrueIff(theta: int, t1: I64, t2: I64, t3: I64, t4: I64)
    requires Honest(theta, t1, t2, t3, t4) && t2 <= t3
    ensures Rtt(t1, t2, t3, t4) == PathDelay(t1, t2, t3, t4) <==>
      (t4 - t1 <= I64_MAX || PathDelay(t1, t2, t3, t4) == 0)
  {
  }

  /** An honest exchange that the guard measures truly. */
  ghost predicate HonestAndFits(theta: int, t1: int, t2: int, t3: int, t4: int) {
    Honest(theta, t1, t2, t3, t4) && (t4 - t1 <= I64_MAX || PathDelay(t1, t2, t3, t4) == 0)
  }

  lemma {:induction false} HonestSample(s: State, p: NodeId, theta: int, t1: I64, t2: I64, t3: I64, t4: I64)
    requires Bounded(theta) && HonestAndFits(theta, t1, t2, t3, t4)
    requires Exchange(s, p, t1, t2, t3, t4).1.Calibrated?
    ensures Abs(Exchange(s, p, t1, t2, t3, t4).1.offset - theta) <= MAX_RTT_MS / 2
  {
  }

  /** With equal delays on both paths the offset is exact, and otherwise off by half the difference, toward zero. */
  lemma {:induction false} SymmetricIsExact(theta: int, t1: I64, t2: I64, t3: I64, t4: I64)
    requires Bounded(theta) && Honest(theta, t1, t2, t3, t4) && t4 - t1 <= I64_MAX
    requires PathDelay(t1, t2, t3, t4) <= MAX_RTT_MS
    ensures var (there, back, h) := (t2 - (t1 + theta), t4 - (t3 - theta), RawOffset(t1, t2, t3, t4));
      && (there == back ==> Correction(h) == h == theta)
      && Abs(2 * h) <= Abs(2 * theta + there - back) <= Abs(2 * h) + 1
  {
  }

  /** Outside that condition the accuracy is lost: a reply 292 million years late looks instant. */
  lemma {:induction false} SaturatedExchangeIsNotAccurate(s: State, p: NodeId)
    requires p in s.trusted
    ensures var (t1, t2, t3, t4) := (-1_000_000, -1_000_000, I64_MAX - 1_000_000, I64_MAX);
      && Honest(0, t1, t2, t3, t4)
      && Exchange(s, p, t1, t2, t3, t4).1 == Calibrated(-500_000)
  {
  }

  /** If accepted, the exchange is off by no more than half the permitted round trip. */
  ghost predicate AccurateIfAccepted(s: State, p: NodeId, theta: int, t1: I64, t2: I64, t3: I64, t4: I64) {
    var r := Exchange(s, p, t1, t2, t3, t4).1;
    r.Calibrated? ==> Abs(r.offset - theta) <= MAX_RTT_MS / 2
  }

  lemma {:induction false} LongWaitIsInaccurate(s: State, p: NodeId, t1: I64, t4: I64)
    requires p in s.trusted && t4 - t1 > I64_MAX
    ensures var (theta, t3) := (-2501, t4 - 2501); var t2 := t3 - (I64_MAX - 5000);
      Honest(theta, t1, t2, t3, t4) && !AccurateIfAccepted(s, p, theta, t1, t2, t3, t4)
  {
  }

  /**
   * What the requester can check before it trusts the bound: whatever an honest peer within a day replies,
   * the accepted offset is accurate exactly when the wait `t4 - t1` fits in 64 bits.
   */
  lemma {:induction false} AccurateIff(s: State, p: NodeId, t1: I64, t4: I64)
    requires p in s.trusted
    ensures (forall theta: int, t2: I64, t3: I64 ::
              Bounded(theta) && Honest(theta, t1, t2, t3, t4) ==> AccurateIfAccepted(s, p, theta, t1, t2, t3, t4))
      <==> t4 - t1 <= I64_MAX
  {
    hide Exchange;
    if t4 - t1 <= I64_MAX {
      forall theta: int, t2: I64, t3: I64 | Bounded(theta) && Honest(theta, t1, t2, t3, t4)
        ensures AccurateIfAccepted(s, p, theta, t1, t2, t3, t4)
      {
        if Exchange(s, p, t1, t2, t3, t4).1.Calibrated? { HonestSample(s, p, theta, t1, t2, t3, t4); }
      }
    } else {
      LongWaitIsInaccurate(s, p, t1, t4);
    }
  }

  ghost predicate HonestIn(events: seq<Event>, honest: set<NodeId>, theta: int) {
    forall i :: 0 <= i < |events| && events[i].PeerExchange? && events[i].peer in honest ==>
      var e := events[i]; HonestAndFits(theta, e.t1, e.t2, e.t3, e.t4)
  }

  ghost predicate Accurate(s: State, honest: set<NodeId>, theta: int) {
    forall p :: p in honest && p in s.peers ==> Abs(s.peers[p].offset - theta) <= MAX_RTT_MS / 2
  }

  lemma {:induction false} AccurateStep(s: State, e: Event, honest: set<NodeId>, theta: int)
    requires Bounded(theta) && Accurate(s, honest, theta)
    requires e.PeerExchange? && e.peer in honest ==> HonestAndFits(theta, e.t1, e.t2, e.t3, e.t4)
    ensures Accurate(Step(s, e), honest, theta)
  {
    hide EffectiveOffset;
    if e.PeerExchange? && e.peer in honest && Exchange(s, e.peer, e.t1, e.t2, e.t3, e.t4).1.Calibrated? {
      HonestSample(s, e.peer, theta, e.t1, e.t2, e.t3, e.t4);
    }
  }

  lemma {:induction false} HonestSamplesStayAccurate(events: seq<Event>, honest: set<NodeId>, theta: int)
    requires Bounded(theta) && HonestIn(events, honest, theta)
    ensures Accurate(Run(events), honest, theta)
  {
    hide Step;
    if events != [] {
      var before, e := events[..|events| - 1], events[|events| - 1];
      HonestSamplesStayAccurate(before, honest, theta);
      AccurateStep(Run(before), e, honest, theta);
    }
  }

  lemma {:induction false} OffsetsOfSubset(peers: map<NodeId, PeerSample>, some: set<NodeId>, all: set<NodeId>)
    requires some <= all <= peers.Keys
    ensures OffsetsOf(peers, some) <= OffsetsOf(peers, all)
    decreases |some|
  {
    if some != {} {
      var k :| k in some;
      OffsetsOfSplit(peers, some, k);
      OffsetsOfSplit(peers, all, k);
      OffsetsOfSubset(peers, some - {k}, all - {k});
    }
  }

  /** A strict majority of fresh samples within a minute of each other pins the offset, whatever the rest say. */
  lemma {:induction false} MajorityPinsOffset(s: State, local: LocalMs, majority: set<NodeId>, a: int, b: int)
    requires !NetworkFresh(s, local)
    requires majority <= FreshPeers(s.peers, local)
    requires |majority| >= PEER_QUORUM && 2 * |majority| > |FreshPeers(s.peers, local)|
    requires forall p :: p in majority ==> a <= s.peers[p].offset <= b
    requires b - a <= CLUSTER_TOLERANCE_MS
    ensures a <= EffectiveOffset(s, local) <= b
  {
    OffsetsFromSamples(s.peers, majority);
    OffsetsOfSubset(s.peers, majority, FreshPeers(s.peers, local));
    MajorityInterval(FreshOffsets(s, local), OffsetsOf(s.peers, majority), a, b);
  }

  ghost predicate HonestMajority(s: State, honest: set<NodeId>, local: LocalMs) {
    var recent := FreshPeers(s.peers, local);
    |honest * recent| >= PEER_QUORUM && 2 * |honest * recent| > |recent|
  }

  lemma {:induction false} AccurateMajority(s: State, honest: set<NodeId>, theta: int, local: LocalMs)
    requires Accurate(s, honest, theta) && !NetworkFresh(s, local) && HonestMajority(s, honest, local)
    ensures Abs(EffectiveOffset(s, local) - theta) <= MAX_RTT_MS / 2
  {
    MajorityPinsOffset(s, local, honest * FreshPeers(s.peers, local), theta - MAX_RTT_MS / 2, theta + MAX_RTT_MS / 2);
  }

  /**
   * End to end: after any run in which the exchanges of the honest peers were honest, if three and
   * a strict majority of the fresh samples are theirs and network time is stale, the offset in force
   * is within half the permitted round trip of the truth, whatever every other event did.
   */
  lemma {:induction false} HonestMajorityIsAccurate(events: seq<Event>, honest: set<NodeId>, theta: int, local: LocalMs)
    requires Bounded(theta) && HonestIn(events, honest, theta)
    requires !NetworkFresh(Run(events), local) && HonestMajority(Run(events), honest, local)
    ensures Abs(EffectiveOffset(Run(events), local) - theta) <= MAX_RTT_MS / 2
  {
    hide *;
    HonestSamplesStayAccurate(events, honest, theta);
    AccurateMajority(Run(events), honest, theta, local);
  }

  // ---------------------------------------------------------------- network drift

  datatype Adoption = Adoption(at: int, offset: int)

  ghost predicate AdoptsAt(s: State, e: Event) {
    e.NetworkReading? && Adopts(s, e.source, e.local, e.network)
  }

  /** Every adoption of network time in a run, in order. */
  ghost function Adoptions(events: seq<Event>): seq<Adoption> {
    if events == [] then [] else
      var before, e := events[..|events| - 1], events[|events| - 1];
      if AdoptsAt(Run(before), e)
      then Adoptions(before) + [Adoption(e.local, AdoptedOffset(Run(before), e.local, e.network))]
      else Adoptions(before)
  }

  /** `now` never found a peer quorum to follow. */
  ghost predicate WithoutQuorum(events: seq<Event>) {
    forall i :: 0 <= i < |events| && events[i].Now? ==> !PeerQuorum(Run(events[..i]), events[i].local)
  }

  lemma {:induction false} WithoutQuorumPrefix(events: seq<Event>)
    requires events != [] && WithoutQuorum(events)
    ensures WithoutQuorum(events[..|events| - 1])
  {
    var before := events[..|events| - 1];
    forall i | 0 <= i < |before| && before[i].Now? ensures !PeerQuorum(Run(before[..i]), before[i].local) {
      assert before[..i] == events[..i];
      assert events[i].Now?;
    }
  }

  /** What is adopted lies within half the tolerance of both readings, so one honest source bounds the error. */
  lemma {:induction false} AdoptionIsNearBoth(s: State, source: Byte, local: LocalMs, network: I64)
    requires Adopts(s, source, local, network)
    ensures Abs(AdoptedOffset(s, local, network) - s.pending.value.offset) <= CROSS_CHECK_TOLERANCE_MS / 2
    ensures Abs(AdoptedOffset(s, local, network) - Correction(SatI64(network - local))) <= CROSS_CHECK_TOLERANCE_MS / 2
  {
  }

  function Minutes(n: int): int { n * 60_000 }

  ghost predicate Spaced(ads: seq<Adoption>) {
    forall i, j :: 0 <= i < j < |ads| ==> ads[j].at - ads[i].at >= Minutes(10 * (j - i))
  }

  lemma {:induction false} SpacedExtends(ads: seq<Adoption>, a: Adoption)
    requires Spaced(ads)
    requires ads != [] ==> a.at - ads[|ads| - 1].at >= Minutes(10)
    ensures Spaced(ads + [a])
  {
  }

  lemma {:induction false} AdoptionStep(s: State, e: Event)
    ensures AdoptsAt(s, e) ==> s.pending.Some? && e.local - s.adoptedAt >= Minutes(10)
    ensures Step(s, e).adoptedAt == if AdoptsAt(s, e) then e.local else s.adoptedAt
  {
  }

  /** Adoptions are a cooldown apart on the local clock, even when that clock is set back in between. */
  lemma {:induction false} AdoptionsAreSpaced(events: seq<Event>)
    ensures Spaced(Adoptions(events))
    ensures var ads := Adoptions(events);
      Run(events).adoptedAt == if ads == [] then LONG_AGO else ads[|ads| - 1].at
  {
    hide Step, Adopts, AdoptedOffset;
    if events != [] {
      var before, e := events[..|events| - 1], events[|events| - 1];
      AdoptionsAreSpaced(before);
      AdoptionStep(Run(before), e);
      if AdoptsAt(Run(before), e) {
        SpacedExtends(Adoptions(before), Adoption(e.local, AdoptedOffset(Run(before), e.local, e.network)));
      }
    }
  }

  /** After `k` adoptions neither the network offset nor the one last used is beyond 2k minutes. */
  ghost predicate DriftWithin(s: State, k: nat) {
    && Abs(s.lastOffset) <= Minutes(2 * k)
    && (s.network.Some? ==> Abs(s.network.value) <= Minutes(2 * k))
  }

  lemma {:induction false} DriftStep(s: State, e: Event, k: nat)
    requires DriftWithin(s, k)
    requires e.Now? ==> !PeerQuorum(s, e.local)
    ensures AdoptsAt(s, e) ==>
      DriftWithin(Step(s, e), k + 1) && Abs(AdoptedOffset(s, e.local, e.network)) <= Minutes(2 * (k + 1))
    ensures !AdoptsAt(s, e) ==> DriftWithin(Step(s, e), k)
  {
  }

  /** The k-th adoption moves the offset at most 2k minutes from zero. */
  lemma {:induction false} DriftPerAdoption(events: seq<Event>)
    requires WithoutQuorum(events)
    ensures DriftWithin(Run(events), |Adoptions(events)|)
    ensures forall k :: 0 <= k < |Adoptions(events)| ==> Abs(Adoptions(events)[k].offset) <= Minutes(2 * (k + 1))
  {
    hide Step, Adopts, AdoptedOffset;
    if events != [] {
      var n := |events| - 1;
      WithoutQuorumPrefix(events);
      DriftPerAdoption(events[..n]);
      DriftStep(Run(events[..n]), events[n], |Adoptions(events[..n])|);
    }
  }

  /** So at any time the offset in force is within two minutes per adoption made so far. */
  lemma {:induction false} EffectiveDrift(events: seq<Event>, local: LocalMs)
    requires WithoutQuorum(events) && !PeerQuorum(Run(events), local)
    ensures Abs(EffectiveOffset(Run(events), local)) <= Minutes(2 * |Adoptions(events)|)
  {
    DriftPerAdoption(events);
  }

  /** Hence network time alone can pull the clock no faster than one minute in five. */
  lemma {:induction false} DriftRate(events: seq<Event>, k: nat)
    requires WithoutQuorum(events) && k < |Adoptions(events)|
    ensures 5 * Abs(Adoptions(events)[k].offset) <= Minutes(10) + (Adoptions(events)[k].at - Adoptions(events)[0].at)
  {
    AdoptionsAreSpaced(events);
    assert Spaced(Adoptions(events));
    assert Abs(Adoptions(events)[k].offset) <= Minutes(2 * (k + 1)) by { DriftPerAdoption(events); }
  }

  ghost predicate OnlySource(s: State, source: Byte) {
    s.network == None && (s.pending.Some? ==> s.pending.value.source == source)
  }

  lemma {:induction false} OneSourceStep(s: State, e: Event, source: Byte)
    requires OnlySource(s, source)
    requires e.NetworkReading? ==> e.source == source
    ensures OnlySource(Step(s, e), source) && !AdoptsAt(s, e)
  {
  }

  /** One network source alone, however many readings it sends, never moves the clock. */
  lemma {:induction false} OneSourceNeverAdopts(events: seq<Event>, source: Byte)
    requires forall i :: 0 <= i < |events| && events[i].NetworkReading? ==> events[i].source == source
    ensures Adoptions(events) == [] && OnlySource(Run(events), source)
  {
    hide Step, Adopts;
    if events != [] {
      var before, e := events[..|events| - 1], events[|events| - 1];
      OneSourceNeverAdopts(before, source);
      OneSourceStep(Run(before), e, source);
    }
  }

  // ---------------------------------------------------------------- monotone output

  /** What `now` returned at event `i` of a run. */
  ghost function OutputAt(events: seq<Event>, i: nat): int
    requires i < |events| && events[i].Now?
  {
    Run(events[..i + 1]).highWater
  }

  /** At event `i` the offset in force is the one `now` last used. */
  ghost predicate SteadyAt(events: seq<Event>, i: nat)
    requires i < |events|
  {
    events[i].Now? ==> EffectiveOffset(Run(events[..i]), events[i].local) == Run(events[..i]).lastOffset
  }

  lemma {:induction false} RunStep(events: seq<Event>, i: nat)
    requires i < |events|
    ensures Run(events[..i + 1]) == Step(Run(events[..i]), events[i])
  {
    assert events[..i + 1][..i] == events[..i];
  }

  lemma {:induction false} HighWaterRises(events: seq<Event>, i: nat, j: nat)
    requires i <= j <= |events|
    requires forall k :: i <= k < j ==> SteadyAt(events, k)
    ensures Run(events[..i]).highWater <= Run(events[..j]).highWater
    decreases j - i
  {
    hide EffectiveOffset, Run;
    if i < j {
      HighWaterRises(events, i, j - 1);
      RunStep(events, j - 1);
      assert SteadyAt(events, j - 1);
    }
  }

  /** While the offset stays put the clock never runs backwards, for arbitrary local readings. */
  lemma {:induction false} NowIsMonotone(events: seq<Event>, i: nat, j: nat)
    requires i < j < |events| && events[i].Now? && events[j].Now?
    requires forall k :: i < k <= j ==> SteadyAt(events, k)
    ensures 0 <= OutputAt(events, i) <= OutputAt(events, j)
  {
    HighWaterRises(events, i + 1, j + 1);
  }

  // ---------------------------------------------------------------- when the output falls

  /** The offset in force at a reading. */
  ghost function OffsetAt(events: seq<Event>, i: nat): int
    requires i < |events| && events[i].Now?
  {
    EffectiveOffset(Run(events[..i]), events[i].local)
  }

  /** What event `k` puts forward as the mark: a shifted reading or a restored mark. */
  ghost function MarkAt(events: seq<Event>, k: nat): nat
    requires k < |events|
  {
    match events[k]
    case Now(local) => Internal(local, OffsetAt(events, k))
    case Restore(persisted) => Min(persisted, MAX_PLAUSIBLE_MS)
    case _ => 0
  }

  lemma {:induction false} MarkMoves(events: seq<Event>, k: nat)
    requires k < |events|
    ensures Run(events[..k + 1]).highWater ==
      if SteadyAt(events, k) then Max(Run(events[..k]).highWater, MarkAt(events, k)) else MarkAt(events, k)
  {
    hide EffectiveOffset, Run;
    RunStep(events, k);
  }

  /** `x` is the largest mark put forward by the events from `r` on, up to but not including `n`. */
  ghost predicate IsTopMark(events: seq<Event>, r: nat, n: nat, x: int)
    requires n <= |events|
  {
    && (forall k :: r <= k < n ==> MarkAt(events, k) <= x)
    && (exists k :: r <= k < n && MarkAt(events, k) == x)
  }

  lemma {:induction false} TopMarkExtends(events: seq<Event>, r: nat, n: nat, x: int)
    requires r < n < |events| && IsTopMark(events, r, n, x)
    ensures IsTopMark(events, r, n + 1, Max(x, MarkAt(events, n)))
  {
    hide MarkAt;
    var k :| r <= k < n && MarkAt(events, k) == x;
    var best := if x >= MarkAt(events, n) then k else n;
    assert MarkAt(events, best) == Max(x, MarkAt(events, n));
  }

  /** The last change of the offset before event `n` was at `r`, or there was none and `r` is 0. */
  ghost predicate SettledSince(events: seq<Event>, r: nat, n: nat)
    requires n <= |events|
  {
    r < n && (r == 0 || !SteadyAt(events, r)) && forall k :: r < k < n ==> SteadyAt(events, k)
  }

  /** The high-water mark is the largest mark put forward since the offset last changed. */
  lemma {:induction false} HighWaterIsTopMark(events: seq<Event>, r: nat, n: nat)
    requires n <= |events| && SettledSince(events, r, n)
    ensures IsTopMark(events, r, n, Run(events[..n]).highWater)
  {
    hide MarkAt, SteadyAt, IsTopMark;
    MarkMoves(events, n - 1);
    if n == r + 1 {
      assert r == 0 ==> Run(events[..0]).highWater == 0;
      SingleTopMark(events, r);
    } else {
      HighWaterIsTopMark(events, r, n - 1);
      TopMarkExtends(events, r, n - 1, Run(events[..n - 1]).highWater);
    }
  }

  lemma {:induction false} SingleTopMark(events: seq<Event>, r: nat)
    requires r < |events|
    ensures IsTopMark(events, r, r + 1, MarkAt(events, r))
  {
    hide MarkAt;
  }

  /** The last change of the offset among the events from `i` on, before `n`. */
  lemma {:induction false} LastChange(events: seq<Event>, i: nat, n: nat) returns (r: nat)
    requires n <= |events| && i < n && !SteadyAt(events, i)
    ensures i <= r && SettledSince(events, r, n)
  {
    hide SteadyAt;
    if SteadyAt(events, n - 1) {
      r := LastChange(events, i, n - 1);
    } else {
      r := n - 1;
    }
  }

  /**
   * Exactly when the promise "the internal clock never decreases" fails, for arbitrary local readings:
   * the offset changed after the first call, and since then nothing as high was read or restored.
   */
  lemma {:induction false} DecreasesIff(events: seq<Event>, i: nat, j: nat)
    requires i < j < |events| && events[i].Now? && events[j].Now?
    ensures OutputAt(events, j) < OutputAt(events, i) <==>
      exists r :: i < r <= j && !SteadyAt(events, r) &&
        forall k :: r <= k <= j ==> MarkAt(events, k) < OutputAt(events, i)
  {
    hide SteadyAt, MarkAt;
    if forall k :: i < k <= j ==> SteadyAt(events, k) {
      NowIsMonotone(events, i, j);
    } else {
      var c :| i < c <= j && !SteadyAt(events, c);
      var last := LastChange(events, c, j + 1);
      HighWaterIsTopMark(events, last, j + 1);
      var top :| last <= top < j + 1 && MarkAt(events, top) == OutputAt(events, j);
      forall r | i < r <= j && !SteadyAt(events, r) ensures r <= top { }
    }
  }

  /** The local clock does not run backwards between readings and no old mark is restored. */
  ghost predicate LocalRises(events: seq<Event>) {
    && (forall i, j :: 0 <= i < j < |events| && events[i].Now? && events[j].Now? ==> events[i].local <= events[j].local)
    && (forall i :: 0 <= i < |events| ==> !events[i].Restore?)
  }

  /** The high-water mark is no higher than some earlier reading, shifted by the offset last used. */
  ghost predicate MarkBelow(s: State, local: LocalMs) { s.highWater <= Internal(local, s.lastOffset) }

  lemma MarkStep(s: State, e: Event, local: LocalMs)
    requires MarkBelow(s, local) && !e.Restore? && (e.Now? ==> e.local <= local)
    ensures MarkBelow(Step(s, e), local)
  {
  }

  lemma {:induction false} MarkStaysBelow(events: seq<Event>, i: nat, local: LocalMs)
    requires i <= |events| && LocalRises(events)
    requires forall k :: 0 <= k < i && events[k].Now? ==> events[k].local <= local
    ensures MarkBelow(Run(events[..i]), local)
  {
    hide Step;
    if i > 0 {
      MarkStaysBelow(events, i - 1, local);
      RunStep(events, i - 1);
      MarkStep(Run(events[..i - 1]), events[i - 1], local);
    }
  }

  /** On such a run `now` returns exactly the shifted reading: the mark never holds it up. */
  lemma {:induction false} NowTracksOffset(events: seq<Event>, i: nat)
    requires LocalRises(events) && i < |events| && events[i].Now?
    ensures OutputAt(events, i) == Internal(events[i].local, OffsetAt(events, i))
  {
    hide EffectiveOffset;
    MarkStaysBelow(events, i, events[i].local);
    RunStep(events, i);
  }

  /**
   * So it falls exactly when the offset falls by more than the local clock has moved on, unless both
   * readings are held at the same end of the range 0 .. i64::MAX.
   */
  lemma {:induction false} FallsIff(events: seq<Event>, i: nat, j: nat)
    requires LocalRises(events) && i < j < |events| && events[i].Now? && events[j].Now?
    ensures OutputAt(events, j) < OutputAt(events, i) <==> (
      && OffsetAt(events, i) - OffsetAt(events, j) > events[j].local - events[i].local
      && events[i].local + OffsetAt(events, i) > 0
      && events[j].local + OffsetAt(events, j) < I64_MAX)
  {
    NowTracksOffset(events, i);
    NowTracksOffset(events, j);
    hide OutputAt, OffsetAt;
  }

  lemma {:induction false} WithoutSamples(s: State, local: LocalMs)
    requires s.peers == map[] && !NetworkFresh(s, local)
    ensures EffectiveOffset(s, local) == 0
  {
  }

  /** A run on which it fails: network time puts the clock two minutes ahead, then goes stale. */
  const STALE_RUN: seq<Event> :=
    [ NetworkReading(1, 0, 120_000), NetworkReading(2, 0, 120_000),
      Now(NETWORK_FRESH_MS), Now(NETWORK_FRESH_MS + 1) ]

  lemma {:induction false} NowCanDecrease()
    ensures OutputAt(STALE_RUN, 3) < OutputAt(STALE_RUN, 2)
  {
    hide Consensus, FreshPeers, OffsetsOf;
    var s1 := Step(INITIAL, STALE_RUN[0]);
    var s2 := Step(s1, STALE_RUN[1]);
    assert s2.network == Some(120_000);
    var s3 := Step(s2, STALE_RUN[2]);
    WithoutSamples(s3, NETWORK_FRESH_MS + 1);
    var s4 := Step(s3, STALE_RUN[3]);
    assert s4.highWater < s3.highWater;
    RunStep(STALE_RUN, 0);
    RunStep(STALE_RUN, 1);
    RunStep(STALE_RUN, 2);
    RunStep(STALE_RUN, 3);
  }
}
