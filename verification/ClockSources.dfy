/**
 * Where the offset in force comes from: every field of the clock is determined by the calls made so far,
 * said in terms of those calls, their time stamps and the limits of the source.
 */
module ClockSources {
  import opened Common
  import opened Cluster
  import opened Clock
  import opened ClockRuns

  // ---------------------------------------------------------------- trust and samples

  /** Peer `p` was trusted before event `n` and not distrusted since. */
  ghost predicate TrustedAt(events: seq<Event>, n: nat, p: NodeId)
    requires n <= |events|
  {
    exists k :: 0 <= k < n && events[k] == Trust(p) && forall m :: k < m < n ==> events[m] != Distrust(p)
  }

  lemma {:induction false} TrustStep(s: State, e: Event, p: NodeId)
    ensures p in Step(s, e).trusted <==> e == Trust(p) || (p in s.trusted && e != Distrust(p))
  {
    hide EffectiveOffset;
  }

  lemma {:induction false} TrustIsHistory(events: seq<Event>, n: nat, p: NodeId)
    requires n <= |events|
    ensures p in Run(events[..n]).trusted <==> TrustedAt(events, n, p)
  {
    hide Step;
    if n > 0 {
      TrustIsHistory(events, n - 1, p);
      RunStep(events, n - 1);
      TrustStep(Run(events[..n - 1]), events[n - 1], p);
      assert events[n - 1] == Trust(p) ==> TrustedAt(events, n, p);
    }
  }

  /** The peer answered no earlier than it received, and the round trip is between 0 and 5 s. */
  ghost predicate GoodTiming(e: Event)
    requires e.PeerExchange?
  {
    e.t2 <= e.t3 && 0 <= SatI64(e.t4 - e.t1) - SatI64(e.t3 - e.t2) <= 5_000
  }

  /** Event `k` is an exchange of `p` that is taken. */
  ghost predicate TakenAt(events: seq<Event>, k: nat, p: NodeId)
    requires k < |events|
  {
    events[k].PeerExchange? && events[k].peer == p && TrustedAt(events, k, p) && GoodTiming(events[k])
  }

  /** Event `k` is the last exchange taken of `p` before event `n`, and `p` was not distrusted since. */
  ghost predicate SampleFrom(events: seq<Event>, n: nat, k: nat, p: NodeId)
    requires n <= |events|
  {
    k < n && TakenAt(events, k, p) && forall m :: k < m < n ==> !TakenAt(events, m, p) && events[m] != Distrust(p)
  }

  /** The sample an exchange leaves: its clamped offset, stamped with the arrival of the reply. */
  function SampleOf(e: Event): PeerSample
    requires e.PeerExchange?
  {
    PeerSample(Correction(RawOffset(e.t1, e.t2, e.t3, e.t4)), e.t4)
  }

  lemma {:induction false} SampleStep(s: State, e: Event, p: NodeId)
    ensures var s' := Step(s, e);
      if e.PeerExchange? && e.peer == p && p in s.trusted && GoodTiming(e) then
        p in s'.peers && s'.peers[p] == SampleOf(e)
      else if e == Distrust(p) then p !in s'.peers
      else (p in s'.peers <==> p in s.peers) && (p in s.peers ==> s'.peers[p] == s.peers[p])
  {
    hide EffectiveOffset;
  }

  ghost predicate HasSample(events: seq<Event>, n: nat, p: NodeId)
    requires n <= |events|
  {
    exists k: nat :: SampleFrom(events, n, k, p)
  }

  lemma {:induction false} SampleMoves(events: seq<Event>, n: nat, next: nat, p: NodeId)
    requires n < |events| && next == n + 1
    ensures TakenAt(events, n, p) ==>
      SampleFrom(events, next, n, p) && forall k: nat :: SampleFrom(events, next, k, p) ==> k == n
    ensures !TakenAt(events, n, p) && events[n] == Distrust(p) ==> !HasSample(events, next, p)
    ensures !TakenAt(events, n, p) && events[n] != Distrust(p) ==>
      forall k: nat :: SampleFrom(events, next, k, p) <==> SampleFrom(events, n, k, p)
  {
    hide TakenAt;
  }

  /** Over every run the sample of a peer is that of its last exchange taken, unless it was distrusted since. */
  lemma {:induction false} SamplesAreHistory(events: seq<Event>, n: nat, p: NodeId)
    requires n <= |events|
    ensures p in Run(events[..n]).peers <==> HasSample(events, n, p)
    ensures forall k: nat :: SampleFrom(events, n, k, p) ==>
      p in Run(events[..n]).peers && Run(events[..n]).peers[p] == SampleOf(events[k])
  {
    hide Step, SampleOf, GoodTiming, SampleFrom;
    if n == 0 {
      NoSampleYet(events, p);
    } else {
      SamplesAreHistory(events, n - 1, p);
      RunStep(events, n - 1);
      TrustIsHistory(events, n - 1, p);
      SampleStep(Run(events[..n - 1]), events[n - 1], p);
      SampleMoves(events, n - 1, n, p);
    }
  }

  lemma {:induction false} NoSampleYet(events: seq<Event>, p: NodeId)
    ensures !HasSample(events, 0, p) && Run(events[..0]) == INITIAL
  {
  }

  /** A peer counts at `local` exactly when the last exchange taken of it arrived at most 30 min before. */
  lemma {:induction false} FreshIff(events: seq<Event>, p: NodeId, local: LocalMs)
    ensures p in FreshPeers(Run(events).peers, local) <==>
      exists k: nat :: SampleFrom(events, |events|, k, p) && events[k].t4 >= local - 1_800_000
  {
    assert events[..|events|] == events;
    SamplesAreHistory(events, |events|, p);
    hide Run, SampleFrom;
  }

  /**
   * An honest exchange of a trusted peer whose wait fits in 64 bits is taken exactly when the path delay is
   * at most 5 s; the peer then counts exactly until 30 min after the reply arrived.
   */
  lemma {:induction false} HonestIsTaken(s: State, p: NodeId, theta: int, t1: I64, t2: I64, t3: I64, t4: I64,
                                         local: LocalMs)
    requires Honest(theta, t1, t2, t3, t4) && t2 <= t3 && t4 - t1 <= I64_MAX
    ensures var (s', r) := Exchange(s, p, t1, t2, t3, t4);
      && (r.Calibrated? <==> p in s.trusted && PathDelay(t1, t2, t3, t4) <= 5_000)
      && (r == Rejected(UntrustedPeer) <==> p !in s.trusted)
      && (r.Calibrated? ==> (p in FreshPeers(s'.peers, local) <==> local <= t4 + 1_800_000))
      && (r.Rejected? ==> s' == s)
  {
  }

  // ---------------------------------------------------------------- network time

  /** What a reading says the clock is off by, within a day. */
  function ReadingOffset(e: Event): int
    requires e.NetworkReading?
  {
    Clamp(SatI64(e.network - e.local), -86_400_000, 86_400_000)
  }

  /** The reading held back before event `n`: it waits for one of another source. */
  ghost function HeldBack(events: seq<Event>, n: nat): (r: Option<nat>)
    requires n <= |events|
    ensures r.Some? ==> r.value < n && events[r.value].NetworkReading?
  {
    if n == 0 then None else
      var before := HeldBack(events, n - 1);
      if !events[n - 1].NetworkReading? then before
      else if before.Some? && events[before.value].source != events[n - 1].source then None
      else Some(n - 1)
  }

  /** Event `n` is a reading of another source than the one held back. */
  ghost predicate CompletesPair(events: seq<Event>, n: nat)
    requires n < |events|
  {
    && events[n].NetworkReading? && HeldBack(events, n).Some?
    && events[HeldBack(events, n).value].source != events[n].source
  }

  /** The mean of a completed pair, rounded toward zero. */
  ghost function PairMean(events: seq<Event>, n: nat): int
    requires n < |events| && CompletesPair(events, n)
  {
    HalfTowardZero(ReadingOffset(events[HeldBack(events, n).value]) + ReadingOffset(events[n]))
  }

  /** The offset `now` last worked with. */
  ghost function LastUsed(events: seq<Event>, n: nat): int
    requires n <= |events|
  {
    if n == 0 then 0 else if events[n - 1].Now? then OffsetAt(events, n - 1) else LastUsed(events, n - 1)
  }

  /** The local time of the last adoption before event `n`; long ago if there was none. */
  ghost function AdoptedAtTime(events: seq<Event>, n: nat): int
    requires n <= |events|
    decreases n, 0
  {
    if n == 0 then -0x4000_0000_0000_0000
    else if AdoptedAt(events, n - 1) then events[n - 1].local else AdoptedAtTime(events, n - 1)
  }

  /** A completed pair is adopted if it agrees within 5 s, moves the clock at most 2 min and comes 10 min later. */
  ghost predicate AdoptedAt(events: seq<Event>, n: nat)
    requires n < |events|
    decreases n, 1
  {
    && CompletesPair(events, n)
    && Abs(ReadingOffset(events[HeldBack(events, n).value]) - ReadingOffset(events[n])) <= 5_000
    && Abs(PairMean(events, n) - LastUsed(events, n)) <= 120_000
    && events[n].local - AdoptedAtTime(events, n) >= 600_000
  }

  /** The last pair completed before event `n`, if any. */
  ghost function LastPair(events: seq<Event>, n: nat): (r: Option<nat>)
    requires n <= |events|
    ensures r.Some? ==> r.value < n && CompletesPair(events, r.value)
  {
    if n == 0 then None else if CompletesPair(events, n - 1) then Some(n - 1) else LastPair(events, n - 1)
  }

  /** The network fields of the clock, as the readings so far determine them. */
  ghost predicate NetworkMatches(events: seq<Event>, n: nat, s: State)
    requires n <= |events|
  {
    && s.pending == (match HeldBack(events, n)
                     case None => None
                     case Some(k) => Some(Reading(events[k].source, ReadingOffset(events[k]))))
    && s.lastOffset == LastUsed(events, n)
    && s.adoptedAt == AdoptedAtTime(events, n)
    && (match LastPair(events, n)
        case None => s.network == None
        case Some(k) =>
          if AdoptedAt(events, k) then
            s.network == Some(PairMean(events, k)) && s.freshUntil == events[k].local + 21_600_000
          else s.network == None)
  }

  lemma {:induction false} OtherEventsMatch(events: seq<Event>, n: nat, s: State)
    requires n < |events| && NetworkMatches(events, n, s) && s == Run(events[..n]) && !events[n].NetworkReading?
    ensures NetworkMatches(events, n + 1, Step(s, events[n]))
  {
    hide EffectiveOffset, Run;
    assert !CompletesPair(events, n) && !AdoptedAt(events, n);
    assert HeldBack(events, n + 1) == HeldBack(events, n) && LastPair(events, n + 1) == LastPair(events, n);
    assert AdoptedAtTime(events, n + 1) == AdoptedAtTime(events, n);
  }

  lemma {:induction false} AdoptsAsRead(events: seq<Event>, n: nat, s: State)
    requires n < |events| && NetworkMatches(events, n, s) && events[n].NetworkReading?
    ensures CompletesPair(events, n) <==> s.pending.Some? && s.pending.value.source != events[n].source
    ensures AdoptedAt(events, n) <==> AdoptsAt(s, events[n])
    ensures AdoptedAt(events, n) ==> AdoptedOffset(s, events[n].local, events[n].network) == PairMean(events, n)
  {
    hide HeldBack, LastUsed, AdoptedAtTime, LastPair;
  }

  lemma {:induction false} ReadingMatches(events: seq<Event>, n: nat, s: State)
    requires n < |events| && NetworkMatches(events, n, s) && events[n].NetworkReading?
    ensures NetworkMatches(events, n + 1, Step(s, events[n]))
  {
    AdoptsAsRead(events, n, s);
    assert HeldBack(events, n + 1) == if CompletesPair(events, n) then None else Some(n);
    assert LastPair(events, n + 1) == if CompletesPair(events, n) then Some(n) else LastPair(events, n);
    assert AdoptedAtTime(events, n + 1) == if AdoptedAt(events, n) then events[n].local else AdoptedAtTime(events, n);
    assert LastUsed(events, n + 1) == LastUsed(events, n);
    hide HeldBack, LastUsed, AdoptedAtTime, LastPair, PairMean, Adopts, AdoptedOffset;
  }

  /** Over every run, for arbitrary local readings, the network fields are what the readings determine. */
  lemma {:induction false} NetworkIsHistory(events: seq<Event>, n: nat)
    requires n <= |events|
    ensures NetworkMatches(events, n, Run(events[..n]))
  {
    if n > 0 {
      hide Step, NetworkMatches;
      NetworkIsHistory(events, n - 1);
      RunStep(events, n - 1);
      if events[n - 1].NetworkReading? {
        ReadingMatches(events, n - 1, Run(events[..n - 1]));
      } else {
        OtherEventsMatch(events, n - 1, Run(events[..n - 1]));
      }
    }
  }

  /** Network time is set exactly when the last pair completed was adopted, and then to that pair's mean. */
  lemma {:induction false} NetworkTimeIff(events: seq<Event>, x: int)
    ensures Run(events).network == Some(x) <==>
      var k := LastPair(events, |events|); k.Some? && AdoptedAt(events, k.value) && x == PairMean(events, k.value)
  {
    assert events[..|events|] == events;
    NetworkIsHistory(events, |events|);
    hide Run, HeldBack, LastUsed, AdoptedAtTime, LastPair, PairMean, AdoptedAt;
  }

  // ---------------------------------------------------------------- the offset in force

  /** The last pair completed was adopted, at most 6 h before `local`. */
  ghost predicate NetworkInForce(events: seq<Event>, local: LocalMs) {
    var k := LastPair(events, |events|);
    k.Some? && AdoptedAt(events, k.value) && local <= events[k.value].local + 21_600_000
  }

  /**
   * Network time in force overrides whatever the peers say; otherwise the offset is the middle of the first
   * longest cluster of fresh samples, and zero if no cluster has three.
   */
  lemma {:induction false} OffsetInForce(events: seq<Event>, local: LocalMs, offsets: seq<int>)
    requires Sorted(offsets) && multiset(offsets) == FreshOffsets(Run(events), local)
    ensures var x := EffectiveOffset(Run(events), local);
      if NetworkInForce(events, local) then x == PairMean(events, LastPair(events, |events|).value)
      else IsConsensus(offsets, x) || (x == 0 && forall y :: !IsConsensus(offsets, y))
  {
    assert events[..|events|] == events;
    NetworkIsHistory(events, |events|);
    forall y ensures Consensus(multiset(offsets)) == Some(y) <==> IsConsensus(offsets, y) {
      ConsensusIff(multiset(offsets), offsets, y);
    }
    hide Run, HeldBack, LastUsed, AdoptedAtTime, LastPair, PairMean, AdoptedAt, Consensus, IsConsensus, FreshOffsets;
    EffectiveCases(Run(events), local);
  }

  lemma {:induction false} EffectiveCases(s: State, local: LocalMs)
    ensures EffectiveOffset(s, local) ==
      if s.network.Some? && local <= s.freshUntil then s.network.value
      else if Consensus(FreshOffsets(s, local)).Some? then Consensus(FreshOffsets(s, local)).value else 0
  {
  }

  // ---------------------------------------------------------------- rollback detection

  /** The highest local reading before event `n`. */
  ghost function TopLocal(events: seq<Event>, n: nat): int
    requires n <= |events|
  {
    if n == 0 then -0x4000_0000_0000_0000
    else if events[n - 1].Now? then Max(TopLocal(events, n - 1), events[n - 1].local) else TopLocal(events, n - 1)
  }

  /** Some reading was more than a minute below the highest, and none since has been higher still. */
  ghost predicate RolledBack(events: seq<Event>, n: nat)
    requires n <= |events|
  {
    exists k :: 0 <= k < n && FallsBack(events, k) && forall m :: k < m < n ==> !RisesAbove(events, m)
  }

  ghost predicate FallsBack(events: seq<Event>, k: nat)
    requires k < |events|
  {
    events[k].Now? && events[k].local < TopLocal(events, k) - 60_000
  }

  ghost predicate RisesAbove(events: seq<Event>, k: nat)
    requires k < |events|
  {
    events[k].Now? && events[k].local > TopLocal(events, k)
  }

  lemma {:induction false} RollbackStep(s: State, e: Event)
    requires s.localHighWater >= LONG_AGO
    ensures Step(s, e).localHighWater == if e.Now? then Max(s.localHighWater, e.local) else s.localHighWater
    ensures Step(s, e).rollback <==>
      if e.Now? then (s.rollback || e.local < s.localHighWater - 60_000) && !(e.local > s.localHighWater)
      else s.rollback
  {
    hide EffectiveOffset;
  }

  lemma {:induction false} RolledBackStep(events: seq<Event>, n: nat)
    requires n < |events|
    ensures RolledBack(events, n + 1) <==>
      (RolledBack(events, n) || FallsBack(events, n)) && !RisesAbove(events, n)
  {
    hide TopLocal;
    if FallsBack(events, n) { assert RolledBack(events, n + 1); }
  }

  /** The rollback flag over every run: raised and lowered exactly as the local readings say. */
  lemma {:induction false} RollbackIsHistory(events: seq<Event>, n: nat)
    requires n <= |events|
    ensures Run(events[..n]).localHighWater == TopLocal(events, n) >= -0x4000_0000_0000_0000
    ensures Run(events[..n]).rollback <==> RolledBack(events, n)
  {
    if n > 0 {
      RollbackIsHistory(events, n - 1);
      RunStep(events, n - 1);
      RolledBackStep(events, n - 1);
      hide Step, Run, RolledBack;
      RollbackStep(Run(events[..n - 1]), events[n - 1]);
    }
  }
}
