/**
 * The mailbox gate driven by the internal clock: the replay window consumes `InternalClock::now`,
 * so how far that clock can fall back decides whether a write can pass twice.
 */
module ClockedMailbox {
  import opened Common
  import opened Cluster
  import opened Clock
  import opened ClockRuns
  import opened Payloads
  import Mailbox

  /** Call `k` of the gate is timed by what the clock returned at event `at[k]`. */
  ghost predicate TimedBy(g: Mailbox.Gate, events: seq<Event>, at: seq<nat>) {
    && |at| == |g.calls|
    && (forall k :: 0 <= k < |at| ==> at[k] < |events| && events[at[k]].Now?)
    && (forall k :: 0 <= k < |at| ==> g.calls[k].now == OutputAt(events, at[k]))
    && (forall k, l :: 0 <= k < l < |at| ==> at[k] < at[l])
  }

  /** While the offset in force stays put, no write passes twice, however the local clock is turned. */
  lemma {:induction false} SteadyClockAtMostOnce(g: Mailbox.Gate, events: seq<Event>, at: seq<nat>, i: nat, j: nat)
    requires TimedBy(g, events, at) && i < j < |at|
    requires forall k: nat :: k < |events| ==> SteadyAt(events, k)
    requires g.calls[i].write == g.calls[j].write
    ensures !(g.Accepted(i) && g.Accepted(j))
  {
    forall a, b | 0 <= a < b < |g.calls| ensures g.calls[a].now <= g.calls[b].now {
      NowIsMonotone(events, at[a], at[b]);
    }
    hide Mailbox.Verifies;
    Mailbox.AtMostOnce(g, i, j);
  }

  // ---------------------------------------------------------------- changing offsets

  /**
   * Recalibrations do not reopen the window as long as the offset never falls, from any source, by four
   * minutes more than the local clock has moved on: no write passes twice.
   */
  lemma {:induction false} SmallShiftsAtMostOnce(g: Mailbox.Gate, events: seq<Event>, at: seq<nat>, i: nat, j: nat)
    requires TimedBy(g, events, at) && LocalRises(events) && i < j < |at|
    requires forall k, l :: 0 <= k < l < |events| && events[k].Now? && events[l].Now? ==>
      OffsetAt(events, k) - OffsetAt(events, l) < Minutes(4) + events[l].local - events[k].local
    requires g.calls[i].write == g.calls[j].write
    ensures !(g.Accepted(i) && g.Accepted(j))
  {
    hide OffsetAt, OutputAt;
    forall a, b | 0 <= a < b < |g.calls| ensures g.calls[b].now > g.calls[a].now - Minutes(4) {
      NowTracksOffset(events, at[a]);
      NowTracksOffset(events, at[b]);
    }
    hide Mailbox.Verifies;
    Mailbox.AtMostOnce(g, i, j);
  }

  /**
   * Exactly when the clock reopens the window: an accepted write that passes again is accepted again if and
   * only if some passing call in between had a shifted reading 9 min or more past its stamp, and there is room.
   */
  lemma {:induction false} ClockReplaysIff(g: Mailbox.Gate, events: seq<Event>, at: seq<nat>, i: nat, j: nat)
    requires TimedBy(g, events, at) && LocalRises(events) && i < j < |at|
    requires g.Accepted(i) && g.Passes(j) && g.calls[i].write == g.calls[j].write
    requires forall m :: i < m < j && g.Id(m) == g.Id(i) ==> !g.Accepted(m)
    ensures g.Accepted(j) <==> (
      && (exists m :: i < m < j && g.Passes(m) &&
           Internal(events[at[m]].local, OffsetAt(events, at[m])) >= g.Ts(i) + Minutes(9))
      && |Mailbox.HeldIds(g, j, j + 1)| < g.cap)
  {
    hide OffsetAt, OutputAt, Internal, Mailbox.Inbound, Mailbox.Verifies, Mailbox.HeldIds;
    forall m | i < m < j ensures g.calls[m].now == Internal(events[at[m]].local, OffsetAt(events, at[m])) {
      NowTracksOffset(events, at[m]);
    }
    Mailbox.ReplayedIff(g, i, j);
  }

  // ---------------------------------------------------------------- a run that reopens the window

  /**
   * Three adoptions take the clock six minutes ahead; then two disagreeing readings clear network time
   * and the offset is zero at once. The local clock rises throughout.
   */
  function ResetRun(): seq<Event> {
    [ NetworkReading(1, 0, 120_000), NetworkReading(2, 0, 120_000), Now(0),
      NetworkReading(1, 600_000, 840_000), NetworkReading(2, 600_000, 840_000), Now(600_000),
      NetworkReading(1, 1_200_000, 1_560_000), NetworkReading(2, 1_200_000, 1_560_000), Now(1_200_000),
      Now(1_440_000),
      NetworkReading(1, 1_440_000, 1_440_000), NetworkReading(2, 1_440_000, 9_000_000), Now(1_440_000) ]
  }

  ghost function ThreeSteps(s: State, events: seq<Event>, k: nat): State
    requires k + 3 <= |events|
  {
    Step(Step(Step(s, events[k]), events[k + 1]), events[k + 2])
  }

  lemma {:induction false} RunThree(events: seq<Event>, k: nat)
    requires k + 3 <= |events|
    ensures Run(events[..k + 3]) == ThreeSteps(Run(events[..k]), events, k)
  {
    hide Step, Run;
    RunStep(events, k);
    RunStep(events, k + 1);
    RunStep(events, k + 2);
  }

  /** The clock runs on fresh network time, with nothing pending and no peers. */
  ghost predicate OnNetwork(s: State, local: int, offset: int) {
    && s.network == Some(offset) && s.freshUntil == local + NETWORK_FRESH_MS && s.adoptedAt == local
    && s.pending == None && s.peers == map[] && s.lastOffset == offset
  }

  /** A reading of each of two sources at `local`, then a call of `now`. */
  ghost predicate Triple(events: seq<Event>, k: nat, local: LocalMs, network: I64, other: I64) {
    && k + 3 <= |events|
    && events[k] == NetworkReading(1, local, network) && events[k + 1] == NetworkReading(2, local, other)
    && events[k + 2] == Now(local)
  }

  /** Nothing is pending, there are no peers and the cooldown is over at `local`. */
  ghost predicate Ready(s: State, offset: int, local: LocalMs) {
    && s.pending == None && s.peers == map[] && s.lastOffset == offset
    && SatI64(local - s.adoptedAt) >= NETWORK_ADOPTION_COOLDOWN_MS
  }

  /** If the sources agree, their offset is in force. */
  lemma {:induction false} AdoptAndRead(s: State, events: seq<Event>, k: nat, offset: int, local: LocalMs, network: I64)
    requires Triple(events, k, local, network, network) && Ready(s, offset, local) && network >= 0
    requires 0 < network - local - offset <= NETWORK_ADOPTION_CAP_MS && 0 <= network - local <= MAX_CORRECTION_MS
    ensures OnNetwork(ThreeSteps(s, events, k), local, network - local)
    ensures ThreeSteps(s, events, k).highWater == network
  {
    hide Consensus, FreshPeers, OffsetsOf;
  }

  /** If they disagree, the offset is gone at once. */
  lemma {:induction false} DisagreeAndRead(s: State, events: seq<Event>, k: nat, local: LocalMs, network: I64,
                                           other: I64)
    requires Triple(events, k, local, network, other)
    requires s.pending == None && s.peers == map[] && s.lastOffset != 0 && local >= 0
    requires Abs(network - local) <= MAX_CORRECTION_MS && Abs(other - local) <= MAX_CORRECTION_MS
    requires Abs(network - other) > CROSS_CHECK_TOLERANCE_MS
    ensures ThreeSteps(s, events, k).highWater == local
  {
    hide Consensus, FreshPeers, OffsetsOf;
    WithoutSamples(Step(Step(s, events[k]), events[k + 1]), local);
  }

  lemma {:induction false} ReadAgain(s: State, at: LocalMs, offset: int, local: LocalMs)
    requires OnNetwork(s, at, offset) && at <= local <= at + NETWORK_FRESH_MS && s.highWater == at + offset
    requires 0 <= local + offset <= I64_MAX
    ensures NowStep(s, local).highWater == local + offset
    ensures OnNetwork(NowStep(s, local), at, offset)
  {
    hide Consensus, FreshPeers, OffsetsOf;
  }

  /** The shape of `ResetRun`, event by event. */
  ghost predicate IsReset(events: seq<Event>) {
    && |events| == 13
    && Triple(events, 0, 0, 120_000, 120_000)
    && Triple(events, 3, 600_000, 840_000, 840_000)
    && Triple(events, 6, 1_200_000, 1_560_000, 1_560_000)
    && events[9] == Now(1_440_000)
    && Triple(events, 10, 1_440_000, 1_440_000, 9_000_000)
  }

  lemma {:induction false} AdoptNext(events: seq<Event>, k: nat, offset: int, local: LocalMs, network: I64)
    requires Triple(events, k, local, network, network) && Ready(Run(events[..k]), offset, local) && network >= 0
    requires 0 < network - local - offset <= NETWORK_ADOPTION_CAP_MS && 0 <= network - local <= MAX_CORRECTION_MS
    ensures OnNetwork(Run(events[..k + 3]), local, network - local) && Run(events[..k + 3]).highWater == network
  {
    hide Run, ThreeSteps, Ready, OnNetwork;
    RunThree(events, k);
    AdoptAndRead(Run(events[..k]), events, k, offset, local, network);
  }

  lemma {:induction false} ReadyAtStart(events: seq<Event>)
    ensures Ready(Run(events[..0]), 0, 0)
  {
    assert events[..0] == [];
  }

  lemma {:induction false} ReadyAgain(s: State, at: LocalMs, offset: int, local: LocalMs)
    requires OnNetwork(s, at, offset) && at + NETWORK_ADOPTION_COOLDOWN_MS <= local <= I64_MAX + at
    ensures Ready(s, offset, local)
  {
  }

  lemma {:induction false} ResetAdopts(events: seq<Event>)
    requires IsReset(events)
    ensures OnNetwork(Run(events[..9]), 1_200_000, 360_000) && Run(events[..9]).highWater == 1_560_000
  {
    hide Run, Triple, OnNetwork, Ready;
    ReadyAtStart(events);
    AdoptNext(events, 0, 0, 0, 120_000);
    ReadyAgain(Run(events[..3]), 0, 120_000, 600_000);
    AdoptNext(events, 3, 120_000, 600_000, 840_000);
    ReadyAgain(Run(events[..6]), 600_000, 240_000, 1_200_000);
    AdoptNext(events, 6, 240_000, 1_200_000, 1_560_000);
  }

  lemma {:induction false} ResetOutputs(events: seq<Event>)
    requires IsReset(events)
    ensures OutputAt(events, 8) == 1_560_000 && OutputAt(events, 9) == 1_800_000
    ensures OutputAt(events, 12) == 1_440_000
  {
    hide Run, ThreeSteps, Triple, NowStep;
    ResetAdopts(events);
    RunStep(events, 9);
    ReadAgain(Run(events[..9]), 1_200_000, 360_000, 1_440_000);
    RunThree(events, 10);
    DisagreeAndRead(Run(events[..10]), events, 10, 1_440_000, 1_440_000, 9_000_000);
  }

  lemma {:induction false} ResetTimes(g: Mailbox.Gate, events: seq<Event>)
    requires IsReset(events) && |g.calls| == 3
    requires g.calls[0].now == 1_560_000 && g.calls[1].now == 1_800_000 && g.calls[2].now == 1_440_000
    ensures LocalRises(events) && TimedBy(g, events, [8, 9, 12])
  {
    hide OutputAt;
    ResetOutputs(events);
  }

  /** A write, another one, and the first again. */
  function ReplayGate(mac: Mailbox.Mac, cap: nat, secret: Bytes32, w: BucketWrite, other: BucketWrite): Mailbox.Gate {
    Mailbox.Gate(mac, cap, [ Mailbox.Call(w, secret, 1_560_000), Mailbox.Call(other, secret, 1_800_000),
                             Mailbox.Call(w, secret, 1_440_000) ])
  }

  lemma {:induction false} ReplayGateReplays(mac: Mailbox.Mac, cap: nat, secret: Bytes32, w: BucketWrite,
                                             other: BucketWrite)
    requires cap >= 2 && w.envelope.msgId != other.envelope.msgId && w.ts == 1_260_000
    requires Mailbox.Verifies(mac, w, secret, 1_560_000) && Mailbox.Verifies(mac, other, secret, 1_800_000)
    requires Mailbox.Verifies(mac, w, secret, 1_440_000)
    ensures var g := ReplayGate(mac, cap, secret, w, other); g.Accepted(0) && g.Accepted(2)
  {
    hide Mailbox.Inbound, Mailbox.Verifies;
    Mailbox.ThirdCallReplays(ReplayGate(mac, cap, secret, w, other));
  }

  /** On that run a gate accepts the same sealed write twice, whatever the MAC, the secret and the two envelopes. */
  lemma {:induction false} ResetReplays(mac: Mailbox.Mac, cap: nat, secret: Bytes32, serial: U32, nonce: Bytes16,
                                        e: Envelope, f: Envelope)
    requires cap >= 2 && e.msgId != f.msgId
    ensures var w := Mailbox.Seal(mac, e, secret, serial, 1_260_000, nonce);
      var other := Mailbox.Seal(mac, f, secret, serial, 1_800_000, nonce);
      var g := ReplayGate(mac, cap, secret, w, other);
      && LocalRises(ResetRun()) && TimedBy(g, ResetRun(), [8, 9, 12])
      && g.Accepted(0) && g.Accepted(2)
  {
    var w := Mailbox.Seal(mac, e, secret, serial, 1_260_000, nonce);
    var other := Mailbox.Seal(mac, f, secret, serial, 1_800_000, nonce);
    Mailbox.SealedVerifies(mac, e, secret, serial, 1_260_000, nonce, 1_560_000);
    Mailbox.SealedVerifies(mac, e, secret, serial, 1_260_000, nonce, 1_440_000);
    Mailbox.SealedVerifies(mac, f, secret, serial, 1_800_000, nonce, 1_800_000);
    hide *;
    ReplayGateReplays(mac, cap, secret, w, other);
    ResetRunIsReset();
    ResetTimes(ReplayGate(mac, cap, secret, w, other), ResetRun());
  }

  lemma {:induction false} ResetRunIsReset()
    ensures IsReset(ResetRun())
  {
  }
}
