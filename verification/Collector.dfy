/** The scanning side of the animated QR code (android/.../addfriend/AddFriendPayload.kt, `FrameCollector`). */
module Collector {
  import opened Common
  import opened Base64
  import opened AddFriend
  import opened QrFrames

  /** The collecting time unless a caller asks for another. */
  const MIN_COLLECT_MS := 3_000

  datatype State = State(
    chunks: map<int, string>, sid: Option<string>, total: int, firstSeen: int, parsed: bool, payload: Option<Payload>)

  const EMPTY := State(map[], None, -1, -1, false, None)

  /** What a call reports. */
  datatype Report = Report(collected: nat, total: int, elapsed: int, complete: bool, payload: Option<Payload>)

  function Elapsed(s: State, now: int): int { if s.firstSeen < 0 then 0 else now - s.firstSeen }

  /** The text of the segments from `i` on; absent and undecodable ones are skipped. */
  function Reassemble(j: Platform, chunks: map<int, string>, i: nat, total: nat): string
    requires i <= total
    decreases total - i
  {
    if i == total then "" else
      var rest := Reassemble(j, chunks, i + 1, total);
      if i !in chunks then rest else
        match j.decode(chunks[i]) case None => rest case Some(b) => j.fromUtf8(b) + rest
  }

  predicate Ready(s: State, minMs: int, now: int) {
    s.total > 0 && |s.chunks| >= s.total && Elapsed(s, now) >= minMs
  }

  /** Every call ends here: once all indices are in and the time is up, the payload is parsed, once. */
  function Tick(j: Platform, minMs: int, s: State, now: int): State {
    if Ready(s, minMs, now) && !s.parsed
    then s.(parsed := true, payload := AddFriend.Parse(j, Reassemble(j, s.chunks, 0, s.total)))
    else s
  }

  function Locked(s: State, f: Frame, now: int): State {
    if s.sid == None then s.(sid := Some(f.sid), total := f.count, firstSeen := now) else s
  }

  function Stored(s: State, f: Frame, text: string): State {
    if s.sid == Some(f.sid) && s.total == f.count && ChunkOf(text).Some?
    then s.(chunks := s.chunks[f.index := ChunkOf(text).value]) else s
  }

  function NextState(j: Platform, minMs: int, s: State, text: string, now: int): State {
    if IsNoise(text) || ParseFrame(text).None? then Tick(j, minMs, s, now)
    else Tick(j, minMs, Stored(Locked(s, ParseFrame(text).value, now), ParseFrame(text).value, text), now)
  }

  function ReportOf(s: State, now: int): Report {
    Report(|s.chunks|, if s.total < 0 then 0 else s.total, Elapsed(s, now), s.payload.Some?, s.payload)
  }

  class FrameCollector {
    const platform: Platform
    const minCollectMs: int
    var chunks: map<int, string>
    var sid: Option<string>
    var total: int
    var firstSeenMs: int
    var parsed: bool
    var payload: Option<Payload>

    ghost function Model(): State
      reads this
    {
      State(chunks, sid, total, firstSeenMs, parsed, payload)
    }

    constructor (platform: Platform, minCollectMs: int := MIN_COLLECT_MS)
      ensures Model() == EMPTY && this.platform == platform && this.minCollectMs == minCollectMs
    {
      this.platform, this.minCollectMs := platform, minCollectMs;
      chunks, sid, total, firstSeenMs, parsed, payload := map[], None, -1, -1, false, None;
    }

    method Assemble() returns (text: string)
      requires total >= 0
      ensures text == Reassemble(platform, chunks, 0, total)
    {
      text := "";
      for i := 0 to total
        invariant text + Reassemble(platform, chunks, i, total) == Reassemble(platform, chunks, 0, total)
      {
        if i in chunks {
          var b := platform.decode(chunks[i]);
          if b.Some? { text := text + platform.fromUtf8(b.value); }
        }
      }
      assert text + "" == text;
    }

    method Snapshot(now: int) returns (r: Report)
      modifies this
      ensures Model() == Tick(platform, minCollectMs, old(Model()), now) && r == ReportOf(Model(), now)
    {
      hide AddFriend.Parse, Reassemble;
      var elapsed := if firstSeenMs < 0 then 0 else now - firstSeenMs;
      var allCollected := total > 0 && |chunks| >= total;
      var enoughTime := elapsed >= minCollectMs;
      if allCollected && enoughTime && !parsed {
        parsed := true;
        var text := Assemble();
        payload := AddFriend.Parse(platform, text);
      }
      r := Report(|chunks|, if total < 0 then 0 else total, elapsed, payload.Some?, payload);
    }

    method OnFrame(text: string, now: int) returns (r: Report)
      modifies this
      ensures Model() == NextState(platform, minCollectMs, old(Model()), text, now) && r == ReportOf(Model(), now)
    {
      hide IsNoise, ParseFrame, ChunkOf, Tick;
      if IsNoise(text) {
        r := Snapshot(now);
        return;
      }
      var f := ParseFrame(text);
      if f.None? {
        r := Snapshot(now);
        return;
      }
      if sid == None {
        sid, total, firstSeenMs := Some(f.value.sid), f.value.count, now;
      }
      if Some(f.value.sid) != sid || f.value.count != total {
        r := Snapshot(now);
        return;
      }
      var d := ChunkOf(text);
      if d.Some? { chunks := chunks[f.value.index := d.value]; }
      r := Snapshot(now);
    }

    method Reset()
      modifies this
      ensures Model() == EMPTY
    {
      chunks, sid, total, firstSeenMs, parsed, payload := map[], None, -1, -1, false, None;
    }
  }

  // ---------------------------------------------------------------- runs since the last reset

  /** A scanned text, or a UI tick when there is none. */
  datatype Event = Event(text: Option<string>, now: nat)

  function Step(j: Platform, minMs: int, s: State, e: Event): State {
    match e.text
    case Some(text) => NextState(j, minMs, s, text, e.now)
    case None => Tick(j, minMs, s, e.now)
  }

  ghost function Run(j: Platform, minMs: int, events: seq<Event>): State {
    if events == [] then EMPTY else
      Step(j, minMs, Run(j, minMs, events[..|events| - 1]), events[|events| - 1])
  }

  /** The frame an event delivers, if its text is one and not noise. */
  function Delivers(e: Event): (r: Option<Frame>)
    ensures r.Some? ==> e.text.Some?
  {
    match e.text
    case None => None
    case Some(text) => if IsNoise(text) then None else ParseFrame(text)
  }

  /** The index an event adds to the session `sid` of `count` frames, if it carries data for it. */
  function Adds(e: Event, sid: string, count: nat): Option<int> {
    match Delivers(e)
    case None => None
    case Some(f) => if f.sid == sid && f.count == count && ChunkOf(e.text.value).Some? then Some(f.index) else None
  }

  ghost function Seen(events: seq<Event>, sid: string, count: nat): set<int> {
    set k | 0 <= k < |events| && Adds(events[k], sid, count).Some? :: Adds(events[k], sid, count).value
  }

  /** The time of the first frame, which locks the session. */
  ghost function LockTime(events: seq<Event>): int {
    if events == [] then -1 else
      var before := LockTime(events[..|events| - 1]);
      if before < 0 && Delivers(events[|events| - 1]).Some? then events[|events| - 1].now else before
  }

  ghost predicate TimeRises(events: seq<Event>) {
    forall a, b :: 0 <= a < b < |events| ==> events[a].now <= events[b].now
  }

  /** Every frame that carries data for the session carries what the sender cut. */
  ghost predicate Genuine(j: Platform, text: string, sid: string, e: Event) {
    Adds(e, sid, Count(text)).Some? ==>
      var i := Adds(e, sid, Count(text)).value;
      0 <= i < Count(text) && ChunkOf(e.text.value).value == Data(j, text, i)
  }

  // ---------------------------------------------------------------- reassembly

  lemma PieceAndRest(text: string, i: nat)
    requires i < Count(text)
    ensures i * CHUNK_SIZE < |text| && (i + 1 < Count(text) ==> (i + 1) * CHUNK_SIZE < |text|)
    ensures i + 1 == Count(text) ==> (i + 1) * CHUNK_SIZE >= |text|
    ensures text[i * CHUNK_SIZE..] == Piece(text, i) + text[Min((i + 1) * CHUNK_SIZE, |text|)..]
  {
  }

  lemma DataDecodes(j: Platform, text: string, i: nat)
    requires Faithful(j) && i < Count(text)
    ensures j.decode(Data(j, text, i)).Some? && j.fromUtf8(j.decode(Data(j, text, i)).value) == Piece(text, i)
  {
  }

  lemma {:induction false} ReassembleTail(j: Platform, text: string, chunks: map<int, string>, i: nat)
    requires Faithful(j) && i <= Count(text)
    requires forall k :: 0 <= k < Count(text) ==> k in chunks && chunks[k] == Data(j, text, k)
    ensures Reassemble(j, chunks, i, Count(text)) == text[Min(i * CHUNK_SIZE, |text|)..]
    decreases Count(text) - i
  {
    if i < Count(text) {
      ReassembleTail(j, text, chunks, i + 1);
      PieceAndRest(text, i);
      DataDecodes(j, text, i);
      hide Piece, Data;
    } else {
      assert i * CHUNK_SIZE >= |text|;
    }
  }

  /** Counting keys is enough: `n` distinct keys below `n` are all of them. */
  lemma Pigeonhole(keys: set<int>, n: nat)
    requires forall k :: k in keys ==> 0 <= k < n
    ensures |keys| >= n <==> forall k :: 0 <= k < n ==> k in keys
  {
    var all := Range(0, n);
    assert keys <= all;
    assert all == keys + (all - keys);
    if |keys| >= n {
      assert all - keys == {};
      assert forall k :: 0 <= k < n ==> k in all;
    }
    if forall k :: 0 <= k < n ==> k in keys { assert keys == all; }
  }

  // ---------------------------------------------------------------- the session invariant

  ghost predicate OnSession(s: State, sid: string, count: nat) { s.sid == Some(sid) && s.total == count }

  /** What the collector knows once it is locked to a genuine session, apart from having parsed it. */
  ghost predicate Holds(j: Platform, text: string, s: State, seen: set<int>, lock: int) {
    && s.chunks.Keys == seen
    && (forall k :: k in seen ==> 0 <= k < Count(text) && s.chunks[k] == Data(j, text, k))
    && s.firstSeen == lock >= 0
  }

  ghost predicate Finished(s: State, p: Payload, ready: bool) {
    s.parsed == ready && s.payload == if ready then Some(p) else None
  }

  /** One event on a locked session: the chunks grow by what it adds. */
  lemma SessionGrows(j: Platform, p: Payload, sid: string, s: State, e: Event, seen: set<int>, lock: int)
    requires var text := AddFriend.Encode(j, p);
      OnSession(s, sid, Count(text)) && Holds(j, text, s, seen, lock) && Genuine(j, text, sid, e)
    ensures var (text, f) := (AddFriend.Encode(j, p), Delivers(e));
      var s' := if f.None? then s else Stored(s, f.value, e.text.value);
      var add := Adds(e, sid, Count(text));
      && OnSession(s', sid, Count(text)) && s'.parsed == s.parsed && s'.payload == s.payload
      && Holds(j, text, s', if add.None? then seen else seen + {add.value}, lock)
  {
    hide AddFriend.Encode, Data, ChunkOf, Delivers;
  }

  /** Ticking a session that holds genuine chunks parses exactly when it is due. */
  lemma TickFinishes(j: Platform, minMs: int, p: Payload, sid: string, s: State, seen: set<int>, lock: int,
                     now: nat, was: bool)
    requires Faithful(j) && IsValid(p)
    requires var text := AddFriend.Encode(j, p); OnSession(s, sid, Count(text)) && Holds(j, text, s, seen, lock)
    requires Finished(s, p, was) && (was ==> Due(AddFriend.Encode(j, p), seen, lock, minMs, now))
    ensures var (text, s') := (AddFriend.Encode(j, p), Tick(j, minMs, s, now));
      && OnSession(s', sid, Count(text)) && Holds(j, text, s', seen, lock)
      && Finished(s', p, Due(text, seen, lock, minMs, now))
  {
    var text := AddFriend.Encode(j, p);
    TextIsLong(j, p);
    hide AddFriend.Encode, Data, Reassemble, AddFriend.Parse;
    Pigeonhole(seen, Count(text));
    assert |s.chunks| == |s.chunks.Keys|;
    if Ready(s, minMs, now) && !s.parsed {
      ReassembleTail(j, text, s.chunks, 0);
      assert text[0..] == text;
      PayloadRoundTrip(j, p);
    }
  }

  lemma TextIsLong(j: Platform, p: Payload)
    ensures Count(AddFriend.Encode(j, p)) > 0
  {
  }

  /** Every index has been seen and the collecting time is over. */
  ghost predicate Due(text: string, seen: set<int>, lock: int, minMs: int, now: int) {
    (forall k :: 0 <= k < Count(text) ==> k in seen) && now - lock >= minMs
  }

  // ---------------------------------------------------------------- the run invariant

  lemma SeenGrows(before: seq<Event>, e: Event, sid: string, count: nat)
    ensures Seen(before + [e], sid, count) ==
      Seen(before, sid, count) + (if Adds(e, sid, count).Some? then {Adds(e, sid, count).value} else {})
  {
    hide Adds;
    var events := before + [e];
    forall k | 0 <= k < |before| ensures events[k] == before[k] {}
    assert events[|before|] == e;
    forall x | x in Seen(before, sid, count) ensures x in Seen(events, sid, count) {
      var k :| 0 <= k < |before| && Adds(before[k], sid, count).Some? && x == Adds(before[k], sid, count).value;
      assert events[k] == before[k];
    }
  }

  /** The state and what the events so far say about it. */
  ghost predicate Consistent(j: Platform, minMs: int, p: Payload, sid: string, s: State, seen: set<int>, lock: int,
                             now: int)
  {
    var text := AddFriend.Encode(j, p);
    && (s.sid == None ==> s == EMPTY && lock == -1 && seen == {})
    && (s.sid != None ==> lock >= 0)
    && (OnSession(s, sid, Count(text)) ==>
          Holds(j, text, s, seen, lock) && Finished(s, p, Due(text, seen, lock, minMs, now)))
  }

  lemma UnlockedIdles(j: Platform, minMs: int, e: Event)
    requires Delivers(e).None?
    ensures Step(j, minMs, EMPTY, e) == EMPTY
  {
  }

  lemma StepUnfolds(j: Platform, minMs: int, s: State, e: Event)
    ensures Delivers(e).None? ==> Step(j, minMs, s, e) == Tick(j, minMs, s, e.now)
    ensures Delivers(e).Some? ==>
      var f := Delivers(e).value;
      Step(j, minMs, s, e) == Tick(j, minMs, Stored(Locked(s, f, e.now), f, e.text.value), e.now)
  {
  }

  lemma OtherSessionStays(j: Platform, minMs: int, s: State, e: Event)
    requires s.sid != None
    ensures Step(j, minMs, s, e).sid == s.sid && Step(j, minMs, s, e).total == s.total
  {
  }

  lemma LockTakesSession(j: Platform, minMs: int, e: Event)
    requires Delivers(e).Some?
    ensures var (s, f) := (Step(j, minMs, EMPTY, e), Delivers(e).value); s.sid == Some(f.sid) && s.total == f.count
  {
  }

  lemma DueStays(text: string, seen: set<int>, more: set<int>, lock: int, minMs: int, now: int, later: int)
    requires Due(text, seen, lock, minMs, now) && seen <= more && now <= later
    ensures Due(text, more, lock, minMs, later)
  {
  }

  /** One event on the session, from a state that was finished or not, as it was due. */
  lemma SessionStep(j: Platform, minMs: int, p: Payload, sid: string, s: State, e: Event, seen: set<int>, lock: int,
                    was: bool)
    requires Faithful(j) && IsValid(p) && Genuine(j, AddFriend.Encode(j, p), sid, e)
    requires var text := AddFriend.Encode(j, p); OnSession(s, sid, Count(text)) && Holds(j, text, s, seen, lock)
    requires Finished(s, p, was) && (was ==> Due(AddFriend.Encode(j, p), seen, lock, minMs, e.now))
    ensures var text := AddFriend.Encode(j, p);
      var add := Adds(e, sid, Count(text));
      var next := if add.None? then seen else seen + {add.value};
      && Holds(j, text, Step(j, minMs, s, e), next, lock)
      && Finished(Step(j, minMs, s, e), p, Due(text, next, lock, minMs, e.now))
  {
    hide AddFriend.Encode, Adds, Delivers, Holds, Tick, Stored, Due, Genuine, Step;
    var text := AddFriend.Encode(j, p);
    var add := Adds(e, sid, Count(text));
    var next := if add.None? then seen else seen + {add.value};
    SessionGrows(j, p, sid, s, e, seen, lock);
    StepUnfolds(j, minMs, s, e);
    if was { DueStays(text, seen, next, lock, minMs, e.now, e.now); }
    var s' := if Delivers(e).None? then s else Stored(s, Delivers(e).value, e.text.value);
    TickFinishes(j, minMs, p, sid, s', next, lock, e.now, was);
  }

  lemma ConsistentStep(j: Platform, minMs: int, p: Payload, sid: string, s: State, e: Event, seen: set<int>, lock: int,
                       now: int)
    requires Faithful(j) && IsValid(p) && Genuine(j, AddFriend.Encode(j, p), sid, e)
    requires Consistent(j, minMs, p, sid, s, seen, lock, now) && now <= e.now
    ensures var add := Adds(e, sid, Count(AddFriend.Encode(j, p)));
      Consistent(j, minMs, p, sid, Step(j, minMs, s, e), if add.None? then seen else seen + {add.value},
                 if lock < 0 && Delivers(e).Some? then e.now else lock, e.now)
  {
    var text := AddFriend.Encode(j, p);
    hide AddFriend.Encode, Delivers, Step, Tick, Due, Genuine, Data, ChunkOf;
    if s.sid == None {
      if Delivers(e).None? {
        UnlockedIdles(j, minMs, e);
      } else {
        LockTakesSession(j, minMs, e);
        var f := Delivers(e).value;
        if f.sid == sid && f.count == Count(text) {
          var s1 := Locked(s, f, e.now);
          LockedStep(j, minMs, e);
          SessionStep(j, minMs, p, sid, s1, e, {}, e.now, false);
        }
      }
    } else {
      OtherSessionStays(j, minMs, s, e);
      if OnSession(s, sid, Count(text)) {
        var was := Due(text, seen, lock, minMs, now);
        if was { DueStays(text, seen, seen, lock, minMs, now, e.now); }
        SessionStep(j, minMs, p, sid, s, e, seen, lock, was);
      }
    }
  }

  /** Locking first and then taking the frame is the same as taking it unlocked. */
  lemma LockedStep(j: Platform, minMs: int, e: Event)
    requires Delivers(e).Some?
    ensures Step(j, minMs, EMPTY, e) == Step(j, minMs, Locked(EMPTY, Delivers(e).value, e.now), e)
  {
  }

  ghost function LastTime(events: seq<Event>): int { if events == [] then 0 else events[|events| - 1].now }

  lemma {:induction false} RunsAreConsistent(j: Platform, minMs: int, p: Payload, sid: string, events: seq<Event>)
    requires Faithful(j) && IsValid(p) && TimeRises(events)
    requires forall e :: e in events ==> Genuine(j, AddFriend.Encode(j, p), sid, e)
    ensures Consistent(j, minMs, p, sid, Run(j, minMs, events), Seen(events, sid, Count(AddFriend.Encode(j, p))),
                       LockTime(events), LastTime(events))
  {
    hide AddFriend.Encode, Step, Delivers, Adds, Genuine;
    var count := Count(AddFriend.Encode(j, p));
    if events == [] {
      assert Seen(events, sid, count) == {};
    } else {
      var n := |events| - 1;
      var before, e := events[..n], events[n];
      assert events == before + [e];
      RunsAreConsistent(j, minMs, p, sid, before);
      hide Consistent, Seen;
      assert LastTime(before) <= e.now;
      SeenGrows(before, e, sid, count);
      ConsistentStep(j, minMs, p, sid, Run(j, minMs, before), e, Seen(before, sid, count), LockTime(before),
                     LastTime(before));
      assert Seen(before, sid, count) + {} == Seen(before, sid, count);
    }
  }

  // ---------------------------------------------------------------- main results

  /**
   * Collection does not depend on order: once locked to a session whose data frames are genuine,
   * after any interleaving of reorderings, repeats, noise and foreign frames the payload is there,
   * and is the sender's, exactly when every index has been seen and the collecting time is over.
   */
  lemma CollectsExactly(j: Platform, minMs: int, p: Payload, sid: string, events: seq<Event>)
    requires Faithful(j) && IsValid(p) && TimeRises(events)
    requires forall e :: e in events ==> Genuine(j, AddFriend.Encode(j, p), sid, e)
    requires OnSession(Run(j, minMs, events), sid, Count(AddFriend.Encode(j, p)))
    ensures var text := AddFriend.Encode(j, p);
      Run(j, minMs, events).payload ==
        if Due(text, Seen(events, sid, Count(text)), LockTime(events), minMs, LastTime(events)) then Some(p) else None
  {
    hide AddFriend.Encode, Run, Genuine, Seen, LockTime, Due;
    RunsAreConsistent(j, minMs, p, sid, events);
  }

  // ---------------------------------------------------------------- what the collector holds, for any frames

  /** The event whose frame locked the session. */
  ghost function FirstFrame(events: seq<Event>): (r: Option<nat>)
    ensures r.Some? ==> r.value < |events| && Delivers(events[r.value]).Some?
  {
    if events == [] then None else
      var n := |events| - 1;
      var before := FirstFrame(events[..n]);
      if before.Some? then before else if Delivers(events[n]).Some? then Some(n) else None
  }

  /** The data an event carries, if any. */
  function DataOf(e: Event): string {
    if e.text.Some? && ChunkOf(e.text.value).Some? then ChunkOf(e.text.value).value else ""
  }

  /** `data` is what the last frame for index `i` of the session carried. */
  ghost predicate IsLatest(events: seq<Event>, sid: string, count: nat, i: int, data: string) {
    exists k :: 0 <= k < |events| && Adds(events[k], sid, count) == Some(i) && DataOf(events[k]) == data
      && forall m :: k < m < |events| ==> Adds(events[m], sid, count) != Some(i)
  }

  ghost predicate HoldsLatest(events: seq<Event>, f: Frame, chunks: map<int, string>)
    requires f.count >= 0
  {
    && chunks.Keys == Seen(events, f.sid, f.count)
    && forall i :: i in chunks ==> IsLatest(events, f.sid, f.count, i, chunks[i])
  }

  ghost predicate MatchesEvents(events: seq<Event>, s: State) {
    match FirstFrame(events)
    case None => s == EMPTY
    case Some(k) =>
      var f := Delivers(events[k]).value;
      && s.sid == Some(f.sid) && s.total == f.count > 0 && s.firstSeen == events[k].now
      && HoldsLatest(events, f, s.chunks)
  }

  lemma FrameCounts(e: Event)
    ensures Delivers(e).Some? ==> Delivers(e).value.count > 0
  {
  }

  lemma {:induction false} LatestGrows(before: seq<Event>, e: Event, f: Frame, chunks: map<int, string>)
    requires f.count >= 0 && HoldsLatest(before, f, chunks)
    ensures var add := Adds(e, f.sid, f.count);
      HoldsLatest(before + [e], f,
                  if add.None? then chunks else chunks[add.value := DataOf(e)])
  {
    hide Adds, Seen, DataOf, IsLatest;
    var add, events := Adds(e, f.sid, f.count), before + [e];
    var next := if add.None? then chunks else chunks[add.value := DataOf(e)];
    SeenGrows(before, e, f.sid, f.count);
    forall i | i in next ensures IsLatest(events, f.sid, f.count, i, next[i]) {
      LatestMoves(before, e, f.sid, f.count, i, next[i]);
    }
  }

  lemma {:induction false} LatestMoves(before: seq<Event>, e: Event, sid: string, count: nat, i: int, data: string)
    requires if Adds(e, sid, count) == Some(i) then DataOf(e) == data
             else IsLatest(before, sid, count, i, data)
    ensures IsLatest(before + [e], sid, count, i, data)
  {
    hide Adds, DataOf;
    var events := before + [e];
    if Adds(e, sid, count) == Some(i) {
      assert events[|before|] == e;
    } else {
      var k :| 0 <= k < |before| && Adds(before[k], sid, count) == Some(i)
        && DataOf(before[k]) == data
        && forall m :: k < m < |before| ==> Adds(before[m], sid, count) != Some(i);
      assert events[k] == before[k];
      forall m | k < m < |events| ensures Adds(events[m], sid, count) != Some(i) {
        if m < |before| { assert events[m] == before[m]; }
      }
    }
  }

  lemma {:induction false} FieldsStep(j: Platform, minMs: int, s: State, e: Event)
    ensures var s' := Step(j, minMs, s, e);
      var lock := if s.sid == None && Delivers(e).Some? then Locked(s, Delivers(e).value, e.now) else s;
      && s'.sid == lock.sid && s'.total == lock.total && s'.firstSeen == lock.firstSeen
      && (lock.sid.Some? && lock.total >= 0 ==>
            var add := Adds(e, lock.sid.value, lock.total);
            s'.chunks == if add.None? then s.chunks else s.chunks[add.value := DataOf(e)])
  {
    hide IsNoise, ParseFrame, ChunkOf, Reassemble, AddFriend.Parse, Ready;
  }

  /** Over every run: the first frame locks, and the chunks are the latest ones of that session. */
  lemma {:induction false} CollectorIsHistory(j: Platform, minMs: int, events: seq<Event>)
    ensures MatchesEvents(events, Run(j, minMs, events))
  {
    if events != [] {
      hide Step, Adds, Delivers, HoldsLatest;
      var n := |events| - 1;
      var before, e := events[..n], events[n];
      assert events == before + [e];
      CollectorIsHistory(j, minMs, before);
      FieldsStep(j, minMs, Run(j, minMs, before), e);
      FrameCounts(e);
      if FirstFrame(before).Some? {
        var f := Delivers(before[FirstFrame(before).value]).value;
        LatestGrows(before, e, f, Run(j, minMs, before).chunks);
      } else if Delivers(e).Some? {
        NothingHeld(before, Delivers(e).value);
        LatestGrows(before, e, Delivers(e).value, map[]);
      } else {
        UnlockedIdles(j, minMs, e);
      }
    }
  }

  lemma {:induction false} NothingHeld(events: seq<Event>, f: Frame)
    requires FirstFrame(events).None? && f.count >= 0
    ensures HoldsLatest(events, f, map[])
  {
    if events != [] {
      var n := |events| - 1;
      NothingHeld(events[..n], f);
      SeenGrows(events[..n], events[n], f.sid, f.count);
      assert events == events[..n] + [events[n]];
    } else {
      assert Seen(events, f.sid, f.count) == {};
    }
  }

  /** What a report says at any time: nothing before the first frame, then progress of the locked session. */
  lemma {:induction false} ReportIsExact(j: Platform, minMs: int, events: seq<Event>, now: int)
    ensures var (r, k) := (ReportOf(Run(j, minMs, events), now), FirstFrame(events));
      if k.None? then r == Report(0, 0, 0, false, None)
      else
        var f := Delivers(events[k.value]).value;
        && f.count > 0 && r.collected == |Seen(events, f.sid, f.count)| && r.total == f.count
        && r.elapsed == now - events[k.value].now && (r.complete <==> r.payload.Some?)
  {
    hide Run, Seen, Delivers;
    CollectorIsHistory(j, minMs, events);
    var s := Run(j, minMs, events);
    assert |s.chunks| == |s.chunks.Keys|;
  }

  /** And on a genuine session it shows the sender's payload exactly when it says it is complete. */
  lemma {:induction false} ReportShowsPayload(j: Platform, minMs: int, p: Payload, sid: string, events: seq<Event>)
    requires Faithful(j) && IsValid(p) && TimeRises(events)
    requires forall e :: e in events ==> Genuine(j, AddFriend.Encode(j, p), sid, e)
    requires OnSession(Run(j, minMs, events), sid, Count(AddFriend.Encode(j, p)))
    ensures var (text, r) := (AddFriend.Encode(j, p), ReportOf(Run(j, minMs, events), LastTime(events)));
      && (r.complete <==> Due(text, Seen(events, sid, Count(text)), LockTime(events), minMs, LastTime(events)))
      && r.payload == if r.complete then Some(p) else None
  {
    hide AddFriend.Encode, Run, Genuine, Seen, LockTime, Due;
    CollectsExactly(j, minMs, p, sid, events);
  }

  /** The frames the sender shows are genuine and add their index. */
  lemma SentFramesAdd(j: Platform, p: Payload, sid: string, i: nat, now: nat)
    requires Faithful(j) && IsValid(p) && '&' !in sid && |AddFriend.Encode(j, p)| <= I32_MAX
    requires i < |SplitFrames(j, p, sid)|
    ensures var (text, e) := (AddFriend.Encode(j, p), Event(Some(SplitFrames(j, p, sid)[i]), now));
      Genuine(j, text, sid, e) && Adds(e, sid, Count(text)) == Some(i)
  {
    var text := AddFriend.Encode(j, p);
    var d := Data(j, text, i);
    NoSeparators(j.toUtf8(Piece(text, i)), '&');
    DataIsNotEmpty(j, text, i);
    hide AddFriend.Encode, Data, FrameText, ChunkOf, IsNoise, ParseFrame;
    FrameParsesBack(sid, i, Count(text), "1", d);
    DataFrameReadsBack(sid, i, Count(text), d);
  }

  lemma DataIsNotEmpty(j: Platform, text: string, i: nat)
    requires Faithful(j) && i < Count(text)
    ensures Data(j, text, i) != ""
  {
  }

  /** Once there is a payload no event changes it; only `reset` does. */
  lemma {:induction false} PayloadIsFinal(j: Platform, minMs: int, events: seq<Event>, more: seq<Event>)
    requires Run(j, minMs, events).payload.Some?
    ensures Run(j, minMs, events + more).payload == Run(j, minMs, events).payload
    decreases |more|
  {
    hide Step;
    if more == [] {
      assert events + more == events;
    } else {
      var n := |more| - 1;
      assert (events + more)[..|events + more| - 1] == events + more[..n];
      PayloadIsFinal(j, minMs, events, more[..n]);
      ParsedOnce(j, minMs, events + more[..n]);
      FinalStep(j, minMs, Run(j, minMs, events + more[..n]), more[n]);
    }
  }

  lemma {:induction false} ParsedOnce(j: Platform, minMs: int, events: seq<Event>)
    ensures Run(j, minMs, events).payload.Some? ==> Run(j, minMs, events).parsed
  {
    hide IsNoise, ParseFrame, ChunkOf, AddFriend.Parse, Reassemble;
    if events != [] { ParsedOnce(j, minMs, events[..|events| - 1]); }
  }

  lemma FinalStep(j: Platform, minMs: int, s: State, e: Event)
    requires s.parsed
    ensures Step(j, minMs, s, e).payload == s.payload
  {
  }
}
