/** The pruned key ring against the unbounded ledger, over every run. */
module KeyRingRuns {
  import opened Common
  import opened Payloads
  import opened KeyRing

  // ---------------------------------------------------------------- the unbounded ledger

  /** Everything ever admitted for one identity, by serial: no expiry, no limit. */
  type Ledger = map<U64, Announcement>

  ghost predicate LedgerOutranks(l: Ledger, a: Announcement) { exists k :: k in l && k > a.serial }

  ghost function LedgerUpsert(l: Ledger, a: Announcement): Ledger {
    if LedgerOutranks(l, a) then l else l[a.serial := a]
  }

  /** The ledger's answer to "which key to dial". */
  ghost predicate LedgerLeads(l: Ledger, now: U64, e: Announcement) {
    && e.serial in l && l[e.serial] == e && ValidAt(e, now)
    && forall k :: k in l && ValidAt(l[k], now) ==> k <= e.serial
  }

  /** A slot and a ledger agree on what is there and on the highest serial. */
  ghost predicate SameTop(s: Slot, l: Ledger) {
    && Increasing(s)
    && (forall e :: e in s ==> e.serial in l && l[e.serial] == e)
    && (forall k :: k in l ==> l[k].serial == k && s != [] && k <= s[|s| - 1].serial)
  }

  ghost predicate BelowAll(s: Slot, k: int) { forall e :: e in s ==> k < e.serial }

  /** What the slot has dropped had expired by time `t`, or is older than all 32 entries it holds. */
  ghost predicate NothingLost(s: Slot, l: Ledger, t: int) {
    forall k :: k in l ==> l[k] in s || l[k].notAfter <= t || (BelowAll(s, k) && |l| > MAX_ANNOUNCEMENTS)
  }

  // ---------------------------------------------------------------- one step

  /** The slot and the ledger accept or discard exactly the same announcements, whatever the clock says. */
  lemma SameDecision(s: Slot, l: Ledger, a: Announcement)
    requires SameTop(s, l)
    ensures Outranked(s, a) <==> LedgerOutranks(l, a)
  {
  }

  lemma NewestFacts(p: Slot)
    requires Increasing(p) && p != []
    ensures var s := Newest(p);
      && s != [] && Increasing(s) && s[|s| - 1] == p[|p| - 1]
      && (forall e :: e in s ==> e in p)
      && (forall e :: e in p && e !in s ==> |p| > MAX_ANNOUNCEMENTS && BelowAll(s, e.serial))
  {
  }

  lemma TopStep(s: Slot, l: Ledger, a: Announcement, now: U64)
    requires SameTop(s, l) && a.notAfter > now
    ensures SameTop(SlotUpsert(s, a, now), LedgerUpsert(l, a))
  {
    hide Placed, Newest;
    SameDecision(s, l, a);
    if !Outranked(s, a) {
      PlacedFacts(s, a, now);
      NewestFacts(Placed(s, a, now));
    }
  }

  lemma SlotFitsLedger(p: Slot, l: Ledger)
    requires Increasing(p) && forall e :: e in p ==> e.serial in l
    ensures |p| <= |l|
  {
    var serials := set e | e in p :: e.serial;
    SerialsAreDistinct(p);
    assert serials <= l.Keys;
    assert l.Keys == serials + (l.Keys - serials);
    assert |l.Keys| == |l|;
  }

  lemma {:induction false} SerialsAreDistinct(p: Slot)
    requires Increasing(p)
    ensures |set e | e in p :: e.serial| == |p|
  {
    if p != [] {
      var n := |p| - 1;
      var q := p[..n];
      SerialsAreDistinct(q);
      assert p == q + [p[n]];
      assert (set e | e in p :: e.serial) == (set e | e in q :: e.serial) + {p[n].serial};
      assert p[n].serial !in (set e | e in q :: e.serial);
    }
  }

  lemma LossStep(s: Slot, l: Ledger, a: Announcement, t: int, now: U64)
    requires SameTop(s, l) && NothingLost(s, l, t) && a.notAfter > now && t <= now
    ensures NothingLost(SlotUpsert(s, a, now), LedgerUpsert(l, a), now)
  {
    hide Placed, Newest;
    SameDecision(s, l, a);
    if !Outranked(s, a) {
      PlacedFacts(s, a, now);
      var p := Placed(s, a, now);
      NewestFacts(p);
      var s', l' := Newest(p), LedgerUpsert(l, a);
      assert l' == l[a.serial := a];
      assert |p| <= |l'| by { SlotFitsLedger(p, l'); }
      assert |l| <= |l'| by { assert l'.Keys == l.Keys + {a.serial}; assert |l'.Keys| == |l'| && |l.Keys| == |l|; }
      forall k | k in l' ensures l'[k] in s' || l'[k].notAfter <= now || (BelowAll(s', k) && |l'| > MAX_ANNOUNCEMENTS) {
        LossOfOne(s, l, a, t, now, k);
      }
    }
  }

  lemma LossOfOne(s: Slot, l: Ledger, a: Announcement, t: int, now: U64, k: U64)
    requires SameTop(s, l) && NothingLost(s, l, t) && a.notAfter > now && t <= now && !Outranked(s, a)
    requires k in l[a.serial := a]
    requires |Placed(s, a, now)| <= |l[a.serial := a]| && |l| <= |l[a.serial := a]|
    ensures var s', l' := Newest(Placed(s, a, now)), l[a.serial := a];
      l'[k] in s' || l'[k].notAfter <= now || (BelowAll(s', k) && |l'| > MAX_ANNOUNCEMENTS)
  {
    hide Placed, Newest;
    PlacedFacts(s, a, now);
    NewestFacts(Placed(s, a, now));
    if k != a.serial {
      assert k < a.serial by { assert s[|s| - 1] in s; }
    }
  }

  // ---------------------------------------------------------------- runs

  datatype Event = Event(ann: Announcement, now: U64)

  ghost function RingRun(signed: Signed, events: seq<Event>): Ring {
    if events == [] then map[] else
      var n := |events| - 1;
      RingUpsert(signed, RingRun(signed, events[..n]), events[n].ann, events[n].now).0
  }

  /** The ledger of one identity after a run; an announcement is refused for the same stated reasons. */
  ghost function LedgerRun(signed: Signed, events: seq<Event>, id: NodeId): Ledger {
    if events == [] then map[] else
      var n := |events| - 1;
      var l, a := LedgerRun(signed, events[..n], id), events[n].ann;
      if Admissible(signed, a, events[n].now) && a.identity == id then LedgerUpsert(l, a) else l
  }

  ghost predicate TimeRises(events: seq<Event>) {
    forall i, j :: 0 <= i < j < |events| ==> events[i].now <= events[j].now
  }

  /** Over every run, for arbitrary clock readings, ring and ledger hold the same highest serial. */
  lemma {:induction false} RunsAgreeOnTop(signed: Signed, events: seq<Event>, id: NodeId)
    ensures SameTop(SlotOf(RingRun(signed, events), id), LedgerRun(signed, events, id))
  {
    hide SlotUpsert, LedgerUpsert, SameTop, Admissible;
    if events == [] {
      EmptyRefines(0);
    } else {
      var n := |events| - 1;
      RunsAgreeOnTop(signed, events[..n], id);
      var s, l, a := SlotOf(RingRun(signed, events[..n]), id), LedgerRun(signed, events[..n], id), events[n].ann;
      if Admissible(signed, a, events[n].now) && a.identity == id {
        AdmissibleIsUnexpired(signed, a, events[n].now);
        TopStep(s, l, a, events[n].now);
      }
    }
  }

  lemma AdmissibleIsUnexpired(signed: Signed, a: Announcement, now: U64)
    requires Admissible(signed, a, now)
    ensures a.notAfter > now
  {
  }

  lemma EmptyRefines(t: int)
    ensures SameTop([], map[]) && NothingLost([], map[], t)
  {
  }

  /** So each announcement of a run is accepted by the ring exactly when the ledger accepts it. */
  lemma RunsDecideAlike(signed: Signed, events: seq<Event>, a: Announcement)
    ensures Outranked(SlotOf(RingRun(signed, events), a.identity), a) <==>
            LedgerOutranks(LedgerRun(signed, events, a.identity), a)
  {
    RunsAgreeOnTop(signed, events, a.identity);
    SameDecision(SlotOf(RingRun(signed, events), a.identity), LedgerRun(signed, events, a.identity), a);
  }

  lemma {:induction false} RunsLoseNothing(signed: Signed, events: seq<Event>, id: NodeId, now: U64)
    requires TimeRises(events) && (events != [] ==> events[|events| - 1].now <= now)
    ensures NothingLost(SlotOf(RingRun(signed, events), id), LedgerRun(signed, events, id), now)
  {
    hide SlotUpsert, LedgerUpsert, SameTop, NothingLost, Admissible;
    if events == [] {
      EmptyRefines(now);
    } else {
      var n := |events| - 1;
      RunsLoseNothing(signed, events[..n], id, events[n].now);
      RunsAgreeOnTop(signed, events[..n], id);
      var s, l, a := SlotOf(RingRun(signed, events[..n]), id), LedgerRun(signed, events[..n], id), events[n].ann;
      if Admissible(signed, a, events[n].now) && a.identity == id {
        AdmissibleIsUnexpired(signed, a, events[n].now);
        LossStep(s, l, a, events[n].now, events[n].now);
      }
      LossIsMonotone(SlotOf(RingRun(signed, events), id), LedgerRun(signed, events, id), events[n].now, now);
    }
  }

  lemma LossIsMonotone(s: Slot, l: Ledger, t: int, later: int)
    requires NothingLost(s, l, t) && t <= later
    ensures NothingLost(s, l, later)
  {
  }

  /** Whenever `current` answers, it gives the ledger's answer. */
  lemma CurrentAgrees(signed: Signed, events: seq<Event>, id: NodeId, now: U64, e: Announcement)
    requires TimeRises(events) && (events != [] ==> events[|events| - 1].now <= now)
    requires Leads(SlotOf(RingRun(signed, events), id), now, e)
    ensures LedgerLeads(LedgerRun(signed, events, id), now, e)
  {
    RunsAgreeOnTop(signed, events, id);
    RunsLoseNothing(signed, events, id, now);
    AgreesOnSlot(SlotOf(RingRun(signed, events), id), LedgerRun(signed, events, id), now, e);
  }

  lemma AgreesOnSlot(s: Slot, l: Ledger, now: U64, e: Announcement)
    requires SameTop(s, l) && NothingLost(s, l, now) && Leads(s, now, e)
    ensures LedgerLeads(l, now, e)
  {
  }

  /** The ledger's answer to "may this key speak for the identity now". */
  ghost predicate LedgerAccepts(l: Ledger, key: NodeId, now: U64) {
    exists k :: k in l && l[k].nodeKey == key && ValidAt(l[k], now)
  }

  ghost predicate SlotAccepts(s: Slot, key: NodeId, now: U64) {
    exists e :: e in s && e.nodeKey == key && ValidAt(e, now)
  }

  /** `accepts` never says yes where the ledger says no, for arbitrary clock readings before and at the question. */
  lemma AcceptsIsSound(signed: Signed, events: seq<Event>, id: NodeId, key: NodeId, now: U64)
    requires SlotAccepts(SlotOf(RingRun(signed, events), id), key, now)
    ensures LedgerAccepts(LedgerRun(signed, events, id), key, now)
  {
    RunsAgreeOnTop(signed, events, id);
    var e :| e in SlotOf(RingRun(signed, events), id) && e.nodeKey == key && ValidAt(e, now);
    assert LedgerRun(signed, events, id)[e.serial] == e;
  }

  /** Up to 32 serials the ring answers completely: every announcement valid in the ledger is in the ring. */
  lemma ExactUpToCapacity(signed: Signed, events: seq<Event>, id: NodeId, now: U64, k: U64)
    requires TimeRises(events) && (events != [] ==> events[|events| - 1].now <= now)
    requires var l := LedgerRun(signed, events, id); |l| <= MAX_ANNOUNCEMENTS && k in l && ValidAt(l[k], now)
    ensures LedgerRun(signed, events, id)[k] in SlotOf(RingRun(signed, events), id)
  {
    RunsLoseNothing(signed, events, id, now);
  }

  /** So up to 32 serials, under rising time, `accepts` answers exactly as the ledger. */
  lemma AcceptsAsLedger(signed: Signed, events: seq<Event>, id: NodeId, key: NodeId, now: U64)
    requires TimeRises(events) && (events != [] ==> events[|events| - 1].now <= now)
    requires |LedgerRun(signed, events, id)| <= MAX_ANNOUNCEMENTS
    ensures SlotAccepts(SlotOf(RingRun(signed, events), id), key, now) <==>
            LedgerAccepts(LedgerRun(signed, events, id), key, now)
  {
    hide RingRun, LedgerRun, SlotOf;
    var l := LedgerRun(signed, events, id);
    if LedgerAccepts(l, key, now) {
      var k :| k in l && l[k].nodeKey == key && ValidAt(l[k], now);
      ExactUpToCapacity(signed, events, id, now, k);
    } else if SlotAccepts(SlotOf(RingRun(signed, events), id), key, now) {
      AcceptsIsSound(signed, events, id, key, now);
    }
  }

  // ---------------------------------------------------------------- what gets in, and what it answers

  /** An announcement in order: signed by its identity, valid for at most 30 days, with a serial. */
  ghost predicate InOrder(signed: Signed, a: Announcement) {
    && |a.sig| == 64 && signed(a.identity, AnnouncementPayload(a), a.sig)
    && 0 < a.notAfter - a.notBefore <= 2_592_000_000
    && a.serial >= 1
  }

  /** An upsert succeeds exactly for an unexpired announcement in order, and otherwise leaves the ring alone. */
  lemma {:induction false} UpsertSucceedsIff(signed: Signed, r: Ring, a: Announcement, now: U64)
    ensures RingUpsert(signed, r, a, now).1 <==> InOrder(signed, a) && a.notAfter > now
    ensures !RingUpsert(signed, r, a, now).1 ==> RingUpsert(signed, r, a, now).0 == r
    ensures forall id: NodeId :: id != a.identity ==> SlotOf(RingUpsert(signed, r, a, now).0, id) == SlotOf(r, id)
  {
    hide SlotUpsert;
  }

  /** Event `k` brought announcement `e` of `id`, in order and unexpired. */
  ghost predicate BroughtAt(signed: Signed, events: seq<Event>, k: nat, id: NodeId, e: Announcement)
    requires k < |events|
  {
    events[k].ann == e && e.identity == id && InOrder(signed, e) && e.notAfter > events[k].now
  }

  lemma {:induction false} LedgerComesFromEvents(signed: Signed, events: seq<Event>, id: NodeId, s: U64)
    requires s in LedgerRun(signed, events, id)
    ensures exists k :: 0 <= k < |events| && BroughtAt(signed, events, k, id, LedgerRun(signed, events, id)[s])
  {
    var n := |events| - 1;
    var l := LedgerRun(signed, events, id);
    UpsertSucceedsIff(signed, map[], events[n].ann, events[n].now);
    hide InOrder;
    if s in LedgerRun(signed, events[..n], id) && LedgerRun(signed, events[..n], id)[s] == l[s] {
      LedgerComesFromEvents(signed, events[..n], id, s);
      var k :| 0 <= k < n && BroughtAt(signed, events[..n], k, id, l[s]);
      assert BroughtAt(signed, events, k, id, l[s]);
    } else {
      assert BroughtAt(signed, events, n, id, l[s]);
    }
  }

  /** Over every run, whatever is in the ring of an identity was signed by it and arrived unexpired. */
  lemma {:induction false} RingIsSigned(signed: Signed, events: seq<Event>, id: NodeId, e: Announcement)
    requires e in SlotOf(RingRun(signed, events), id)
    ensures exists k :: 0 <= k < |events| && BroughtAt(signed, events, k, id, e)
  {
    RunsAgreeOnTop(signed, events, id);
    assert LedgerRun(signed, events, id)[e.serial] == e;
    LedgerComesFromEvents(signed, events, id, e.serial);
  }

  ghost predicate NamesKey(e: Announcement, key: NodeId, now: U64) {
    e.nodeKey == key && e.notBefore <= now < e.notAfter
  }

  /** So a key is accepted only if such an announcement names it, from `notBefore` to just before `notAfter`. */
  lemma {:induction false} AcceptedKeyIsSigned(signed: Signed, events: seq<Event>, id: NodeId, key: NodeId, now: U64)
    requires SlotAccepts(SlotOf(RingRun(signed, events), id), key, now)
    ensures exists k, e :: 0 <= k < |events| && BroughtAt(signed, events, k, id, e) && NamesKey(e, key, now)
  {
    var e :| e in SlotOf(RingRun(signed, events), id) && e.nodeKey == key && ValidAt(e, now);
    hide RingRun, SlotOf, InOrder;
    RingIsSigned(signed, events, id, e);
  }

  lemma {:induction false} NotOutranked(signed: Signed, events: seq<Event>, a: Announcement)
    requires forall k :: 0 <= k < |events| && events[k].ann.identity == a.identity ==> events[k].ann.serial <= a.serial
    ensures !Outranked(SlotOf(RingRun(signed, events), a.identity), a)
  {
    hide RingRun, SlotOf, InOrder;
    forall e | e in SlotOf(RingRun(signed, events), a.identity) ensures e.serial <= a.serial {
      RingIsSigned(signed, events, a.identity, e);
    }
  }

  /**
   * Conversely an announcement in order that arrives unexpired, no lower in serial than those before it, is at
   * once the answer for its whole validity, and nothing that has expired stays beside it.
   */
  lemma {:induction false} NewestAnswers(signed: Signed, events: seq<Event>, now: U64)
    requires events != []
    requires var (a, n) := (events[|events| - 1].ann, |events| - 1);
      && InOrder(signed, a) && a.notAfter > events[n].now
      && forall k :: 0 <= k < n && events[k].ann.identity == a.identity ==> events[k].ann.serial <= a.serial
    ensures var a := events[|events| - 1].ann;
      var s := SlotOf(RingRun(signed, events), a.identity);
      && a in s && (a.notBefore <= now < a.notAfter ==> Leads(s, now, a) && SlotAccepts(s, a.nodeKey, now))
      && forall e :: e in s ==> e.serial <= a.serial && e.notAfter > events[|events| - 1].now
  {
    var n := |events| - 1;
    var a, before := events[n].ann, events[..n];
    UpsertSucceedsIff(signed, RingRun(signed, before), a, events[n].now);
    NotOutranked(signed, before, a);
    RunsAgreeOnTop(signed, before, a.identity);
    var s := SlotOf(RingRun(signed, before), a.identity);
    UpsertIsExact(s, a, events[n].now);
    assert SlotOf(RingRun(signed, events), a.identity) == SlotUpsert(s, a, events[n].now);
    hide SlotUpsert, RingRun, LedgerRun, InOrder, SlotOf;
  }

  /**
   * What a slot becomes: the announcement in place of any with its serial, and the unexpired rest; of these the
   * 32 with the highest serials.
   */
  lemma {:induction false} UpsertIsExact(s: Slot, a: Announcement, now: U64)
    requires Increasing(s) && !Outranked(s, a) && a.notAfter > now
    ensures var s' := SlotUpsert(s, a, now);
      && a in s' && Increasing(s') && |s'| <= 32
      && (forall e :: e in s' ==> e == a || (e in s && e.serial < a.serial && e.notAfter > now))
      && (forall e :: e in s && e.serial != a.serial && e.notAfter > now && e !in s' ==>
            |s'| == 32 && forall f :: f in s' ==> e.serial < f.serial)
  {
    hide Placed, Newest;
    PlacedFacts(s, a, now);
    NewestFacts(Placed(s, a, now));
    NewestSize(Placed(s, a, now));
  }

  lemma NewestSize(p: Slot)
    ensures |Newest(p)| == Min(|p|, 32)
  {
  }

  // ---------------------------------------------------------------- monotonicity and convergence

  ghost function TopSerial(s: Slot): int { if s == [] then 0 else s[|s| - 1].serial }

  /** The highest serial known for an identity never decreases. */
  lemma {:induction false} TopSerialRises(signed: Signed, events: seq<Event>, id: NodeId, i: nat)
    requires i <= |events|
    ensures TopSerial(SlotOf(RingRun(signed, events[..i]), id)) <= TopSerial(SlotOf(RingRun(signed, events), id))
    decreases |events|
  {
    if i == |events| {
      assert events[..i] == events;
    } else {
      var n := |events| - 1;
      TopSerialRises(signed, events[..n], id, i);
      assert events[..n][..i] == events[..i];
      TopSerialStep(signed, events[..n], events[n], id);
      assert events[..n] + [events[n]] == events;
    }
  }

  lemma {:induction false} TopSerialStep(signed: Signed, before: seq<Event>, e: Event, id: NodeId)
    ensures TopSerial(SlotOf(RingRun(signed, before), id)) <= TopSerial(SlotOf(RingRun(signed, before + [e]), id))
  {
    var events := before + [e];
    assert events[..|events| - 1] == before;
    RunsAgreeOnTop(signed, before, id);
    var s := SlotOf(RingRun(signed, before), id);
    if Admissible(signed, e.ann, e.now) && e.ann.identity == id && !Outranked(s, e.ann) {
      AcceptedBecomesTop(s, e.ann, e.now);
    }
  }

  lemma AcceptedBecomesTop(s: Slot, a: Announcement, now: U64)
    requires Increasing(s) && !Outranked(s, a) && a.notAfter > now
    ensures var s' := SlotUpsert(s, a, now); s' != [] && s'[|s'| - 1] == a && TopSerial(s) <= a.serial
  {
    hide Placed, Newest;
    PlacedFacts(s, a, now);
    NewestFacts(Placed(s, a, now));
    if s != [] { assert s[|s| - 1] in s; }
  }

  /** Every announcement of the run is for `id`, verifies and was unexpired when it came. */
  ghost predicate AllArrive(signed: Signed, events: seq<Event>, id: NodeId) {
    forall e :: e in events ==> Admissible(signed, e.ann, e.now) && e.ann.identity == id
  }

  ghost predicate SerialsIdentify(events: seq<Event>) {
    forall e, f :: e in events && f in events && e.ann.serial == f.ann.serial ==> e.ann == f.ann
  }

  ghost predicate Brings(events: seq<Event>, a: Announcement) { exists e :: e in events && e.ann == a }

  ghost predicate IsNewest(events: seq<Event>, a: Announcement) {
    Brings(events, a) && forall e :: e in events ==> e.ann.serial <= a.serial
  }

  lemma {:induction false} TopIsNewest(signed: Signed, events: seq<Event>, id: NodeId)
    requires events != [] && AllArrive(signed, events, id) && SerialsIdentify(events)
    ensures var s := SlotOf(RingRun(signed, events), id); s != [] && IsNewest(events, s[|s| - 1])
  {
    hide SlotUpsert, Admissible, SameTop;
    var n := |events| - 1;
    var before, e := events[..n], events[n];
    assert events == before + [e];
    var s := SlotOf(RingRun(signed, before), id);
    assert e in events;
    AdmissibleIsUnexpired(signed, e.ann, e.now);
    assert Increasing(s) by { RunsAgreeOnTop(signed, before, id); TopIncreases(s, LedgerRun(signed, before, id)); }
    if before == [] {
      AcceptedBecomesTop([], e.ann, e.now);
    } else {
      TopIsNewest(signed, before, id);
      var top := s[|s| - 1];
      if Outranked(s, e.ann) {
        OutrankedKeeps(s, e.ann, e.now);
      } else {
        AcceptedBecomesTop(s, e.ann, e.now);
      }
    }
  }

  lemma TopIncreases(s: Slot, l: Ledger)
    requires SameTop(s, l)
    ensures Increasing(s)
  {
  }

  lemma OutrankedKeeps(s: Slot, a: Announcement, now: U64)
    requires Outranked(s, a) && Increasing(s)
    ensures SlotUpsert(s, a, now) == s && s != [] && a.serial < s[|s| - 1].serial
  {
  }

  /** The final key is the same for every arrival order and duplication of the same announcements. */
  lemma {:induction false} TopConverges(signed: Signed, one: seq<Event>, two: seq<Event>, id: NodeId)
    requires one != [] && two != [] && SerialsIdentify(one)
    requires AllArrive(signed, one, id) && AllArrive(signed, two, id)
    requires forall a: Announcement :: Brings(one, a) <==> Brings(two, a)
    ensures var s, t := SlotOf(RingRun(signed, one), id), SlotOf(RingRun(signed, two), id);
      s != [] && t != [] && s[|s| - 1] == t[|t| - 1]
  {
    hide RingRun, SlotOf, Admissible;
    IdentifiedInBoth(one, two);
    TopIsNewest(signed, one, id);
    TopIsNewest(signed, two, id);
    NewestIsUnique(one, two, SlotOf(RingRun(signed, one), id), SlotOf(RingRun(signed, two), id));
  }

  lemma IdentifiedInBoth(one: seq<Event>, two: seq<Event>)
    requires SerialsIdentify(one) && forall a: Announcement :: Brings(one, a) <==> Brings(two, a)
    ensures SerialsIdentify(two)
  {
    forall e, f | e in two && f in two && e.ann.serial == f.ann.serial ensures e.ann == f.ann {
      assert Brings(two, e.ann) && Brings(two, f.ann);
      assert Brings(one, e.ann) && Brings(one, f.ann);
    }
  }

  lemma NewestIsUnique(one: seq<Event>, two: seq<Event>, s: Slot, t: Slot)
    requires SerialsIdentify(one) && s != [] && t != []
    requires IsNewest(one, s[|s| - 1]) && IsNewest(two, t[|t| - 1])
    requires forall a: Announcement :: Brings(one, a) <==> Brings(two, a)
    ensures s[|s| - 1] == t[|t| - 1]
  {
  }

  // ---------------------------------------------------------------- export and restore

  /** Restoring succeeds exactly when every stored announcement still verifies and is unexpired. */
  lemma {:induction false} RestoreSucceedsIff(signed: Signed, r: Ring, anns: seq<Announcement>, now: U64)
    ensures RestoreAll(signed, r, anns, now).1 <==> forall a :: a in anns ==> Admissible(signed, a, now)
    decreases |anns|
  {
    hide Admissible, SlotUpsert;
    if anns != [] {
      RestoreSucceedsIff(signed, RingUpsert(signed, r, anns[0], now).0, anns[1..], now);
      assert anns == [anns[0]] + anns[1..];
    }
  }

  lemma {:induction false} RestoreAppend(signed: Signed, r: Ring, xs: seq<Announcement>, ys: seq<Announcement>,
                                         now: U64)
    requires RestoreAll(signed, r, xs, now).1
    ensures RestoreAll(signed, r, xs + ys, now) == RestoreAll(signed, RestoreAll(signed, r, xs, now).0, ys, now)
    decreases |xs|
  {
    hide RingUpsert;
    if xs == [] {
      assert xs + ys == ys;
    } else {
      assert (xs + ys)[1..] == xs[1..] + ys;
      RestoreAppend(signed, RingUpsert(signed, r, xs[0], now).0, xs[1..], ys, now);
    }
  }

  lemma NextInOrder(s: Slot, i: nat, now: U64)
    requires Increasing(s) && i < |s| <= MAX_ANNOUNCEMENTS && forall e :: e in s ==> e.notAfter > now
    ensures SlotUpsert(s[..i], s[i], now) == s[..i + 1]
  {
    hide Retain;
    var q := s[..i];
    assert !Outranked(q, s[i]);
    RetainAll(q, (e: Announcement) => e.serial != s[i].serial);
    assert forall e :: e in q + [s[i]] ==> e in s;
    RetainAll(q + [s[i]], (e: Announcement) => e.notAfter > now);
    assert q + [s[i]] == s[..i + 1];
  }

  /** Replaying one slot from its `i`-th entry on rebuilds it. */
  lemma {:induction false} SlotReplays(signed: Signed, r: Ring, id: NodeId, s: Slot, i: nat, now: U64)
    requires SlotOk(signed, id, s) && (forall e :: e in s ==> e.notAfter > now) && i <= |s|
    requires SlotOf(r, id) == s[..i] && (i == |s| ==> id in r)
    ensures RestoreAll(signed, r, s[i..], now) == (r[id := s], true)
    decreases |s| - i
  {
    hide Verifies, SlotUpsert;
    if i == |s| {
      assert s[i..] == [] && s[..i] == s;
      assert r[id := s] == r;
    } else {
      NextInOrder(s, i, now);
      assert s[i] in s;
      var r' := r[id := s[..i + 1]];
      assert RingUpsert(signed, r, s[i], now) == (r', true);
      SlotReplays(signed, r', id, s, i + 1, now);
      assert s[i..][1..] == s[i + 1..];
      assert r'[id := s] == r[id := s];
    }
  }

  ghost predicate AllUnexpired(r: Ring, now: U64) {
    forall id: NodeId, e :: id in r && e in r[id] ==> e.notAfter > now
  }

  ghost function Restricted(r: Ring, order: seq<NodeId>): Ring { map id | id in r && id in order :: r[id] }

  lemma {:induction false} DumpReplays(signed: Signed, r: Ring, order: seq<NodeId>, now: U64)
    requires RingOk(signed, r) && Distinct(order) && forall id :: id in order ==> id in r
    requires AllUnexpired(r, now)
    ensures RestoreAll(signed, map[], Dump(r, order), now) == (Restricted(r, order), true)
  {
    hide RingOk, AllUnexpired, RingUpsert;
    if order != [] {
      var n := |order| - 1;
      var id := order[n];
      DumpReplays(signed, r, order[..n], now);
      OneMoreSlot(signed, r, order[..n], id, now);
      RestoreAppend(signed, map[], Dump(r, order[..n]), r[id], now);
      assert order == order[..n] + [id];
    } else {
      assert Restricted(r, order) == map[];
    }
  }

  lemma OneMoreSlot(signed: Signed, r: Ring, order: seq<NodeId>, id: NodeId, now: U64)
    requires RingOk(signed, r) && AllUnexpired(r, now) && id in r && id !in order
    ensures RestoreAll(signed, Restricted(r, order), r[id], now) == (Restricted(r, order + [id]), true)
  {
    var part := Restricted(r, order);
    SlotReplays(signed, part, id, r[id], 0, now);
    assert r[id][0..] == r[id];
    assert part[id := r[id]] == Restricted(r, order + [id]);
  }

  /** Restoring an export into an empty ring rebuilds it, whatever order the identities came out in. */
  lemma RestoreRebuilds(signed: Signed, r: Ring, order: seq<NodeId>, now: U64)
    requires RingOk(signed, r) && IsOrder(r, order)
    requires AllUnexpired(r, now)
    ensures RestoreAll(signed, map[], Dump(r, order), now) == (r, true)
  {
    DumpReplays(signed, r, order, now);
    assert Restricted(r, order) == r;
  }
}
