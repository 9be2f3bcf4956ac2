/** At most one acceptance per ticket, over every run of a relay gate. */
module RelayRuns {
  import opened Common
  import opened Payloads
  import opened Relay

  datatype Call = Call(ticket: RelayTicket, now: RelayMs, challenge: Bytes32)

  /** A run: the caches before and after every call, each step one that `Accepts` allows. */
  datatype History = History(crypto: Crypto, capacity: nat, calls: seq<Call>, caches: seq<Seen>, answers: seq<bool>) {

    ghost predicate IsRun() {
      && |caches| == |calls| + 1 && |answers| == |calls|
      && caches[0] == map[]
      && forall i :: 0 <= i < |calls| ==> StepAt(i)
    }

    ghost predicate StepAt(i: nat)
      requires |caches| == |calls| + 1 && |answers| == |calls| && i < |calls|
    {
      Accepts(crypto, capacity, caches[i], calls[i].ticket, calls[i].now, calls[i].challenge, caches[i + 1], answers[i])
    }

    ghost predicate TimeRises() {
      forall i, j :: 0 <= i < j < |calls| ==> calls[i].now <= calls[j].now
    }

    /** Once replaced a challenge does not come back. */
    ghost predicate ChallengesAreNotReused() {
      forall i, j, k :: 0 <= i < j < k < |calls| && calls[i].challenge == calls[k].challenge ==>
        calls[j].challenge == calls[i].challenge
    }

    ghost predicate VerifiesAt(i: nat)
      requires i < |calls|
    {
      Verifies(crypto, calls[i].ticket, calls[i].now, calls[i].challenge)
    }

    function Fp(i: nat): Bytes32
      requires i < |calls|
    {
      Fingerprint(crypto, calls[i].ticket)
    }

    /** What an acceptance of call `i` writes. */
    function EntryOf(i: nat): Entry
      requires i < |calls|
    {
      Entry(calls[i].ticket.expiry, calls[i].ticket.origin, calls[i].challenge)
    }

    /** The entries call `m` finds still worth keeping. */
    ghost function LiveAt(m: nat): Seen
      requires m < |calls| && m < |caches|
    {
      Live(caches[m], calls[m].now, calls[m].challenge)
    }

    /** The distinct tickets, by fingerprint, validly presented for `origin` while `challenge` was in force. */
    ghost function Presented(origin: NodeId, challenge: Bytes32): set<Bytes32> {
      set i | 0 <= i < |calls| && calls[i].ticket.origin == origin && calls[i].challenge == challenge
              && VerifiesAt(i) :: Fp(i)
    }
  }

  lemma {:induction false} StepExists(crypto: Crypto, capacity: nat, seen: Seen, c: Call)
    returns (seen': Seen, ok: bool)
    ensures Accepts(crypto, capacity, seen, c.ticket, c.now, c.challenge, seen', ok)
  {
    hide Verifies, Fingerprint;
    var fp, entry := Fingerprint(crypto, c.ticket), Entry(c.ticket.expiry, c.ticket.origin, c.challenge);
    var live := Live(seen, c.now, c.challenge);
    if !Verifies(crypto, c.ticket, c.now, c.challenge) || fp in seen {
      seen', ok := seen, false;
    } else if |Slots(live, c.ticket.origin)| >= MAX_SLOTS_PER_ORIGIN {
      var k := OldestExists(live, c.ticket.origin, Slots(live, c.ticket.origin));
      assert IsOldest(live, c.ticket.origin, k);
      seen', ok := (live - {k})[fp := entry], true;
    } else if |live| >= capacity {
      seen', ok := live, false;
    } else {
      seen', ok := live[fp := entry], true;
    }
  }

  /** Every sequence of calls has a run, so what is proved of runs is proved of every sequence of calls. */
  lemma {:induction false} RunExists(crypto: Crypto, capacity: nat, calls: seq<Call>) returns (h: History)
    ensures h.IsRun() && h.crypto == crypto && h.capacity == capacity && h.calls == calls
  {
    hide Accepts;
    if calls == [] {
      h := History(crypto, capacity, [], [map[]], []);
    } else {
      var n := |calls| - 1;
      var g := RunExists(crypto, capacity, calls[..n]);
      var next, ok := StepExists(crypto, capacity, g.caches[n], calls[n]);
      h := History(crypto, capacity, calls, g.caches + [next], g.answers + [ok]);
      forall i | 0 <= i < |calls| ensures h.StepAt(i) {
        assert i < n ==> g.StepAt(i);
      }
    }
  }

  /** The bounds hold after every call of every run, even when time or challenges go back. */
  lemma {:induction false} BoundsHoldThroughout(h: History, i: nat)
    requires h.IsRun() && h.capacity >= 1 && i <= |h.calls|
    ensures Within(h.caches[i], h.capacity)
  {
    if i > 0 {
      BoundsHoldThroughout(h, i - 1);
      assert h.StepAt(i - 1);
      var c := h.calls[i - 1];
      AcceptsKeepsBounds(h.crypto, h.capacity, h.caches[i - 1], c.ticket, c.now, c.challenge,
                         h.caches[i], h.answers[i - 1]);
    }
  }

  /** Entry `e` for `k` is what some accepted call before `i` wrote. */
  ghost predicate Genuine(h: History, i: nat, k: Bytes32, e: Entry)
    requires h.IsRun() && i <= |h.calls|
  {
    exists a :: 0 <= a < i && h.answers[a] && h.VerifiesAt(a) && h.Fp(a) == k && h.EntryOf(a) == e
  }

  lemma {:induction false} EntriesAreGenuine(h: History, i: nat)
    requires h.IsRun() && i <= |h.calls|
    ensures forall k :: k in h.caches[i] ==> Genuine(h, i, k, h.caches[i][k])
  {
    hide Verifies, Fingerprint;
    if i > 0 {
      EntriesAreGenuine(h, i - 1);
      assert h.StepAt(i - 1);
      forall k | k in h.caches[i] ensures Genuine(h, i, k, h.caches[i][k]) {
        if k in h.caches[i - 1] && h.caches[i][k] == h.caches[i - 1][k] {
          assert Genuine(h, i - 1, k, h.caches[i - 1][k]);
        } else {
          assert h.Fp(i - 1) == k && h.EntryOf(i - 1) == h.caches[i][k];
        }
      }
    }
  }

  /** What an acceptable ticket is, in full: signed by its origin, bound to the challenge, short-lived and in time. */
  ghost predicate Acceptable(crypto: Crypto, c: Call) {
    var t := c.ticket;
    && |t.sig| == 64 && crypto.signed(t.origin, TicketPayload(t), t.sig)
    && (exists i :: 0 <= i < 16 && t.nonce[i] != 0)
    && t.challenge == c.challenge
    && t.expiry <= t.issuedAt + 7_200_000
    && t.issuedAt <= c.now + 120_000 && c.now <= t.expiry + 120_000
  }

  lemma {:induction false} VerifiesIff(crypto: Crypto, c: Call)
    ensures Verifies(crypto, c.ticket, c.now, c.challenge) <==> Acceptable(crypto, c)
  {
    var zero: Bytes16 := seq(16, _ => 0);
    assert c.ticket.nonce == zero <==> forall i :: 0 <= i < 16 ==> c.ticket.nonce[i] == 0;
  }

  /** On every run a ticket is taken exactly when it is acceptable, not cached, and there is a slot to free or room. */
  lemma {:induction false} AcceptedIff(h: History, i: nat)
    requires h.IsRun() && i < |h.calls|
    ensures h.answers[i] <==> (
      && Acceptable(h.crypto, h.calls[i]) && h.Fp(i) !in h.caches[i]
      && (|Slots(h.LiveAt(i), h.calls[i].ticket.origin)| >= 4 || |h.LiveAt(i)| < h.capacity))
  {
    assert h.StepAt(i);
    VerifiesIff(h.crypto, h.calls[i]);
    hide Verifies, Fingerprint, Acceptable, Slots, Live;
  }

  /** An origin with at most four tickets under a challenge never has one displaced by another. */
  lemma NoDisplacement(h: History, m: nat)
    requires h.IsRun() && m < |h.calls|
    requires var c := h.calls[m]; |h.Presented(c.ticket.origin, c.challenge)| <= MAX_SLOTS_PER_ORIGIN
    requires h.VerifiesAt(m) && Fingerprint(h.crypto, h.calls[m].ticket) !in h.caches[m]
    ensures var c := h.calls[m];
      |Slots(Live(h.caches[m], c.now, c.challenge), c.ticket.origin)| < MAX_SLOTS_PER_ORIGIN
  {
    hide Verifies, Fingerprint, Accepts;
    var c := h.calls[m];
    var fp, presented := Fingerprint(h.crypto, c.ticket), h.Presented(c.ticket.origin, c.challenge);
    var slots := Slots(Live(h.caches[m], c.now, c.challenge), c.ticket.origin);
    EntriesAreGenuine(h, m);
    assert fp in presented;
    assert slots <= presented - {fp} by {
      forall k | k in slots ensures k in presented - {fp} {
        assert Genuine(h, m, k, h.caches[m][k]);
      }
    }
    SubsetSize(slots, presented - {fp});
  }

  /** The entry written when call `i` accepted its ticket is still there just before call `m`. */
  lemma {:induction false} EntrySurvives(h: History, i: nat, m: nat)
    requires h.IsRun() && i < m <= |h.calls| && h.answers[i]
    requires forall j :: i < j < m ==> h.calls[j].challenge == h.calls[i].challenge
    requires forall j :: i < j < m ==> h.calls[j].now < h.calls[i].ticket.expiry + SKEW_MS
    requires |h.Presented(h.calls[i].ticket.origin, h.calls[i].challenge)| <= MAX_SLOTS_PER_ORIGIN
    ensures var (t, fp) := (h.calls[i].ticket, Fingerprint(h.crypto, h.calls[i].ticket));
      fp in h.caches[m] && h.caches[m][fp] == Entry(t.expiry, t.origin, h.calls[i].challenge)
  {
    hide Verifies, Fingerprint;
    assert h.StepAt(m - 1);
    if m > i + 1 {
      EntrySurvives(h, i, m - 1);
      var c := h.calls[m - 1];
      if c.ticket.origin == h.calls[i].ticket.origin && h.VerifiesAt(m - 1)
         && Fingerprint(h.crypto, c.ticket) !in h.caches[m - 1] {
        NoDisplacement(h, m - 1);
      }
    }
  }

  /**
   * The same ticket is not accepted twice at times strictly before its expiry plus the skew,
   * however many tickets other origins present in between, as long as its own origin validly
   * presents at most four under that challenge.
   */
  lemma AtMostOnce(h: History, i: nat, j: nat)
    requires h.IsRun() && h.TimeRises() && h.ChallengesAreNotReused()
    requires i < j < |h.calls|
    requires TicketPayload(h.calls[i].ticket) == TicketPayload(h.calls[j].ticket)
    requires h.calls[j].now < h.calls[j].ticket.expiry + SKEW_MS
    requires |h.Presented(h.calls[i].ticket.origin, h.calls[i].challenge)| <= MAX_SLOTS_PER_ORIGIN
    ensures !(h.answers[i] && h.answers[j])
  {
    var t, u := h.calls[i].ticket, h.calls[j].ticket;
    TicketPayloadIsInjective(t, u);
    assert h.StepAt(i) && h.StepAt(j);
    if h.answers[i] && Verifies(h.crypto, u, h.calls[j].now, h.calls[j].challenge) {
      assert h.calls[i].challenge == t.challenge == u.challenge == h.calls[j].challenge;
      EntrySurvives(h, i, j);
    }
  }

  // ---------------------------------------------------------------- when an entry goes

  /** Call `m` verifies and is not cached, so it prunes. */
  ghost predicate Prunes(h: History, m: nat)
    requires h.IsRun() && m < |h.calls|
  {
    h.VerifiesAt(m) && h.Fp(m) !in h.caches[m]
  }

  /** Call `m` comes at the expiry of ticket `i` plus the skew or later, or with another challenge. */
  ghost predicate Outlives(h: History, i: nat, m: nat)
    requires i < m < |h.calls|
  {
    h.calls[m].now >= h.calls[i].ticket.expiry + SKEW_MS || h.calls[m].challenge != h.calls[i].challenge
  }

  /** Call `m` is of the origin of ticket `i` and finds four live slots of that origin. */
  ghost predicate Crowds(h: History, i: nat, m: nat)
    requires h.IsRun() && i < m < |h.calls|
  {
    && h.calls[m].ticket.origin == h.calls[i].ticket.origin
    && |Slots(h.LiveAt(m), h.calls[i].ticket.origin)| >= MAX_SLOTS_PER_ORIGIN
  }

  /** None of those slots expires sooner than ticket `i`. */
  ghost predicate NoneSooner(h: History, i: nat, m: nat)
    requires h.IsRun() && i < m < |h.calls|
  {
    forall k: Bytes32 :: k in Slots(h.LiveAt(m), h.calls[i].ticket.origin) ==>
      h.calls[i].ticket.expiry <= h.LiveAt(m)[k].expiry
  }

  /** All the others expire later than ticket `i`. */
  ghost predicate OthersLater(h: History, i: nat, m: nat)
    requires h.IsRun() && i < m < |h.calls|
  {
    forall k: Bytes32 :: k in Slots(h.LiveAt(m), h.calls[i].ticket.origin) && k != h.Fp(i) ==>
      h.calls[i].ticket.expiry < h.LiveAt(m)[k].expiry
  }

  ghost predicate MayRemove(h: History, i: nat, m: nat)
    requires h.IsRun() && i < m < |h.calls|
  {
    Prunes(h, m) && (Outlives(h, i, m) || (Crowds(h, i, m) && NoneSooner(h, i, m)))
  }

  ghost predicate MustRemove(h: History, i: nat, m: nat)
    requires h.IsRun() && i < m < |h.calls|
  {
    Prunes(h, m) && (Outlives(h, i, m) || (Crowds(h, i, m) && OthersLater(h, i, m)))
  }

  ghost predicate Holds(h: History, i: nat, m: nat)
    requires h.IsRun() && i < m <= |h.calls|
  {
    h.Fp(i) in h.caches[m] && h.caches[m][h.Fp(i)] == h.EntryOf(i)
  }

  /** Between `i` and `j` no call accepts a ticket with the fingerprint of ticket `i`. */
  ghost predicate NotReaccepted(h: History, i: nat, j: nat)
    requires h.IsRun() && i < j <= |h.calls|
  {
    forall m :: i < m < j && h.Fp(m) == h.Fp(i) ==> !h.answers[m]
  }

  lemma {:induction false} AcceptanceHolds(h: History, i: nat)
    requires h.IsRun() && i < |h.calls| && h.answers[i]
    ensures Holds(h, i, i + 1)
  {
    hide Verifies, Fingerprint;
    assert h.StepAt(i);
  }

  lemma {:induction false} HeldStep(h: History, i: nat, m: nat)
    requires h.IsRun() && i < m < |h.calls| && Holds(h, i, m)
    ensures h.Fp(i) in h.caches[m + 1] ==> Holds(h, i, m + 1)
    ensures MustRemove(h, i, m) ==> h.Fp(i) !in h.caches[m + 1]
    ensures h.Fp(i) !in h.caches[m + 1] ==> MayRemove(h, i, m)
  {
    hide Verifies, Fingerprint;
    assert h.StepAt(m);
  }

  lemma {:induction false} GoneStep(h: History, i: nat, m: nat)
    requires h.IsRun() && i < m < |h.calls| && h.Fp(i) !in h.caches[m]
    requires h.Fp(m) == h.Fp(i) ==> !h.answers[m]
    ensures h.Fp(i) !in h.caches[m + 1]
  {
    hide Verifies, Fingerprint;
    assert h.StepAt(m);
  }

  /** On every run, whatever the ties: an entry that must be removed is gone, and one that is gone could be removed. */
  lemma {:induction false} EntryFate(h: History, i: nat, j: nat)
    requires h.IsRun() && i < j <= |h.calls| && h.answers[i] && NotReaccepted(h, i, j)
    ensures h.Fp(i) in h.caches[j] ==> Holds(h, i, j)
    ensures (exists m :: i < m < j && MustRemove(h, i, m)) ==> h.Fp(i) !in h.caches[j]
    ensures h.Fp(i) !in h.caches[j] ==> (exists m :: i < m < j && MayRemove(h, i, m))
  {
    hide MayRemove, MustRemove;
    if j == i + 1 {
      AcceptanceHolds(h, i);
    } else {
      EntryFate(h, i, j - 1);
      if h.Fp(i) in h.caches[j - 1] {
        HeldStep(h, i, j - 1);
      } else {
        GoneStep(h, i, j - 1);
      }
    }
  }

  /** Accepted tickets of one origin and challenge that differ also expire at different times. */
  ghost predicate ExpiriesDiffer(h: History)
    requires h.IsRun()
  {
    forall a, b :: 0 <= a < |h.calls| && 0 <= b < |h.calls| && h.answers[a] && h.answers[b] ==>
      h.EntryOf(a) == h.EntryOf(b) ==> h.Fp(a) == h.Fp(b)
  }

  lemma {:induction false} MayIsMust(h: History, i: nat, m: nat)
    requires h.IsRun() && i < m < |h.calls| && h.answers[i] && ExpiriesDiffer(h)
    requires MayRemove(h, i, m)
    ensures MustRemove(h, i, m)
  {
    hide Verifies, Fingerprint;
    EntriesAreGenuine(h, m);
    if !Outlives(h, i, m) {
      var live := h.LiveAt(m);
      forall k: Bytes32 | k in Slots(live, h.calls[i].ticket.origin) && k != h.Fp(i)
        ensures h.calls[i].ticket.expiry < live[k].expiry
      {
        assert Genuine(h, m, k, h.caches[m][k]);
      }
    }
  }

  /**
   * Exactly when an accepted entry is gone: some pruning call in between came at its expiry plus the skew or
   * later, or with another challenge, or found four live slots of its origin, all others expiring later.
   */
  lemma {:induction false} GoneIff(h: History, i: nat, j: nat)
    requires h.IsRun() && i < j <= |h.calls| && h.answers[i] && NotReaccepted(h, i, j) && ExpiriesDiffer(h)
    ensures h.Fp(i) !in h.caches[j] <==> exists m :: i < m < j && MustRemove(h, i, m)
  {
    hide MayRemove, MustRemove, ExpiriesDiffer;
    EntryFate(h, i, j);
    if h.Fp(i) !in h.caches[j] {
      var m :| i < m < j && MayRemove(h, i, m);
      MayIsMust(h, i, m);
    }
  }

  /** So exactly when a replay escapes: its entry was removed, and call `j` finds a slot to free or room. */
  lemma {:induction false} ReplayedIff(h: History, i: nat, j: nat)
    requires h.IsRun() && i < j < |h.calls| && h.answers[i] && NotReaccepted(h, i, j) && ExpiriesDiffer(h)
    requires h.calls[j].ticket == h.calls[i].ticket && h.VerifiesAt(j)
    ensures h.answers[j] <==> (
      && (exists m :: i < m < j && MustRemove(h, i, m))
      && (|Slots(h.LiveAt(j), h.calls[j].ticket.origin)| >= MAX_SLOTS_PER_ORIGIN || |h.LiveAt(j)| < h.capacity))
  {
    GoneIff(h, i, j);
    assert h.StepAt(j);
    hide Verifies, Fingerprint, MustRemove, ExpiriesDiffer;
  }

  // ---------------------------------------------------------------- two runs on which a ticket is accepted twice

  lemma {:induction false} FirstIsAccepted(h: History)
    requires h.IsRun() && h.calls != [] && h.capacity >= 1 && h.VerifiesAt(0)
    ensures h.answers[0] && h.caches[1] == map[h.Fp(0) := h.EntryOf(0)]
  {
    hide Verifies, Fingerprint;
    assert h.StepAt(0);
    assert h.LiveAt(0) == map[] && Slots(h.LiveAt(0), h.calls[0].ticket.origin) == {};
  }

  /** At expiry plus skew exactly, any other ticket flushes the entry and the first one is taken again. */
  lemma {:induction false} BoundaryReplays(h: History)
    requires h.IsRun() && |h.calls| == 3 && h.capacity >= 2
    requires h.VerifiesAt(0) && h.VerifiesAt(1) && h.VerifiesAt(2)
    requires h.calls[2].ticket == h.calls[0].ticket && h.Fp(1) != h.Fp(0)
    requires h.calls[1].now == h.calls[2].now == h.calls[0].ticket.expiry + SKEW_MS
    ensures h.answers[0] && h.answers[2]
  {
    hide Verifies, Fingerprint;
    FirstIsAccepted(h);
    assert h.StepAt(1) && h.StepAt(2);
    assert h.LiveAt(1) == map[] && Slots(h.LiveAt(1), h.calls[1].ticket.origin) == {};
    var one: Seen := map[h.Fp(1) := h.EntryOf(1)];
    assert h.caches[2] == one;
    SubmapSize(h.LiveAt(2), one);
    SubsetSize(Slots(h.LiveAt(2), h.calls[2].ticket.origin), {h.Fp(1)});
  }

  /** Five different live tickets of one origin under one challenge, then the first to expire again. */
  ghost predicate FiveAndAgain(h: History) {
    && |h.calls| == 6 && h.calls[5].ticket == h.calls[0].ticket
    && (forall a :: 0 <= a < 6 ==> h.VerifiesAt(a) && h.calls[a].now < h.calls[a].ticket.expiry + SKEW_MS)
    && (forall a :: 0 <= a < 6 ==> h.calls[a].now == h.calls[0].now && h.calls[a].challenge == h.calls[0].challenge)
    && (forall a :: 0 <= a < 6 ==> h.calls[a].ticket.origin == h.calls[0].ticket.origin)
    && (forall a, b :: 0 <= a < b < 5 ==> h.Fp(a) != h.Fp(b))
    && (forall b :: 0 < b < 5 ==> h.calls[0].ticket.expiry < h.calls[b].ticket.expiry)
  }

  ghost function Fps(h: History, from: nat, to: nat): set<Bytes32>
    requires from <= to <= |h.calls|
  {
    set a | from <= a < to :: h.Fp(a)
  }

  lemma {:induction false} FpsCount(h: History, from: nat, to: nat)
    requires from <= to <= |h.calls| && forall a, b :: from <= a < b < to ==> h.Fp(a) != h.Fp(b)
    ensures |Fps(h, from, to)| == to - from
  {
    hide Fingerprint;
    if from < to {
      FpsCount(h, from, to - 1);
      assert Fps(h, from, to) == Fps(h, from, to - 1) + {h.Fp(to - 1)};
    }
  }

  /** Before call `n` the cache holds exactly the entries of the calls from `from` on. */
  ghost predicate HoldsCalls(h: History, from: nat, n: nat)
    requires h.IsRun() && from <= n <= |h.calls|
  {
    && h.caches[n].Keys == Fps(h, from, n)
    && forall a :: from <= a < n ==> h.Fp(a) in h.caches[n] && h.caches[n][h.Fp(a)] == h.EntryOf(a)
  }

  /** All of them are live slots of the one origin. */
  lemma {:induction false} AllLive(h: History, from: nat, n: nat)
    requires h.IsRun() && FiveAndAgain(h) && from <= n < 6 && HoldsCalls(h, from, n)
    ensures h.LiveAt(n) == h.caches[n] && Slots(h.LiveAt(n), h.calls[n].ticket.origin) == Fps(h, from, n)
    ensures n <= 5 ==> |Fps(h, from, n)| == |h.LiveAt(n)| == n - from
  {
    hide Verifies, Fingerprint;
    FpsCount(h, from, n);
    assert |h.caches[n].Keys| == |h.caches[n]|;
  }

  /** With fewer than four of them there is room for the next. */
  lemma {:induction false} SlotFills(h: History, n: nat)
    requires h.IsRun() && FiveAndAgain(h) && h.capacity >= 4 && n < 4 && HoldsCalls(h, 0, n)
    ensures h.answers[n] && h.caches[n + 1] == h.caches[n][h.Fp(n) := h.EntryOf(n)]
  {
    AllLive(h, 0, n);
    assert h.VerifiesAt(n) && h.Fp(n) !in h.caches[n];
    hide Verifies, Fingerprint, FiveAndAgain, HoldsCalls, Fps, Slots, Live;
    assert h.StepAt(n);
  }

  lemma {:induction false} HeldGrows(h: History, n: nat)
    requires h.IsRun() && n < |h.calls| && HoldsCalls(h, 0, n) && h.Fp(n) !in Fps(h, 0, n)
    requires h.caches[n + 1] == h.caches[n][h.Fp(n) := h.EntryOf(n)]
    ensures HoldsCalls(h, 0, n + 1)
  {
    hide Verifies, Fingerprint, Accepts;
  }

  lemma {:induction false} SlotsFill(h: History, n: nat)
    requires h.IsRun() && FiveAndAgain(h) && h.capacity >= 4 && n <= 4
    ensures HoldsCalls(h, 0, n)
  {
    hide Verifies, Fingerprint, Accepts;
    if n > 0 {
      SlotsFill(h, n - 1);
      SlotFills(h, n - 1);
      HeldGrows(h, n - 1);
    }
  }

  lemma {:induction false} FifthDropsOldest(h: History) returns (k: Bytes32)
    requires h.IsRun() && FiveAndAgain(h) && HoldsCalls(h, 0, 4)
    ensures IsOldest(h.caches[4], h.calls[4].ticket.origin, k)
    ensures h.caches[5] == (h.caches[4] - {k})[h.Fp(4) := h.EntryOf(4)]
  {
    AllLive(h, 0, 4);
    assert h.VerifiesAt(4) && h.Fp(4) !in h.caches[4];
    hide Verifies, Fingerprint, FiveAndAgain, HoldsCalls, Fps, Slots, Live, IsOldest;
    assert h.StepAt(4);
    k :| IsOldest(h.caches[4], h.calls[4].ticket.origin, k) &&
      h.caches[5] == (h.caches[4] - {k})[h.Fp(4) := h.EntryOf(4)];
  }

  lemma {:induction false} FirstIsOldest(h: History, k: Bytes32)
    requires h.IsRun() && FiveAndAgain(h) && HoldsCalls(h, 0, 4) && IsOldest(h.caches[4], h.calls[4].ticket.origin, k)
    ensures k == h.Fp(0)
  {
    hide Verifies, Fingerprint, Accepts;
    assert h.Fp(0) in Slots(h.caches[4], h.calls[4].ticket.origin);
  }

  /** The fifth ticket drops exactly the first. */
  lemma {:induction false} FifthDropsFirst(h: History)
    requires h.IsRun() && FiveAndAgain(h) && HoldsCalls(h, 0, 4)
    ensures HoldsCalls(h, 1, 5)
  {
    hide Verifies, Fingerprint, Accepts, IsOldest;
    var k := FifthDropsOldest(h);
    FirstIsOldest(h, k);
    assert Fps(h, 1, 5) == Fps(h, 0, 4) - {h.Fp(0)} + {h.Fp(4)};
  }

  lemma {:induction false} ReturnsIntoFullSlots(h: History)
    requires h.IsRun() && FiveAndAgain(h) && HoldsCalls(h, 1, 5)
    ensures h.answers[5]
  {
    AllLive(h, 1, 5);
    assert h.VerifiesAt(5) && h.Fp(5) == h.Fp(0) && h.Fp(5) !in h.caches[5];
    hide Verifies, Fingerprint, FiveAndAgain, HoldsCalls, Fps, Slots, Live;
    assert h.StepAt(5);
  }

  /** So the limit of four is exact: a fifth ticket lets the first in again, unexpired and at the same instant. */
  lemma {:induction false} FifthTicketReplays(h: History)
    requires h.IsRun() && FiveAndAgain(h) && h.capacity >= 4
    ensures h.answers[0] && h.answers[5]
  {
    hide Verifies, Fingerprint, Accepts, HoldsCalls;
    FirstIsAccepted(h);
    SlotsFill(h, 4);
    FifthDropsFirst(h);
    ReturnsIntoFullSlots(h);
  }
}
