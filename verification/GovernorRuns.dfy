/** How much and how little the relay governor lets through, over every interleaving of senders. */
module GovernorRuns {
  import opened Common
  import opened Governor

  datatype Event =
    | SetBattery(percent: Option<nat>, charging: bool)
    | SetLoad(reading: Option<real>)
    | Join(peer: NodeId, now: int)
    | Leave(peer: NodeId)
    | Take(peer: NodeId, now: int, dir: Direction)

  function Step(g: State, e: Event): State {
    match e
    case SetBattery(percent, charging) => g.(battery := percent, charging := charging)
    case SetLoad(reading) => g.(load := if reading.Some? then MinR(MaxR(reading.value, 0.0), 1.0) else 1.0)
    case Join(p, now) => Register(g, p, now)
    case Leave(p) => g.(senders := g.senders - {p})
    case Take(p, now, d) => Taken(g, p, now, d).0
  }

  function Run(g: State, events: seq<Event>): State {
    if events == [] then g else Step(Run(g, events[..|events| - 1]), events[|events| - 1])
  }

  /** The event takes a token of `p` in direction `d`. */
  predicate Grants(g: State, e: Event, p: NodeId, d: Direction) {
    e.Take? && e.peer == p && e.dir == d && Taken(g, p, e.now, d).1
  }

  function GrantCount(g: State, events: seq<Event>, p: NodeId, d: Direction): nat {
    if events == [] then 0 else
      var n := |events| - 1;
      GrantCount(g, events[..n], p, d) + (if Grants(Run(g, events[..n]), events[n], p, d) then 1 else 0)
  }

  /** The latest time any request carried, not before `t0`. */
  function Latest(events: seq<Event>, t0: int): int {
    if events == [] then t0 else
      var n := |events| - 1;
      if events[n].Take? then Max(Latest(events[..n], t0), events[n].now) else Latest(events[..n], t0)
  }

  ghost predicate Stays(events: seq<Event>, p: NodeId) { Leave(p) !in events }

  // ---------------------------------------------------------------- arithmetic of earning

  lemma EarnedAdds(cap: real, a: int, b: int)
    ensures Earned(cap, a) + Earned(cap, b) == Earned(cap, a + b)
  {
    var r := cap / REFILL_INTERVAL_MS as real;
    assert a as real * r + b as real * r == (a + b) as real * r;
  }

  lemma EarnedMonotone(cap: real, more: real, a: int)
    requires cap <= more && a >= 0
    ensures Earned(cap, a) <= Earned(more, a)
  {
    ProductMonotone(a as real, cap / REFILL_INTERVAL_MS as real, more / REFILL_INTERVAL_MS as real);
  }

  lemma EarnedGrows(cap: real, a: int, b: int)
    requires cap >= 0.0 && a <= b
    ensures Earned(cap, a) <= Earned(cap, b)
  {
    EarnedAdds(cap, a, b - a);
    ProductNonNegative((b - a) as real, cap / REFILL_INTERVAL_MS as real);
  }

  lemma EarnedNothing(cap: real)
    ensures Earned(cap, 0) == 0.0
  {
  }

  // ---------------------------------------------------------------- one event, one bucket

  /** Topping up, between the floor rate (up to one token) and any higher rate. */
  lemma ToppedBounds(tokens: real, cap: real, most: real, elapsed: int)
    requires FLOOR_PER_SENDER as real <= cap <= most && elapsed >= 0
    ensures MinR(1.0, tokens + Earned(FLOOR_PER_SENDER as real, elapsed)) <= Topped(tokens, cap, elapsed)
    ensures Topped(tokens, cap, elapsed) <= tokens + Earned(most, elapsed)
    ensures tokens >= 0.0 ==> Topped(tokens, cap, elapsed) >= 0.0
  {
    hide Earned;
    EarnedMonotone(FLOOR_PER_SENDER as real, cap, elapsed);
    EarnedMonotone(cap, most, elapsed);
    EarnedGrows(FLOOR_PER_SENDER as real, 0, elapsed);
    EarnedNothing(FLOOR_PER_SENDER as real);
    EarnedNothing(most);
  }

  /** No bucket gains more than the highest possible rate allows for the time its clock moved. */
  lemma GainIsBounded(g: State, e: Event, p: NodeId, d: Direction)
    requires p in g.senders && e != Leave(p)
    ensures p in Step(g, e).senders && Step(g, e).capacity == g.capacity
    ensures var (q, q') := (g.senders[p], Step(g, e).senders[p]);
      && q.last <= q'.last <= (if e.Take? then Max(q.last, e.now) else q.last)
      && Tokens(q', d) + (if Grants(g, e, p, d) then 1.0 else 0.0)
           <= Tokens(q, d) + Earned(Ceiling(g.capacity) as real, q'.last - q.last)
  {
    hide PerSenderCap, Ceiling, Earned, Topped;
    var q := g.senders[p];
    EarnedNothing(Ceiling(g.capacity) as real);
    if e.Take? {
      CapBounds(g);
      ToppedBounds(Tokens(q, d), PerSenderCap(g) as real, Ceiling(g.capacity) as real, Max(e.now - q.last, 0));
    }
  }

  /** A bucket that gives nothing away gains at least the floor rate, up to one token. */
  lemma GainIsFloored(g: State, e: Event, p: NodeId, d: Direction)
    requires p in g.senders && e != Leave(p) && !Grants(g, e, p, d)
    ensures var (q, q') := (g.senders[p], Step(g, e).senders[p]);
      Tokens(q', d) >= MinR(1.0, Tokens(q, d) + Earned(FLOOR_PER_SENDER as real, q'.last - q.last))
  {
    hide PerSenderCap, Earned, Topped;
    var q := g.senders[p];
    EarnedNothing(FLOOR_PER_SENDER as real);
    CapBounds(g);
    if e.Take? {
      ToppedBounds(Tokens(q, d), PerSenderCap(g) as real, PerSenderCap(g) as real, Max(e.now - q.last, 0));
    }
  }

  // ---------------------------------------------------------------- runs

  lemma {:induction false} StaysRegistered(g: State, events: seq<Event>, p: NodeId)
    requires p in g.senders && Stays(events, p)
    ensures p in Run(g, events).senders && Run(g, events).capacity == g.capacity
    ensures Run(g, events).senders[p].last >= g.senders[p].last
  {
    hide Step;
    if events != [] {
      var n := |events| - 1;
      assert events == events[..n] + [events[n]];
      StaysRegistered(g, events[..n], p);
      GainIsBounded(Run(g, events[..n]), events[n], p, Send);
    }
  }

  /** Tokens in hand plus tokens given away never exceed what the bucket started with plus what it could earn. */
  lemma {:induction false} TokensAreConserved(g: State, events: seq<Event>, p: NodeId, d: Direction)
    requires p in g.senders && Stays(events, p)
    ensures p in Run(g, events).senders
    ensures var (q, q') := (g.senders[p], Run(g, events).senders[p]);
      && q.last <= q'.last <= Latest(events, q.last)
      && Tokens(q', d) + GrantCount(g, events, p, d) as real
           <= Tokens(q, d) + Earned(Ceiling(g.capacity) as real, q'.last - q.last)
  {
    hide Step, Grants, Earned, Ceiling, Tokens;
    var C := Ceiling(g.capacity) as real;
    if events == [] {
      EarnedNothing(C);
    } else {
      var n := |events| - 1;
      assert events == events[..n] + [events[n]];
      var mid := Run(g, events[..n]);
      TokensAreConserved(g, events[..n], p, d);
      StaysRegistered(g, events[..n], p);
      GainIsBounded(mid, events[n], p, d);
      EarnedAdds(C, mid.senders[p].last - g.senders[p].last, Run(g, events).senders[p].last - mid.senders[p].last);
    }
  }

  lemma {:induction false} TokensNeverNegative(g: State, events: seq<Event>, p: NodeId, d: Direction)
    requires p in g.senders && Stays(events, p) && Tokens(g.senders[p], d) >= 0.0
    ensures p in Run(g, events).senders && Tokens(Run(g, events).senders[p], d) >= 0.0
  {
    hide Step;
    if events != [] {
      var n := |events| - 1;
      assert events == events[..n] + [events[n]];
      TokensNeverNegative(g, events[..n], p, d);
      NonNegativeStep(Run(g, events[..n]), events[n], p, d);
    }
  }

  lemma NonNegativeStep(g: State, e: Event, p: NodeId, d: Direction)
    requires p in g.senders && e != Leave(p) && Tokens(g.senders[p], d) >= 0.0
    ensures p in Step(g, e).senders && Tokens(Step(g, e).senders[p], d) >= 0.0
  {
    hide PerSenderCap, Topped;
    CapBounds(g);
    if e.Take? {
      var a := Max(e.now - g.senders[p].last, 0);
      ToppedBounds(Tokens(g.senders[p], d), PerSenderCap(g) as real, PerSenderCap(g) as real, a);
    }
  }

  // ---------------------------------------------------------------- exact tokens while the price is steady

  lemma TakeKeepsPrice(g: State, p: NodeId, now: int, d: Direction)
    ensures Taken(g, p, now, d).0.senders.Keys == g.senders.Keys
    ensures PerSenderCap(Taken(g, p, now, d).0) == PerSenderCap(g)
  {
    hide Refilled, Tokens, Spend, BudgetPerMin;
    var g' := Taken(g, p, now, d).0;
    assert g'.senders.Keys == g.senders.Keys;
    assert |g'.senders| == |g'.senders.Keys| && |g.senders| == |g.senders.Keys|;
    SameBudget(g, g'.senders);
  }

  /** The budget does not depend on who is connected. */
  lemma SameBudget(g: State, senders: map<NodeId, Quota>)
    ensures BudgetPerMin(g.(senders := senders)) == BudgetPerMin(g)
  {
  }

  lemma ToppedTwice(x: real, cap: real, a: int, b: int, tokens: real)
    requires cap >= 0.0 && b >= 0 && MinR(tokens, cap) == MinR(x + Earned(cap, a), cap)
    ensures MinR(Topped(tokens, cap, b), cap) == MinR(x + Earned(cap, a + b), cap)
  {
    EarnedAdds(cap, a, b);
    EarnedGrows(cap, 0, b);
    EarnedNothing(cap);
    hide Earned;
  }

  /** The requests of others only. */
  ghost predicate OthersTake(events: seq<Event>, p: NodeId) {
    forall k :: 0 <= k < |events| ==> events[k].Take? && events[k].peer != p
  }

  lemma {:induction false} RefillOnce(g: State, e: Event, p: NodeId, d: Direction, x: real, a: int)
    requires p in g.senders && e.Take? && e.peer != p
    requires var cap := PerSenderCap(g) as real; MinR(Tokens(g.senders[p], d), cap) == MinR(x + Earned(cap, a), cap)
    ensures var (g', cap) := (Step(g, e), PerSenderCap(g) as real);
      && p in g'.senders && PerSenderCap(g') == PerSenderCap(g)
      && g'.senders[p].last == Max(g.senders[p].last, e.now)
      && MinR(Tokens(g'.senders[p], d), cap) == MinR(x + Earned(cap, a + g'.senders[p].last - g.senders[p].last), cap)
  {
    TakeKeepsPrice(g, e.peer, e.now, e.dir);
    hide PerSenderCap, Topped, Earned, MinR;
    ToppedTwice(x, PerSenderCap(g) as real, a, Max(e.now - g.senders[p].last, 0), Tokens(g.senders[p], d));
  }

  /**
   * Refilling is a matter of time alone: however often the others make the governor refill, a bucket nobody
   * draws on holds exactly what it held plus cap tokens a minute, up to the cap.
   */
  lemma {:induction false} RefillIsTimeOnly(g: State, events: seq<Event>, p: NodeId, d: Direction)
    requires p in g.senders && OthersTake(events, p)
    ensures var (end, cap) := (Run(g, events), PerSenderCap(g) as real);
      && p in end.senders && PerSenderCap(end) == PerSenderCap(g)
      && end.senders[p].last == Latest(events, g.senders[p].last)
      && MinR(Tokens(end.senders[p], d), cap) ==
           MinR(Tokens(g.senders[p], d) + Earned(cap, end.senders[p].last - g.senders[p].last), cap)
  {
    hide PerSenderCap, MinR, Tokens, Step, Earned;
    if events == [] {
      EarnedNothing(PerSenderCap(g) as real);
    } else {
      var n := |events| - 1;
      RefillIsTimeOnly(g, events[..n], p, d);
      RefillOnce(Run(g, events[..n]), events[n], p, d, Tokens(g.senders[p], d),
                 Run(g, events[..n]).senders[p].last - g.senders[p].last);
    }
  }

  /** Requests of one sender alone, all at one time. */
  ghost predicate Burst(events: seq<Event>, p: NodeId, t0: int) {
    forall k :: 0 <= k < |events| ==> events[k].Take? && events[k].peer == p && events[k].now == t0
  }

  function Requests(events: seq<Event>, d: Direction): nat {
    if events == [] then 0 else
      var e := events[|events| - 1];
      Requests(events[..|events| - 1], d) + (if e.Take? && e.dir == d then 1 else 0)
  }

  lemma {:induction false} BurstStep(g: State, p: NodeId, t0: int, dir: Direction, d: Direction, left: nat)
    requires p in g.senders && g.senders[p].last == t0
    requires MinR(Tokens(g.senders[p], d), PerSenderCap(g) as real) == left as real
    ensures var (g', ok) := Taken(g, p, t0, dir);
      && p in g'.senders && g'.senders[p].last == t0
      && (dir == d ==> ok == (left > 0))
      && Tokens(g'.senders[p], d) == (left - (if dir == d && left > 0 then 1 else 0)) as real
  {
    hide PerSenderCap, Earned;
  }

  lemma {:induction false} BurstRun(g: State, events: seq<Event>, p: NodeId, t0: int, d: Direction)
    requires p in g.senders && g.senders[p].last == t0 && Burst(events, p, t0)
    requires Tokens(g.senders[p], d) >= PerSenderCap(g) as real
    ensures var (end, cap, asked) := (Run(g, events), PerSenderCap(g), Requests(events, d));
      && p in end.senders && end.senders[p].last == t0 && PerSenderCap(end) == cap
      && GrantCount(g, events, p, d) == Min(asked, cap)
      && MinR(Tokens(end.senders[p], d), cap as real) == (cap - Min(asked, cap)) as real
  {
    hide PerSenderCap;
    if events != [] {
      var n := |events| - 1;
      var mid, e := Run(g, events[..n]), events[n];
      BurstRun(g, events[..n], p, t0, d);
      TakeKeepsPrice(mid, p, t0, e.dir);
      var left := PerSenderCap(g) - Min(Requests(events[..n], d), PerSenderCap(g));
      BurstStep(mid, p, t0, e.dir, d, left);
      hide Taken;
    }
  }

  lemma PriceFallsWithCrowd(g: State, p: NodeId, now: int)
    requires p !in g.senders
    ensures PerSenderCap(Register(g, p, now)) <= PerSenderCap(g)
  {
    var g' := Register(g, p, now);
    SameBudget(g, g'.senders);
    hide BudgetPerMin;
    assert g'.senders.Keys == g.senders.Keys + {p};
    assert |g'.senders| == |g'.senders.Keys| && |g.senders| == |g.senders.Keys|;
    QuotientFalls(BudgetPerMin(g), |g.senders|);
  }

  lemma QuotientFalls(b: nat, n: nat)
    ensures b / (n + 1) <= if n == 0 then b else b / n
  {
    if n > 0 {
      var q := b / (n + 1);
      assert q * (n + 1) <= b;
      assert q * n <= b;
      QuotientAtLeast(b, n, q);
    } else {
      assert b / 1 == b;
    }
  }

  lemma QuotientAtLeast(b: nat, n: nat, q: nat)
    requires n > 0 && q * n <= b
    ensures q <= b / n
  {
    QuotientBounds(b, n);
    if q > b / n { ProductGrows(b / n + 1, q, n); }
  }

  /** A new sender starts with full buckets: at once, exactly its cap of requests is granted in each direction. */
  lemma {:induction false} NewSenderHasFullBuckets(g: State, p: NodeId, t0: int, events: seq<Event>, d: Direction)
    requires p !in g.senders && Burst(events, p, t0)
    ensures var g0 := Register(g, p, t0); GrantCount(g0, events, p, d) == Min(Requests(events, d), PerSenderCap(g0))
  {
    PriceFallsWithCrowd(g, p, t0);
    hide PerSenderCap;
    BurstRun(Register(g, p, t0), events, p, t0, d);
  }

  /**
   * Upper bound: from registration at `t0` on, whatever all other senders, the battery and the load do,
   * a sender is granted at most C + C·(T − t0)/60000 requests in each direction, where C is the largest
   * cap the capacity allows and T the latest time seen.
   */
  lemma {:induction false} GrantsAreBounded(g: State, p: NodeId, t0: int, events: seq<Event>, d: Direction)
    requires p !in g.senders && Stays(events, p)
    ensures var (g0, C) := (Register(g, p, t0), Ceiling(g.capacity) as real);
      GrantCount(g0, events, p, d) as real <= C + C * (Latest(events, t0) - t0) as real / 60_000.0
  {
    var g0, C := Register(g, p, t0), Ceiling(g.capacity) as real;
    CapBounds(g);
    hide PerSenderCap, Ceiling, Run, GrantCount;
    assert g0.senders[p].last == t0 && 0.0 <= Tokens(g0.senders[p], d) <= C;
    TokensAreConserved(g0, events, p, d);
    TokensNeverNegative(g0, events, p, d);
    EarnedGrows(C, Run(g0, events).senders[p].last - t0, Latest(events, t0) - t0);
    EarnedFormula(C, Latest(events, t0) - t0);
  }

  lemma EarnedFormula(cap: real, ms: int)
    ensures Earned(cap, ms) == cap * ms as real / 60_000.0
  {
  }

  lemma {:induction false} FloorAccumulates(g: State, events: seq<Event>, p: NodeId, d: Direction)
    requires p in g.senders && Stays(events, p) && Tokens(g.senders[p], d) >= 0.0 && GrantCount(g, events, p, d) == 0
    ensures p in Run(g, events).senders && Run(g, events).senders[p].last >= g.senders[p].last
    ensures Tokens(Run(g, events).senders[p], d)
      >= MinR(1.0, Earned(FLOOR_PER_SENDER as real, Run(g, events).senders[p].last - g.senders[p].last))
  {
    hide Step, Grants, Earned, Tokens;
    if events == [] {
      EarnedNothing(FLOOR_PER_SENDER as real);
    } else {
      var n := |events| - 1;
      assert events == events[..n] + [events[n]];
      var mid := Run(g, events[..n]);
      FloorAccumulates(g, events[..n], p, d);
      GainIsBounded(mid, events[n], p, d);
      GainIsFloored(mid, events[n], p, d);
      var a, b := mid.senders[p].last - g.senders[p].last, Run(g, events).senders[p].last - mid.senders[p].last;
      EarnedAdds(FLOOR_PER_SENDER as real, a, b);
      EarnedGrows(FLOOR_PER_SENDER as real, 0, b);
      EarnedNothing(FLOOR_PER_SENDER as real);
    }
  }

  /**
   * Service floor: a registered sender that was granted nothing in a direction while its refill clock
   * moved ten seconds is granted its next request, whatever everyone else, the battery and the load did.
   */
  lemma {:induction false} ServiceFloor(g: State, events: seq<Event>, p: NodeId, d: Direction, now: int)
    requires p in g.senders && Stays(events, p) && Tokens(g.senders[p], d) >= 0.0 && GrantCount(g, events, p, d) == 0
    requires p in Run(g, events).senders && Max(Run(g, events).senders[p].last, now) - g.senders[p].last >= 10_000
    ensures Taken(Run(g, events), p, now, d).1
  {
    var end := Run(g, events);
    FloorAccumulates(g, events, p, d);
    hide Run, GrantCount;
    FloorGrants(end, p, d, now, end.senders[p].last - g.senders[p].last);
  }

  lemma FloorGrants(g: State, p: NodeId, d: Direction, now: int, waited: int)
    requires p in g.senders && waited >= 0
    requires Tokens(g.senders[p], d) >= MinR(1.0, Earned(FLOOR_PER_SENDER as real, waited))
    requires waited + Max(now - g.senders[p].last, 0) >= 10_000
    ensures Taken(g, p, now, d).1
  {
    var a := Max(now - g.senders[p].last, 0);
    CapBounds(g);
    ToppedBounds(Tokens(g.senders[p], d), PerSenderCap(g) as real, PerSenderCap(g) as real, a);
    EarnedAdds(FLOOR_PER_SENDER as real, waited, a);
    EarnedGrows(FLOOR_PER_SENDER as real, 10_000, waited + a);
    assert Earned(FLOOR_PER_SENDER as real, 10_000) == 1.0;
    EarnedGrows(FLOOR_PER_SENDER as real, 0, a);
    EarnedNothing(FLOOR_PER_SENDER as real);
    hide PerSenderCap, Earned, Topped;
  }
}
