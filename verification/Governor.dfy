/**
 * The relay governor (crates/core/src/governor.rs): per-sender token buckets whose size and refill
 * rate follow battery, load and crowd. `f64` is modelled by exact reals.
 */
module Governor {
  import opened Common

  const SHARE_FULL := 0.15
  const SHARE_FLOOR := 0.03
  const BATTERY_CURVE_START := 40.0
  const BATTERY_CURVE_END := 5.0
  const LOAD_CURVE_START := 0.6
  const LOAD_CURVE_END := 1.0
  const FLOOR_PER_SENDER := 6
  const REFILL_INTERVAL_MS := 60_000

  // ---------------------------------------------------------------- pricing

  function MinR(a: real, b: real): real { if a <= b then a else b }

  function MaxR(a: real, b: real): real { if a >= b then a else b }

  function Smoothstep(t: real): real {
    var u := MinR(MaxR(t, 0.0), 1.0);
    u * u * (3.0 - 2.0 * u)
  }

  function Curve(t: real): real { SHARE_FLOOR + (SHARE_FULL - SHARE_FLOOR) * Smoothstep(t) }

  datatype Quota = Quota(send: real, recv: real, last: int)

  datatype State = State(capacity: nat, battery: Option<nat>, charging: bool, load: real, senders: map<NodeId, Quota>)

  function BatteryShare(g: State): real {
    match g.battery
    case None => SHARE_FULL
    case Some(p) =>
      if g.charging then SHARE_FULL
      else if p as real >= BATTERY_CURVE_START then SHARE_FULL
      else if p as real <= BATTERY_CURVE_END then SHARE_FLOOR
      else Curve((p as real - BATTERY_CURVE_END) / (BATTERY_CURVE_START - BATTERY_CURVE_END))
  }

  function LoadShare(g: State): real {
    if g.load <= LOAD_CURVE_START then SHARE_FULL
    else if g.load >= LOAD_CURVE_END then SHARE_FLOOR
    else Curve((g.load - LOAD_CURVE_START) / (LOAD_CURVE_END - LOAD_CURVE_START))
  }

  function Share(g: State): real { MinR(BatteryShare(g), LoadShare(g)) }

  /** `round` of a non-negative number. */
  function Round(x: real): nat
    requires x >= 0.0
  {
    (x + 0.5).Floor
  }

  lemma SmoothstepBounds(t: real)
    ensures 0.0 <= Smoothstep(t) <= 1.0
  {
    var u := MinR(MaxR(t, 0.0), 1.0);
    ProductNonNegative(u, u);
    ProductNonNegative(u * u, 3.0 - 2.0 * u);
    ProductNonNegative(1.0 - u, 1.0 - u);
    ProductNonNegative((1.0 - u) * (1.0 - u), 1.0 + 2.0 * u);
    assert 1.0 - Smoothstep(t) == (1.0 - u) * (1.0 - u) * (1.0 + 2.0 * u);
  }

  /** The share never leaves the band between floor and full, for any battery and load. */
  lemma ShareBounds(g: State)
    ensures SHARE_FLOOR <= Share(g) <= SHARE_FULL
  {
    hide Smoothstep;
    forall t: real ensures SHARE_FLOOR <= Curve(t) <= SHARE_FULL {
      SmoothstepBounds(t);
    }
  }

  function Cube(x: real): real { x * x * x }

  function Spread(x: real, y: real): real { x * x + x * y + y * y }

  /** The curve around its middle. */
  lemma SmoothstepCentred(x: real)
    requires -0.5 <= x <= 0.5
    ensures Smoothstep(x + 0.5) == 0.5 + 1.5 * x - 2.0 * Cube(x)
  {
    var u := x + 0.5;
    assert u * u == x * x + x + 0.25;
    assert (x * x + x + 0.25) * (2.0 - 2.0 * x) == 0.5 + 1.5 * x - 2.0 * (x * x * x);
  }

  lemma CubeDifference(x: real, y: real)
    ensures Cube(y) - Cube(x) == (y - x) * Spread(x, y)
  {
  }

  lemma Square(x: real)
    ensures x * x >= 0.0
  {
    if x >= 0.0 { ProductNonNegative(x, x); } else { ProductNonNegative(-x, -x); }
  }

  lemma SpreadBounds(x: real, y: real)
    requires -0.5 <= x <= y <= 0.5
    ensures 0.0 <= Spread(x, y) <= 0.75
  {
    Square(x);
    Square(y);
    Square(x + y);
    assert 2.0 * Spread(x, y) == x * x + y * y + (x + y) * (x + y);
    ProductNonNegative(0.5 - x, 0.5 + x);
    assert (0.5 - x) * (0.5 + x) == 0.25 - x * x;
    ProductNonNegative(0.5 - y, 0.5 + y);
    assert (0.5 - y) * (0.5 + y) == 0.25 - y * y;
    ProductNonNegative(y - x, y - x);
    assert (y - x) * (y - x) == x * x - 2.0 * (x * y) + y * y;
  }

  /** The curve never falls and never rises faster than 3/2. */
  lemma SmoothstepSlope(x: real, y: real)
    requires -0.5 <= x <= y <= 0.5
    ensures 0.0 <= Smoothstep(y + 0.5) - Smoothstep(x + 0.5) <= 1.5 * (y - x)
  {
    hide Smoothstep, Cube, Spread;
    SmoothstepCentred(x);
    SmoothstepCentred(y);
    CubeDifference(x, y);
    SpreadBounds(x, y);
    ProductNonNegative(y - x, Spread(x, y));
    ProductMonotone(y - x, Spread(x, y), 0.75);
  }

  /** One percent less battery never raises the share and lowers it by less than a hundredth: no cliff. */
  lemma BatteryCurveIsGentle(g: State, p: nat)
    requires !g.charging
    ensures var (low, high) := (BatteryShare(g.(battery := Some(p))), BatteryShare(g.(battery := Some(p + 1))));
      0.0 <= high - low < 0.01
  {
    SmoothstepEnds();
    hide Smoothstep;
    if 5 <= p < 40 {
      var x := (p as real - 5.0) / 35.0 - 0.5;
      SmoothstepSlope(x, x + 1.0 / 35.0);
      assert ((p + 1) as real - 5.0) / 35.0 == x + 1.0 / 35.0 + 0.5;
    }
  }

  /** Strictly inside the curve rises strictly. */
  lemma {:induction false} SmoothstepRises(x: real, y: real)
    requires -0.5 < x < y < 0.5
    ensures Smoothstep(x + 0.5) < Smoothstep(y + 0.5)
  {
    hide Smoothstep, Cube;
    SmoothstepCentred(x);
    SmoothstepCentred(y);
    CubeDifference(x, y);
    SpreadIsSmall(x, y);
    hide Spread;
    ProductPositive(y - x, 0.75 - Spread(x, y));
    assert (y - x) * (0.75 - Spread(x, y)) == 0.75 * (y - x) - (y - x) * Spread(x, y);
  }

  lemma SpreadIsSmall(x: real, y: real)
    requires -0.5 < x < y < 0.5
    ensures Spread(x, y) < 0.75
  {
    SquareIsSmall(x);
    SquareIsSmall(y);
    ProductNonNegative(y - x, y - x);
    SquareOfDifference(x, y);
    var a, b, c, d := x * x, y * y, x * y, (y - x) * (y - x);
    assert Spread(x, y) == a + c + b;
  }

  lemma SquareIsSmall(x: real)
    requires -0.5 < x < 0.5
    ensures x * x < 0.25
  {
    ProductPositive(0.5 - x, 0.5 + x);
    assert (0.5 - x) * (0.5 + x) == 0.25 - x * x;
  }

  lemma SquareOfDifference(x: real, y: real)
    ensures (y - x) * (y - x) == x * x - 2.0 * (x * y) + y * y
  {
  }

  lemma ProductPositive(a: real, b: real)
    requires a > 0.0 && b > 0.0
    ensures a * b > 0.0
  {
  }

  /** At both ends the curve is flat: it leaves them no faster than a parabola. */
  lemma {:induction false} SmoothstepIsFlat(t: real)
    requires 0.0 <= t <= 1.0
    ensures 0.0 <= Smoothstep(t) <= 3.0 * (t * t) && 0.0 <= 1.0 - Smoothstep(t) <= 3.0 * ((1.0 - t) * (1.0 - t))
  {
    var v := 1.0 - t;
    SmoothstepBounds(t);
    ProductNonNegative(t, t);
    ProductNonNegative(t * t, t);
    assert Smoothstep(t) == 3.0 * (t * t) - 2.0 * (t * t * t);
    ProductNonNegative(v, v);
    ProductNonNegative(v * v, v);
    assert 1.0 - Smoothstep(t) == 3.0 * (v * v) - 2.0 * (v * v * v);
  }

  lemma SmoothstepInside(t: real)
    requires 0.0 < t < 1.0
    ensures 0.0 < Smoothstep(t) < 1.0
  {
    hide Smoothstep;
    if t <= 0.5 {
      SmoothstepRises(t / 2.0 - 0.5, t - 0.5);
      SmoothstepBounds(t / 2.0);
      SmoothstepRises(t - 0.5, 0.25);
      SmoothstepBounds(0.75);
    } else {
      SmoothstepRises(-0.25, t - 0.5);
      SmoothstepBounds(0.25);
      SmoothstepRises(t - 0.5, t / 2.0);
      SmoothstepBounds(t / 2.0 + 0.5);
    }
  }

  /** Strictly between its ends the curve is strictly between floor and full. */
  lemma {:induction false} CurveIsInside(t: real)
    requires 0.0 < t < 1.0
    ensures SHARE_FLOOR < Curve(t) < SHARE_FULL
  {
    SmoothstepEnds();
    SmoothstepInside(t);
    hide Smoothstep;
  }

  /** Exactly when a stranger gets the full share, and exactly when only the floor. */
  lemma {:induction false} ShareExtremes(g: State)
    ensures Share(g) == 0.15 <==> (g.battery.None? || g.charging || g.battery.value >= 40) && g.load <= 0.6
    ensures Share(g) == 0.03 <==> (g.battery.Some? && !g.charging && g.battery.value <= 5) || g.load >= 1.0
  {
    ShareBounds(g);
    hide Curve;
    if 0.6 < g.load < 1.0 { CurveIsInside((g.load - 0.6) / 0.4); }
    if g.battery.Some? && 5 < g.battery.value < 40 { CurveIsInside((g.battery.value as real - 5.0) / 35.0); }
  }

  /**
   * The load curve is meant to fall from full to floor, but is traversed the other way round: a higher load gives
   * no higher share exactly when not both loads lie strictly between 0.6 and 1.
   */
  lemma {:induction false} LoadLowersShareIff(g: State, low: real, high: real)
    requires low <= high
    ensures LoadShare(g.(load := high)) <= LoadShare(g.(load := low)) <==> low <= 0.6 || high >= 1.0 || low == high
  {
    hide Smoothstep;
    if 0.6 < low < high < 1.0 {
      LoadCurveRises(g, low, high);
    } else {
      SmoothstepBounds((low - 0.6) / 0.4);
      SmoothstepBounds((high - 0.6) / 0.4);
    }
  }

  lemma {:induction false} LoadCurveRises(g: State, low: real, high: real)
    requires 0.6 < low < high < 1.0
    ensures LoadShare(g.(load := low)) < LoadShare(g.(load := high))
  {
    hide Smoothstep;
    var x, y := (low - 0.6) / 0.4, (high - 0.6) / 0.4;
    SmoothstepRises(x - 0.5, y - 0.5);
    assert x - 0.5 + 0.5 == x && y - 0.5 + 0.5 == y;
    assert LoadShare(g.(load := low)) == Curve(x) && LoadShare(g.(load := high)) == Curve(y);
  }

  /** So there is a cliff: one hundredth more load costs a share of more than a tenth. */
  lemma LoadCliff(g: State)
    ensures LoadShare(g.(load := 0.6)) - LoadShare(g.(load := 0.61)) > 0.11
  {
    SmoothstepIsFlat(0.025);
    hide Smoothstep;
  }

  lemma SmoothstepEnds()
    ensures Smoothstep(0.0) == 0.0 && Smoothstep(1.0) == 1.0
  {
  }

  function BudgetPerMin(g: State): nat {
    ShareBounds(g);
    ProductNonNegative(g.capacity as real, Share(g));
    Round(g.capacity as real * Share(g))
  }

  lemma ProductNonNegative(a: real, b: real)
    requires a >= 0.0 && b >= 0.0
    ensures a * b >= 0.0
  {
  }

  lemma ProductMonotone(a: real, b: real, c: real)
    requires a >= 0.0 && b <= c
    ensures a * b <= a * c
  {
    assert a * c - a * b == a * (c - b);
  }

  function PerSenderCap(g: State): nat {
    var n := |g.senders|;
    Max(if n == 0 then BudgetPerMin(g) else BudgetPerMin(g) / n, FLOOR_PER_SENDER)
  }

  /** The largest cap any battery, load and crowd can produce. */
  function Ceiling(capacity: nat): nat { Max(Round(capacity as real * SHARE_FULL), FLOOR_PER_SENDER) }

  lemma BudgetBound(g: State)
    ensures BudgetPerMin(g) <= Round(g.capacity as real * SHARE_FULL)
  {
    ShareBounds(g);
    hide Share;
    var c, s := g.capacity as real, Share(g);
    ProductNonNegative(c, s);
    ProductMonotone(c, s, SHARE_FULL);
    RoundMonotone(c * s, c * SHARE_FULL);
  }

  lemma CapBounds(g: State)
    ensures FLOOR_PER_SENDER <= PerSenderCap(g) <= Ceiling(g.capacity)
  {
    hide BudgetPerMin, Round;
    BudgetBound(g);
    if |g.senders| > 0 { QuotientShrinks(BudgetPerMin(g), |g.senders|); }
  }

  /** The budget is the share of the capacity, rounded to the nearest whole number. */
  lemma BudgetIsNearest(g: State)
    ensures var exact := g.capacity as real * Share(g); exact - 0.5 < BudgetPerMin(g) as real <= exact + 0.5
  {
    hide Share;
  }

  /**
   * Above the floor the cap is the largest that lets all senders together stay within the budget; at the floor
   * one more for everyone would not.
   */
  lemma {:induction false} CapSharesBudget(g: State)
    requires g.senders != map[]
    ensures BudgetPerMin(g) < (PerSenderCap(g) + 1) * |g.senders|
    ensures PerSenderCap(g) > 6 ==> PerSenderCap(g) * |g.senders| <= BudgetPerMin(g)
  {
    hide BudgetPerMin;
    var b, n := BudgetPerMin(g), |g.senders|;
    var q := b / n;
    QuotientBounds(b, n);
    ProductGrows(q + 1, PerSenderCap(g) + 1, n);
  }

  lemma QuotientBounds(b: nat, n: nat)
    requires n > 0
    ensures b / n * n <= b < (b / n + 1) * n
  {
  }

  lemma ProductGrows(a: nat, b: nat, n: nat)
    requires a <= b
    ensures a * n <= b * n
  {
  }

  lemma RoundMonotone(x: real, y: real)
    requires 0.0 <= x <= y
    ensures Round(x) <= Round(y)
  {
  }

  lemma QuotientShrinks(b: nat, n: nat)
    requires n > 0
    ensures b / n <= b
  {
    TimesAtLeast(n, b / n);
  }

  lemma {:induction false} TimesAtLeast(n: nat, q: nat)
    requires n > 0
    ensures n * q >= q
  {
    if n > 1 {
      TimesAtLeast(n - 1, q);
      assert n * q == (n - 1) * q + q;
    }
  }

  // ---------------------------------------------------------------- refilling and taking

  /** Tokens earned in `ms` milliseconds at `cap` per minute. */
  function Earned(cap: real, ms: int): real { ms as real * (cap / REFILL_INTERVAL_MS as real) }

  function Topped(tokens: real, cap: real, elapsed: int): real {
    MinR(if elapsed > 0 then MinR(tokens + Earned(cap, elapsed), cap) else tokens, cap)
  }

  function Refilled(q: Quota, cap: real, now: int): Quota {
    var elapsed := Max(now - q.last, 0);
    Quota(Topped(q.send, cap, elapsed), Topped(q.recv, cap, elapsed), Max(q.last, now))
  }

  function RefillAll(g: State, now: int): State {
    g.(senders := map p | p in g.senders :: Refilled(g.senders[p], PerSenderCap(g) as real, now))
  }

  datatype Direction = Send | Recv

  function Tokens(q: Quota, d: Direction): real { if d.Send? then q.send else q.recv }

  function Spend(q: Quota, d: Direction): Quota {
    if d.Send? then q.(send := q.send - 1.0) else q.(recv := q.recv - 1.0)
  }

  function Taken(g: State, p: NodeId, now: int, d: Direction): (State, bool) {
    var r := RefillAll(g, now);
    if p in r.senders && Tokens(r.senders[p], d) >= 1.0
    then (r.(senders := r.senders[p := Spend(r.senders[p], d)]), true)
    else (r, false)
  }

  function Register(g: State, p: NodeId, now: int): State {
    if p in g.senders then g
    else g.(senders := g.senders[p := Quota(PerSenderCap(g) as real, PerSenderCap(g) as real, now)])
  }

  class RelayGovernor {
    const capacityPerMin: nat
    var batteryPercent: Option<nat>
    var charging: bool
    var load: real
    var senders: map<NodeId, Quota>

    ghost function Model(): State
      reads this
    {
      State(capacityPerMin, batteryPercent, charging, load, senders)
    }

    constructor (capacityPerMin: nat)
      ensures Model() == State(capacityPerMin, Some(100), false, 0.0, map[])
    {
      this.capacityPerMin := capacityPerMin;
      batteryPercent, charging, load, senders := Some(100), false, 0.0, map[];
    }

    method SetBattery(percent: Option<nat>, charging: bool)
      modifies this
      ensures Model() == old(Model()).(battery := percent, charging := charging)
    {
      this.batteryPercent, this.charging := percent, charging;
    }

    /** `None` stands for a reading that is not finite, which counts as full load. */
    method SetLoad(reading: Option<real>)
      modifies this
      ensures Model() == old(Model()).(load := if reading.Some? then MinR(MaxR(reading.value, 0.0), 1.0) else 1.0)
    {
      load := if reading.Some? then MinR(MaxR(reading.value, 0.0), 1.0) else 1.0;
    }

    method Cap() returns (cap: real)
      ensures cap == PerSenderCap(Model()) as real
    {
      cap := PerSenderCap(State(capacityPerMin, batteryPercent, charging, load, senders)) as real;
    }

    method RegisterSender(p: NodeId, now: int)
      modifies this
      ensures Model() == Register(old(Model()), p, now)
    {
      var cap := Cap();
      if p !in senders {
        senders := senders[p := Quota(cap, cap, now)];
      }
    }

    method DropSender(p: NodeId)
      modifies this
      ensures Model() == old(Model()).(senders := old(senders) - {p})
    {
      senders := senders - {p};
    }

    /** Two passes over the senders, in any order: refill by elapsed time, then shrink to the cap. */
    method Refill(now: int)
      modifies this
      ensures Model() == RefillAll(old(Model()), now)
    {
      hide PerSenderCap, Earned, MinR;
      var cap := Cap();
      ghost var before := senders;
      var rest := senders.Keys;
      while rest != {}
        invariant Model() == old(Model()).(senders := senders) && rest <= senders.Keys == before.Keys
        invariant forall p: NodeId :: p in senders ==>
          senders[p] == if p in rest then before[p] else Filled(before[p], cap, now)
        decreases rest
      {
        var p :| p in rest;
        var q := senders[p];
        var elapsed := Max(now - q.last, 0);
        if elapsed > 0 {
          var earned := Earned(cap, elapsed);
          senders := senders[p := Quota(MinR(q.send + earned, cap), MinR(q.recv + earned, cap), now)];
        }
        rest := rest - {p};
      }
      ghost var filled := senders;
      rest := senders.Keys;
      while rest != {}
        invariant Model() == old(Model()).(senders := senders) && rest <= senders.Keys == before.Keys
        invariant forall p: NodeId :: p in senders ==>
          senders[p] == if p in rest then filled[p] else Shrunk(filled[p], cap)
        decreases rest
      {
        var p :| p in rest;
        var q := senders[p];
        senders := senders[p := q.(send := MinR(q.send, cap), recv := MinR(q.recv, cap))];
        rest := rest - {p};
      }
      assert senders == RefillAll(old(Model()), now).senders;
    }

    method TakeToken(p: NodeId, now: int, d: Direction) returns (ok: bool)
      modifies this
      ensures (Model(), ok) == Taken(old(Model()), p, now, d)
    {
      Refill(now);
      if p !in senders {
        return false;
      }
      var q := senders[p];
      if Tokens(q, d) >= 1.0 {
        senders := senders[p := Spend(q, d)];
        return true;
      }
      return false;
    }
  }

  /** What each of the two passes does to one bucket pair. */
  function Filled(q: Quota, cap: real, now: int): Quota {
    var elapsed := Max(now - q.last, 0);
    if elapsed > 0
    then Quota(MinR(q.send + Earned(cap, elapsed), cap), MinR(q.recv + Earned(cap, elapsed), cap), now)
    else q
  }

  function Shrunk(q: Quota, cap: real): Quota { q.(send := MinR(q.send, cap), recv := MinR(q.recv, cap)) }
}
