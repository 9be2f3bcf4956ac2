/**
 * The mailbox gate (crates/core/src/mailbox.rs): keyed MAC, replay window and a ledger of
 * message ids that forgets an entry only when its write can no longer pass the window.
 */
module Mailbox {
  import opened Common
  import opened Payloads

  const REPLAY_WINDOW_MS := 5 * 60 * 1000
  const SKEW_MS := 2 * 60_000
  const LEDGER_MS := REPLAY_WINDOW_MS + SKEW_MS   // time stamp to stored expiry: 7 min
  const KEEP_MS := LEDGER_MS + SKEW_MS            // time stamp to eviction: 9 min
  const BACKSTOP := 4096

  /** A reading for which no stored expiry can overflow: a passing write is stamped at most 5 min ahead. */
  type MailMs = t: int | 0 <= t <= U64_MAX - REPLAY_WINDOW_MS - KEEP_MS

  /** Keyed BLAKE3: (secret, message). */
  type Mac = (Bytes32, seq<Byte>) -> Bytes32

  function Seal(mac: Mac, e: Envelope, secret: Bytes32, serial: U32, ts: U64, nonce: Bytes16): BucketWrite {
    var blank := BucketWrite(e, serial, nonce, ts, seq(32, _ => 0));
    blank.(mac := mac(secret, MacInput(blank)))
  }

  predicate InWindow(ts: U64, now: MailMs) {
    ts <= SatU64(now + REPLAY_WINDOW_MS) && ts >= SatU64(now - REPLAY_WINDOW_MS)
  }

  predicate Verifies(mac: Mac, w: BucketWrite, secret: Bytes32, now: MailMs) {
    w.mac == mac(secret, MacInput(w)) && InWindow(w.ts, now)
  }

  /** A sealed write passes exactly inside the window. */
  lemma SealedVerifies(mac: Mac, e: Envelope, secret: Bytes32, serial: U32, ts: U64, nonce: Bytes16, now: MailMs)
    ensures Verifies(mac, Seal(mac, e, secret, serial, ts, nonce), secret, now) <==> Abs(ts - now) <= REPLAY_WINDOW_MS
  {
  }

  /** Two verifying writes with one MAC are the same write, unless the MAC collides on them. */
  lemma MacBindsEverything(mac: Mac, w: BucketWrite, v: BucketWrite, secret: Bytes32, now: MailMs, later: MailMs)
    requires Verifies(mac, w, secret, now) && Verifies(mac, v, secret, later) && w.mac == v.mac
    requires mac(secret, MacInput(w)) == mac(secret, MacInput(v)) ==> MacInput(w) == MacInput(v)
    ensures w == v
  {
    MacInputIsInjective(w, v);
  }

  // ---------------------------------------------------------------- the ledger

  type Ledger = map<Bytes16, U64>

  function Unexpired(l: Ledger, now: MailMs): Ledger {
    map id: Bytes16 | id in l && l[id] + SKEW_MS > now :: l[id]
  }

  function Recorded(l: Ledger, cap: nat, id: Bytes16, ts: U64, now: MailMs): (Ledger, bool) {
    var kept := Unexpired(l, now);
    if id in kept || |kept| >= cap then (kept, false)
    else (kept[id := SatU64(ts + LEDGER_MS)], true)
  }

  function Inbound(mac: Mac, cap: nat, l: Ledger, w: BucketWrite, secret: Bytes32, now: MailMs): (Ledger, bool) {
    if Verifies(mac, w, secret, now) then Recorded(l, cap, w.envelope.msgId, w.ts, now) else (l, false)
  }

  lemma UnexpiredShrinks(l: Ledger, now: MailMs)
    ensures |Unexpired(l, now)| <= |l|
  {
    var kept := Unexpired(l, now);
    assert l.Keys == kept.Keys + (l.Keys - kept.Keys);
    assert |kept.Keys| == |kept| && |l.Keys| == |l|;
  }

  class NonceCache {
    const hardCap: nat
    var entries: Ledger

    ghost predicate Valid()
      reads this
    {
      |entries| <= hardCap && hardCap >= BACKSTOP
    }

    /** The unchecked `expiry + 2 min` of the next call overflows for no stored entry. */
    ghost predicate Fits()
      reads this
    {
      forall id: Bytes16 :: id in entries ==> entries[id] + SKEW_MS <= U64_MAX
    }

    constructor (cap: nat)
      ensures Valid() && Fits() && entries == map[] && hardCap == Max(cap, BACKSTOP)
    {
      hardCap := Max(cap, BACKSTOP);
      entries := map[];
    }

    /** Any stamp may be recorded; one within 9 min of the 64-bit limit leaves an entry that no longer fits. */
    method CheckAndInsert(id: Bytes16, ts: U64, now: MailMs) returns (first: bool)
      requires Valid() && Fits()
      modifies this
      ensures Valid()
      ensures Fits() <==> !first || ts + KEEP_MS <= U64_MAX
      ensures (entries, first) == Recorded(old(entries), hardCap, id, ts, now)
    {
      var expiry := SatU64(ts + LEDGER_MS);
      UnexpiredShrinks(entries, now);
      entries := map k: Bytes16 | k in entries && entries[k] + SKEW_MS > now :: entries[k];
      if id in entries {
        return false;
      }
      if |entries| >= hardCap {
        return false;
      }
      entries := entries[id := expiry];
      assert entries[id] == expiry;
      return true;
    }
  }

  method VerifyInbound(mac: Mac, w: BucketWrite, secret: Bytes32, nonces: NonceCache, now: MailMs)
    returns (r: Result<()>)
    requires nonces.Valid() && nonces.Fits()
    modifies nonces
    ensures nonces.Valid() && nonces.Fits()
    ensures (nonces.entries, r.Ok?) == Inbound(mac, nonces.hardCap, old(nonces.entries), w, secret, now)
  {
    if !Verifies(mac, w, secret, now) {
      return Err;
    }
    var first := nonces.CheckAndInsert(w.envelope.msgId, w.ts, now);
    if !first {
      return Err;
    }
    return Ok(());
  }

  // ---------------------------------------------------------------- runs

  datatype Call = Call(write: BucketWrite, secret: Bytes32, now: MailMs)

  /** A gate: the MAC in use, the hard cap and everything it has been asked. */
  datatype Gate = Gate(mac: Mac, cap: nat, calls: seq<Call>) {

    /** The ledger just before call `i`. */
    ghost function Before(i: nat): Ledger
      requires i <= |calls|
      decreases i, 0
    {
      if i == 0 then map[] else Outcome(i - 1).0
    }

    ghost function Outcome(i: nat): (Ledger, bool)
      requires i < |calls|
      decreases i, 1
    {
      Inbound(mac, cap, Before(i), calls[i].write, calls[i].secret, calls[i].now)
    }

    ghost predicate Passes(i: nat)
      requires i < |calls|
    {
      Verifies(mac, calls[i].write, calls[i].secret, calls[i].now)
    }

    ghost predicate Accepted(i: nat)
      requires i < |calls|
    {
      Outcome(i).1
    }

    function Id(i: nat): Bytes16
      requires i < |calls|
    {
      calls[i].write.envelope.msgId
    }

    function Ts(i: nat): U64
      requires i < |calls|
    {
      calls[i].write.ts
    }
  }

  lemma {:induction false} SizeIsCapped(g: Gate, i: nat)
    requires i <= |g.calls|
    ensures |g.Before(i)| <= g.cap
  {
    if i > 0 {
      SizeIsCapped(g, i - 1);
      UnexpiredShrinks(g.Before(i - 1), g.calls[i - 1].now);
    }
  }

  lemma PassingStampFits(g: Gate, i: nat)
    requires i < |g.calls| && g.Passes(i)
    ensures Abs(g.Ts(i) - g.calls[i].now) <= REPLAY_WINDOW_MS
    ensures SatU64(g.Ts(i) + LEDGER_MS) == g.Ts(i) + LEDGER_MS
  {
  }

  /** What passes: a write whose MAC is that of its own fields under the secret, stamped at most 5 min off. */
  lemma {:induction false} PassesIff(g: Gate, i: nat)
    requires i < |g.calls|
    ensures var (w, c) := (g.calls[i].write, g.calls[i]);
      g.Passes(i) <==> w.mac == g.mac(c.secret, MacInput(w)) && -300_000 <= w.ts - c.now <= 300_000
  {
  }

  // ---------------------------------------------------------------- the ledger is the history

  /** Call `k` was accepted before call `i` and no passing call after it, before `j`, read 9 min past its stamp. */
  ghost predicate Held(g: Gate, k: nat, i: nat, j: nat)
    requires i <= |g.calls| && j <= |g.calls|
  {
    k < i && g.Accepted(k) && forall m :: k < m < j && g.Passes(m) ==> g.calls[m].now < g.Ts(k) + KEEP_MS
  }

  ghost function HeldIds(g: Gate, i: nat, j: nat): set<Bytes16>
    requires i <= |g.calls| && j <= |g.calls|
  {
    set k | 0 <= k < i && Held(g, k, i, j) :: g.Id(k)
  }

  /** The ledger is the acceptance history, less the entries flushed by a late enough reading. */
  ghost predicate IsHistory(g: Gate, l: Ledger, i: nat, j: nat)
    requires i <= |g.calls| && j <= |g.calls|
  {
    && (forall k: nat :: Held(g, k, i, j) ==> g.Id(k) in l && l[g.Id(k)] == g.Ts(k) + LEDGER_MS)
    && (forall id: Bytes16 :: id in l ==> exists k: nat :: Held(g, k, i, j) && g.Id(k) == id)
  }

  /** One passing reading flushes exactly what the history says it flushes. */
  lemma PruningKeepsHistory(g: Gate, l: Ledger, n: nat)
    requires n < |g.calls| && g.Passes(n) && IsHistory(g, l, n, n)
    ensures IsHistory(g, Unexpired(l, g.calls[n].now), n, n + 1)
  {
    hide Inbound, Verifies;
    var now := g.calls[n].now;
    assert forall k: nat :: Held(g, k, n, n + 1) <==> Held(g, k, n, n) && now < g.Ts(k) + KEEP_MS;
  }

  lemma {:induction false} HistoryGrows(g: Gate, kept: Ledger, next: Ledger, n: nat)
    requires n < |g.calls| && IsHistory(g, kept, n, n + 1)
    requires next == if g.Accepted(n) then kept[g.Id(n) := g.Ts(n) + LEDGER_MS] else kept
    requires g.Accepted(n) ==> g.Id(n) !in kept
    ensures IsHistory(g, next, n + 1, n + 1)
  {
    hide Inbound, Verifies;
    var i := n + 1;
    assert forall k: nat :: Held(g, k, i, i) <==> Held(g, k, n, i) || (k == n && g.Accepted(n));
    forall id: Bytes16 | id in next ensures exists k: nat :: Held(g, k, n + 1, n + 1) && g.Id(k) == id {
      if id in kept {
        var k: nat :| Held(g, k, n, n + 1) && g.Id(k) == id;
        assert Held(g, k, n + 1, n + 1);
      } else {
        assert Held(g, n, n + 1, n + 1);
      }
    }
  }

  lemma NothingFlushed(g: Gate, l: Ledger, n: nat)
    requires n < |g.calls| && !g.Passes(n) && IsHistory(g, l, n, n)
    ensures IsHistory(g, l, n, n + 1)
  {
    hide Inbound, Verifies;
    assert forall k: nat :: Held(g, k, n, n + 1) <==> Held(g, k, n, n);
  }

  /** Over every run, for arbitrary readings. */
  lemma {:induction false} LedgerIsHistory(g: Gate, i: nat)
    requires i <= |g.calls|
    ensures IsHistory(g, g.Before(i), i, i)
  {
    hide Verifies, IsHistory;
    if i == 0 {
      EmptyIsHistory(g);
    } else {
      var n := i - 1;
      LedgerIsHistory(g, n);
      if g.Passes(n) {
        PruningKeepsHistory(g, g.Before(n), n);
        PassingStampFits(g, n);
        HistoryGrows(g, Unexpired(g.Before(n), g.calls[n].now), g.Before(i), n);
      } else {
        NothingFlushed(g, g.Before(n), n);
        HistoryGrows(g, g.Before(n), g.Before(i), n);
      }
    }
  }

  lemma EmptyIsHistory(g: Gate)
    ensures IsHistory(g, map[], 0, 0)
  {
  }

  lemma HistoryKeys(g: Gate, l: Ledger, i: nat, j: nat)
    requires i <= |g.calls| && j <= |g.calls| && IsHistory(g, l, i, j)
    ensures l.Keys == HeldIds(g, i, j) && |l| == |HeldIds(g, i, j)|
  {
    hide Inbound, Verifies;
    assert l.Keys == HeldIds(g, i, j);
    assert |l.Keys| == |l|;
  }

  /**
   * The gate's answer from its history alone: a write is accepted exactly when it verifies, no held
   * write has its id and fewer than the cap are held.
   */
  lemma AnswersFromHistory(g: Gate, n: nat)
    requires n < |g.calls|
    ensures g.Accepted(n) <==>
      g.Passes(n) && g.Id(n) !in HeldIds(g, n, n + 1) && |HeldIds(g, n, n + 1)| < g.cap
  {
    hide Verifies, IsHistory, HeldIds;
    if g.Passes(n) {
      LedgerIsHistory(g, n);
      PruningKeepsHistory(g, g.Before(n), n);
      HistoryKeys(g, Unexpired(g.Before(n), g.calls[n].now), n, n + 1);
    }
  }

  /** Call `k`, made before call `n`, was accepted and its stamp is less than 9 min before `now`. */
  ghost predicate Due(g: Gate, k: nat, n: nat, now: int)
    requires n <= |g.calls|
  {
    k < n && g.Accepted(k) && g.Ts(k) + KEEP_MS > now
  }

  ghost predicate TimeRises(g: Gate) {
    forall a, b :: 0 <= a < b < |g.calls| ==> g.calls[a].now <= g.calls[b].now
  }

  /** Under rising time the present reading alone decides: the pruned ledger answers as the full history. */
  lemma AnswersAsFullHistory(g: Gate, n: nat)
    requires n < |g.calls| && TimeRises(g)
    ensures var due := set k | 0 <= k < n && Due(g, k, n, g.calls[n].now) :: g.Id(k);
      g.Accepted(n) <==> g.Passes(n) && g.Id(n) !in due && |due| < g.cap
  {
    hide Inbound, Verifies;
    AnswersFromHistory(g, n);
    if g.Passes(n) {
      var now := g.calls[n].now;
      assert forall k: nat :: Held(g, k, n, n + 1) <==> Due(g, k, n, now);
      assert HeldIds(g, n, n + 1) == set k | 0 <= k < n && Due(g, k, n, now) :: g.Id(k);
    }
  }

  // ---------------------------------------------------------------- replay

  /**
   * No write is accepted twice, nor any other write with its id and no later stamp,
   * as long as no reading is four minutes or more below an earlier one.
   */
  lemma {:induction false} AtMostOnce(g: Gate, i: nat, j: nat)
    requires i < j < |g.calls|
    requires forall a, b :: 0 <= a < b < |g.calls| ==> g.calls[b].now > g.calls[a].now - (KEEP_MS - REPLAY_WINDOW_MS)
    requires g.Id(i) == g.Id(j) && g.Ts(j) <= g.Ts(i)
    ensures !(g.Accepted(i) && g.Accepted(j))
  {
    hide Inbound, Verifies;
    AnswersFromHistory(g, j);
    if g.Accepted(i) && g.Passes(j) {
      PassingStampFits(g, j);
      assert Held(g, i, j, j + 1);
    }
  }

  /** Some passing call between `i` and `j` read 9 min or more past the stamp of call `i`. */
  ghost predicate Flushed(g: Gate, i: nat, j: nat)
    requires i < j < |g.calls|
  {
    exists m :: i < m < j && g.Passes(m) && g.calls[m].now >= g.Ts(i) + KEEP_MS
  }

  /** Exactly when a replay escapes: the write was flushed in between and there is room. */
  lemma {:induction false} ReplayedIff(g: Gate, i: nat, j: nat)
    requires i < j < |g.calls| && g.Accepted(i) && g.Passes(j) && g.calls[i].write == g.calls[j].write
    requires forall m :: i < m < j && g.Id(m) == g.Id(i) ==> !g.Accepted(m)
    ensures g.Accepted(j) <==> Flushed(g, i, j) && |HeldIds(g, j, j + 1)| < g.cap
  {
    hide Inbound, Verifies;
    AnswersFromHistory(g, i);
    AnswersFromHistory(g, j);
    PassingStampFits(g, j);
    assert Held(g, i, j, j + 1) <==> !Flushed(g, i, j);
    if g.Id(j) in HeldIds(g, j, j + 1) {
      var k :| 0 <= k < j && Held(g, k, j, j + 1) && g.Id(k) == g.Id(j);
      assert k < i ==> Held(g, k, i, i + 1);
    }
  }

  /** And it does escape: three passing calls, the second late enough and the third back inside the window. */
  lemma {:induction false} ThirdCallReplays(g: Gate)
    requires |g.calls| == 3 && g.cap >= 2 && g.calls[0].write == g.calls[2].write && g.Id(1) != g.Id(0)
    requires g.Passes(0) && g.Passes(1) && g.Passes(2) && g.calls[1].now >= g.Ts(0) + KEEP_MS
    ensures g.Accepted(0) && g.Accepted(2)
  {
    hide Inbound, Verifies;
    AnswersFromHistory(g, 0);
    ReplayedIff(g, 0, 2);
    var held := HeldIds(g, 2, 3);
    assert held <= {g.Id(1)};
    assert {g.Id(1)} == held + ({g.Id(1)} - held);
  }
}
