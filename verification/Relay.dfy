/**
 * The relay's replay gate (crates/core/src/relay.rs): a bounded cache of ticket fingerprints
 * that must never let one ticket through twice.
 */
module Relay {
  import opened Common
  import opened Payloads

  const MAX_TICKET_TTL_MS := 2 * 60 * 60 * 1000
  const SKEW_MS := 2 * 60 * 1000
  const MAX_SLOTS_PER_ORIGIN := 4

  /** A relay clock reading for which every unchecked addition below stays inside 64 bits. */
  type RelayMs = t: int | 0 <= t <= U64_MAX - MAX_TICKET_TTL_MS - 2 * SKEW_MS

  /** Ed25519 verification (key, message, signature) and the fingerprint hash. */
  datatype Crypto = Crypto(signed: (NodeId, seq<Byte>, seq<Byte>) -> bool, hash: seq<Byte> -> Bytes32)

  datatype Entry = Entry(expiry: U64, origin: NodeId, challenge: Bytes32)
  type Seen = map<Bytes32, Entry>

  predicate Verifies(c: Crypto, t: RelayTicket, now: RelayMs, challenge: Bytes32)
    ensures Verifies(c, t, now, challenge) ==> t.expiry + SKEW_MS <= U64_MAX
  {
    && |t.sig| == 64
    && c.signed(t.origin, TicketPayload(t), t.sig)
    && t.nonce != seq(16, _ => 0)
    && t.challenge == challenge
    && SatU64(t.expiry - t.issuedAt) <= MAX_TICKET_TTL_MS
    && t.issuedAt <= now + SKEW_MS
    && now <= t.expiry + SKEW_MS
  }

  function Fingerprint(c: Crypto, t: RelayTicket): Bytes32 { c.hash(TicketFingerprintInput(t)) }

  // ---------------------------------------------------------------- the cache

  /** The entries still worth keeping: unexpired and of the challenge in force. */
  function Live(seen: Seen, now: RelayMs, challenge: Bytes32): Seen {
    map k: Bytes32 | k in seen && seen[k].expiry + SKEW_MS > now && seen[k].challenge == challenge :: seen[k]
  }

  function Slots(seen: Seen, origin: NodeId): set<Bytes32> {
    set k: Bytes32 | k in seen && seen[k].origin == origin
  }

  ghost predicate IsOldest(seen: Seen, origin: NodeId, k: Bytes32) {
    k in Slots(seen, origin) && forall j: Bytes32 :: j in Slots(seen, origin) ==> seen[k].expiry <= seen[j].expiry
  }

  /** Never more entries than the capacity, never more than four of one origin. */
  ghost predicate Within(seen: Seen, capacity: nat) {
    && |seen| <= capacity
    && (forall o: NodeId :: |Slots(seen, o)| <= MAX_SLOTS_PER_ORIGIN)
    && (forall k: Bytes32 :: k in seen ==> seen[k].expiry + SKEW_MS <= U64_MAX)
  }

  /**
   * What one call may do to the cache. A refused ticket leaves every live entry in place;
   * an accepted one displaces at most one, an oldest entry of its own origin.
   */
  ghost predicate Accepts(c: Crypto, capacity: nat, seen: Seen, t: RelayTicket, now: RelayMs, challenge: Bytes32,
                          seen': Seen, ok: bool)
  {
    var fp, entry := Fingerprint(c, t), Entry(t.expiry, t.origin, challenge);
    var live := Live(seen, now, challenge);
    if !Verifies(c, t, now, challenge) || fp in seen then
      !ok && seen' == seen
    else if |Slots(live, t.origin)| >= MAX_SLOTS_PER_ORIGIN then
      ok && exists k: Bytes32 :: IsOldest(live, t.origin, k) && seen' == (live - {k})[fp := entry]
    else if |live| >= capacity then
      !ok && seen' == live
    else
      ok && seen' == live[fp := entry]
  }

  lemma SubmapSize(small: Seen, big: Seen)
    requires small.Keys <= big.Keys
    ensures |small| <= |big|
  {
    SubsetSize(small.Keys, big.Keys);
    assert |small.Keys| == |small| && |big.Keys| == |big|;
  }

  lemma SubsetSize<T>(a: set<T>, b: set<T>)
    requires a <= b
    ensures |a| <= |b|
  {
    assert b == a + (b - a);
  }

  lemma LiveIsWithin(seen: Seen, capacity: nat, now: RelayMs, challenge: Bytes32)
    requires Within(seen, capacity)
    ensures Within(Live(seen, now, challenge), capacity)
  {
    var live := Live(seen, now, challenge);
    SubmapSize(live, seen);
    forall o: NodeId ensures |Slots(live, o)| <= MAX_SLOTS_PER_ORIGIN {
      SubsetSize(Slots(live, o), Slots(seen, o));
    }
  }

  /** Dropping one slot of an origin frees a place for that origin and in the whole cache. */
  lemma RemovalFrees(seen: Seen, k: Bytes32)
    requires k in seen
    ensures |seen - {k}| == |seen| - 1
    ensures Slots(seen - {k}, seen[k].origin) == Slots(seen, seen[k].origin) - {k}
    ensures forall o: NodeId :: o != seen[k].origin ==> Slots(seen - {k}, o) == Slots(seen, o)
  {
  }

  lemma InsertionFills(seen: Seen, k: Bytes32, e: Entry)
    requires k !in seen
    ensures |seen[k := e]| == |seen| + 1
    ensures forall o: NodeId :: Slots(seen[k := e], o) == if o == e.origin then Slots(seen, o) + {k} else Slots(seen, o)
  {
  }

  lemma InsertionStaysWithin(seen: Seen, capacity: nat, k: Bytes32, e: Entry)
    requires Within(seen, capacity) && |seen| < capacity && k !in seen
    requires |Slots(seen, e.origin)| < MAX_SLOTS_PER_ORIGIN && e.expiry + SKEW_MS <= U64_MAX
    ensures Within(seen[k := e], capacity)
  {
    InsertionFills(seen, k, e);
    var next := seen[k := e];
    forall o: NodeId ensures |Slots(next, o)| <= MAX_SLOTS_PER_ORIGIN {
      hide Slots;
      assert k !in Slots(seen, o) by { assert k !in seen; }
      assert |Slots(seen, o) + {k}| <= |Slots(seen, o)| + 1;
    }
  }

  lemma EvictionStaysWithin(seen: Seen, capacity: nat, origin: NodeId, k: Bytes32)
    requires Within(seen, capacity) && IsOldest(seen, origin, k)
    ensures Within(seen - {k}, capacity) && |seen - {k}| < capacity
    ensures |Slots(seen - {k}, origin)| < MAX_SLOTS_PER_ORIGIN
  {
    RemovalFrees(seen, k);
  }

  /** The bounds hold in every reachable state. */
  lemma AcceptsKeepsBounds(c: Crypto, capacity: nat, seen: Seen, t: RelayTicket, now: RelayMs, challenge: Bytes32,
                           seen': Seen, ok: bool)
    requires Within(seen, capacity) && Accepts(c, capacity, seen, t, now, challenge, seen', ok)
    ensures Within(seen', capacity)
  {
    var fp, entry := Fingerprint(c, t), Entry(t.expiry, t.origin, challenge);
    var live := Live(seen, now, challenge);
    LiveIsWithin(seen, capacity, now, challenge);
    if Verifies(c, t, now, challenge) && fp !in seen {
      if |Slots(live, t.origin)| >= MAX_SLOTS_PER_ORIGIN {
        var k: Bytes32 :| IsOldest(live, t.origin, k) && seen' == (live - {k})[fp := entry];
        EvictionStaysWithin(live, capacity, t.origin, k);
        InsertionStaysWithin(live - {k}, capacity, fp, entry);
      } else if |live| < capacity {
        InsertionStaysWithin(live, capacity, fp, entry);
      }
    }
  }

  lemma {:induction false} OldestExists(seen: Seen, origin: NodeId, among: set<Bytes32>) returns (k: Bytes32)
    requires among != {} && among <= Slots(seen, origin)
    ensures k in among && forall j: Bytes32 :: j in among ==> seen[k].expiry <= seen[j].expiry
    decreases |among|
  {
    k :| k in among;
    if among != {k} {
      var m := OldestExists(seen, origin, among - {k});
      k := if seen[k].expiry <= seen[m].expiry then k else m;
    }
  }

  class RelayGuard {
    const crypto: Crypto
    const maxEntries: nat
    var seen: Seen

    ghost predicate Valid()
      reads this
    {
      maxEntries >= 1 && Within(seen, maxEntries)
    }

    constructor (crypto: Crypto, maxEntries: nat)
      ensures Valid() && seen == map[] && this.crypto == crypto && this.maxEntries == Max(maxEntries, 1)
    {
      this.crypto := crypto;
      this.maxEntries := Max(maxEntries, 1);
      seen := map[];
    }

    /** Makes room among the slots of `origin`; within the bounds one eviction is always enough. */
    method EvictOldest(origin: NodeId)
      requires |Slots(seen, origin)| <= MAX_SLOTS_PER_ORIGIN
      modifies this
      ensures |Slots(old(seen), origin)| < MAX_SLOTS_PER_ORIGIN ==> seen == old(seen)
      ensures |Slots(old(seen), origin)| == MAX_SLOTS_PER_ORIGIN ==>
        exists k: Bytes32 :: IsOldest(old(seen), origin, k) && seen == old(seen) - {k}
    {
      while |Slots(seen, origin)| >= MAX_SLOTS_PER_ORIGIN
        invariant seen == old(seen) || (
          |Slots(seen, origin)| < MAX_SLOTS_PER_ORIGIN == |Slots(old(seen), origin)| &&
          exists k: Bytes32 :: IsOldest(old(seen), origin, k) && seen == old(seen) - {k})
        decreases |seen|
      {
        var slots := Slots(seen, origin);
        ghost var m := OldestExists(seen, origin, slots);
        var k: Bytes32 :| k in slots && forall j: Bytes32 :: j in slots ==> seen[k].expiry <= seen[j].expiry;
        assert IsOldest(seen, origin, k);
        RemovalFrees(seen, k);
        seen := seen - {k};
      }
    }

    /** Drops entries of other challenges while the cache is full; never one of the challenge in force. */
    method DropDead(challenge: Bytes32) returns (full: bool)
      modifies this
      ensures full <==> |seen| >= maxEntries
      ensures seen.Keys <= old(seen).Keys && forall k: Bytes32 :: k in seen ==> seen[k] == old(seen)[k]
      ensures forall k: Bytes32 :: k in old(seen) && old(seen)[k].challenge == challenge ==> k in seen
    {
      while |seen| >= maxEntries
        invariant seen.Keys <= old(seen).Keys && forall k: Bytes32 :: k in seen ==> seen[k] == old(seen)[k]
        invariant forall k: Bytes32 :: k in old(seen) && old(seen)[k].challenge == challenge ==> k in seen
        decreases |seen|
      {
        var dead := set k: Bytes32 | k in seen && seen[k].challenge != challenge;
        if dead == {} {
          return true;
        }
        var k: Bytes32 :| k in dead;
        RemovalFrees(seen, k);
        seen := seen - {k};
      }
      return false;
    }

    /** The two `retain` passes: expired entries go first, then those of replaced challenges. */
    method Prune(now: RelayMs, challenge: Bytes32)
      modifies this
      ensures seen == Live(old(seen), now, challenge)
      ensures forall k: Bytes32 :: k in seen ==> k in old(seen) && seen[k].challenge == challenge
    {
      seen := map k: Bytes32 | k in seen && seen[k].expiry + SKEW_MS > now :: seen[k];
      seen := map k: Bytes32 | k in seen && seen[k].challenge == challenge :: seen[k];
    }

    method Accept(t: RelayTicket, now: RelayMs, challenge: Bytes32) returns (ok: bool)
      requires Valid()
      modifies this
      ensures Valid()
      ensures Accepts(crypto, maxEntries, old(seen), t, now, challenge, seen, ok)
    {
      hide Within, IsOldest, Slots, Fingerprint, Live, Verifies;
      if !Verifies(crypto, t, now, challenge) {
        return false;
      }
      var fp := Fingerprint(crypto, t);
      if fp in seen {
        return false;
      }
      LiveIsWithin(seen, maxEntries, now, challenge);
      Prune(now, challenge);
      ghost var live := seen;
      OriginBound(live, maxEntries, t.origin);
      EvictOldest(t.origin);
      if |Slots(live, t.origin)| == MAX_SLOTS_PER_ORIGIN {
        ghost var k: Bytes32 :| IsOldest(live, t.origin, k) && seen == live - {k};
        EvictionStaysWithin(live, maxEntries, t.origin, k);
      }
      ghost var kept := seen;
      var full := DropDead(challenge);
      assert seen == kept;
      if !full {
        seen := seen[fp := Entry(t.expiry, t.origin, challenge)];
      }
      ok := !full;
      AcceptsKeepsBounds(crypto, maxEntries, old(seen), t, now, challenge, seen, ok);
    }
  }

  lemma OriginBound(seen: Seen, capacity: nat, origin: NodeId)
    requires Within(seen, capacity)
    ensures |Slots(seen, origin)| <= MAX_SLOTS_PER_ORIGIN
  {
  }
}
